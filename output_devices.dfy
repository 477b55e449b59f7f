/**
 * The polarity-aware digital output device (`OutputDeviceR`). The device keeps an
 * active state, an inactive state and the level it last wrote; `on` and `off`
 * translate a logical value into a level through the polarity, and `value` maps
 * the recorded level back.
 *
 * The translation rules are stated once, as functions over `OutputState`, the
 * device's three fields as a value; the class methods are proved against them.
 */
module OutputDevices {
  import opened Gpio
  import Devices

  datatype OutputState = OutputState(activeState: bool, inactiveState: bool, pinLevel: Level)

  /** The two polarity fields are complements, as every polarity change leaves them. */
  predicate Complementary(s: OutputState) {
    s.inactiveState == !s.activeState
  }

  /** The state of a freshly built device. */
  function Initial(): (s: OutputState)
    ensures ActiveHigh(s) && Complementary(s)
    ensures s.pinLevel == Low && !ValueOf(s)
  {
    OutputState(true, false, Low)
  }

  /** Whether the device reads active when its pin is High. */
  function ActiveHigh(s: OutputState): (r: bool)
    ensures r <==> ValueOf(s.(pinLevel := High))
  {
    s.activeState
  }

  /** The pin state that represents the logical `value`. */
  function ValueToState(s: OutputState, value: bool): (r: bool)
    ensures StateToValue(s.activeState, r) == value <==> value || Complementary(s)
  {
    if value then s.activeState else s.inactiveState
  }

  /** The logical value a pin state stands for. */
  function StateToValue(activeState: bool, state: bool): (r: bool)
    ensures r <==> LevelFor(state) == LevelFor(activeState)
  {
    state == activeState
  }

  /** The logical value of the recorded level. */
  function ValueOf(s: OutputState): (r: bool)
    ensures r <==> s.pinLevel == LevelFor(s.activeState)
  {
    match s.pinLevel
    case Low => StateToValue(s.activeState, false)
    case High => StateToValue(s.activeState, true)
  }

  /**
   * The state after writing the logical `value`. It reads back as `value` exactly
   * when the value is true or the polarity fields are complements: with both
   * fields equal, writing false drives the active level.
   */
  function AfterWrite(s: OutputState, value: bool): (r: OutputState)
    ensures r.activeState == s.activeState && r.inactiveState == s.inactiveState
    ensures ValueOf(r) == value <==> value || Complementary(s)
  {
    s.(pinLevel := LevelFor(ValueToState(s, value)))
  }

  /**
   * The state after choosing the polarity. The fields become complements and the
   * recorded level is kept, so the value is inverted exactly when the polarity
   * changes.
   */
  function AfterSetActiveHigh(s: OutputState, value: bool): (r: OutputState)
    ensures Complementary(r) && ActiveHigh(r) == value
    ensures r.pinLevel == s.pinLevel
    ensures ValueOf(r) == ValueOf(s) <==> ActiveHigh(s) == value
  {
    if value then s.(activeState := true, inactiveState := false)
    else s.(activeState := false, inactiveState := true)
  }

  /** Active-high devices drive High for on and Low for off; active-low ones the reverse. */
  lemma OnOffLevels(s: OutputState)
    requires Complementary(s)
    ensures AfterWrite(s, true).pinLevel == (if ActiveHigh(s) then High else Low)
    ensures AfterWrite(s, false).pinLevel == (if ActiveHigh(s) then Low else High)
  {
  }

  /** When the polarity fields are equal, off drives the same level as on. */
  lemma OffWithEqualFieldsDrivesActive(s: OutputState)
    requires !Complementary(s)
    ensures AfterWrite(s, false).pinLevel == AfterWrite(s, true).pinLevel
    ensures ValueOf(AfterWrite(s, false))
  {
  }

  /** Writing the same value twice leaves the state of the first write. */
  lemma WriteIdempotent(s: OutputState, value: bool)
    ensures AfterWrite(AfterWrite(s, value), value) == AfterWrite(s, value)
  {
  }

  /** The output side reads a level back as a generic GPIO device of the same polarity does. */
  lemma ReadBackAgreesWithGpioDevice(s: OutputState, d: Devices.GpioDevice)
    requires d.activeState == s.activeState
    ensures ValueOf(s) == Devices.Value(d, s.pinLevel)
  {
  }

  class OutputDeviceR {
    const pin: OutputPin
    var activeState: bool
    var inactiveState: bool
    var pinLevel: Level

    function State(): OutputState
      reads this
    {
      OutputState(activeState, inactiveState, pinLevel)
    }

    /** Builds an active-high device whose recorded level is Low; nothing is written. */
    constructor ()
      ensures State() == Initial() && !Value()
      ensures fresh(pin) && pin.written == []
    {
      pin := new OutputPin();
      activeState := true;
      inactiveState := false;
      pinLevel := Low;
    }

    method SetActiveState(val: bool)
      modifies this`activeState
      ensures activeState == val
    {
      activeState := val;
    }

    method SetInactiveState(val: bool)
      modifies this`inactiveState
      ensures inactiveState == val
    {
      inactiveState := val;
    }

    /** Records `level` without writing the pin. */
    method SetPinState(level: Level)
      modifies this`pinLevel
      ensures pinLevel == level
    {
      pinLevel := level;
    }

    /** Writes `level` to the pin and records it; the polarity is untouched. */
    method SetPinLevel(level: Level)
      modifies this`pinLevel, pin
      ensures pin.written == old(pin.written) + [level]
      ensures pinLevel == level
    {
      pin.Write(level);
      SetPinState(level);
    }

    /** Chooses the polarity without touching the pin. */
    method SetActiveHigh(value: bool)
      modifies this`activeState, this`inactiveState
      ensures State() == AfterSetActiveHigh(old(State()), value)
      ensures Value() == old(Value()) <==> old(activeState) == value
    {
      if value {
        SetActiveState(true);
        SetInactiveState(false);
      } else {
        SetActiveState(false);
        SetInactiveState(true);
      }
    }

    /** Writes the level that stands for the logical `value`. */
    method WriteState(value: bool)
      modifies this`pinLevel, pin
      ensures State() == AfterWrite(old(State()), value)
      ensures pin.written == old(pin.written) + [pinLevel]
    {
      if ValueToState(State(), value) {
        SetPinLevel(High);
      } else {
        SetPinLevel(Low);
      }
    }

    /** Turns the device on: it reads active afterwards under either polarity. */
    method On()
      modifies this`pinLevel, pin
      ensures State() == AfterWrite(old(State()), true)
      ensures pin.written == old(pin.written) + [pinLevel]
      ensures Value() && IsActive()
    {
      WriteState(true);
    }

    /** Turns the device off: it reads inactive afterwards unless the polarity fields are equal. */
    method Off()
      modifies this`pinLevel, pin
      ensures State() == AfterWrite(old(State()), false)
      ensures pin.written == old(pin.written) + [pinLevel]
      ensures !Value() <==> Complementary(State())
    {
      WriteState(false);
    }

    function ActiveHigh(): (r: bool)
      reads this
      ensures r <==> ValueOf(State().(pinLevel := High))
    {
      activeState
    }

    function Value(): (r: bool)
      reads this
      ensures r <==> pinLevel == LevelFor(activeState)
    {
      ValueOf(State())
    }

    function IsActive(): (r: bool)
      reads this
      ensures r <==> pinLevel == LevelFor(activeState)
    {
      Value()
    }
  }
}
