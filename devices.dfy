/**
 * The generic single-pin GPIO device (`GpioDevice`). Its polarity is fixed when it
 * is built and never written again, so the device is a value; the level its pin
 * reads at the moment of a query is passed in.
 */
module Devices {
  import opened Gpio

  datatype GpioDevice = GpioDevice(activeState: bool, inactiveState: bool)

  /** A new device is active-high: it reads active exactly when its line is High. */
  function NewGpioDevice(): (d: GpioDevice)
    ensures d.activeState && !d.inactiveState
    ensures forall read: Level :: Value(d, read) <==> read == High
  {
    GpioDevice(true, false)
  }

  /** The device's value for the level its pin reads now. */
  function Value(d: GpioDevice, read: Level): (r: bool)
    ensures r <==> read == LevelFor(d.activeState)
  {
    match read
    case High => d.activeState
    case Low => !d.activeState
  }

  /** Whether the device is active, given the level its pin reads now. */
  function IsActive(d: GpioDevice, read: Level): (r: bool)
    ensures r <==> read == LevelFor(d.activeState)
  {
    Value(d, read)
  }

  /** For a fixed polarity the two levels always give opposite values. */
  lemma LevelsGiveOppositeValues(d: GpioDevice)
    ensures Value(d, High) != Value(d, Low)
    ensures Value(d, High) == d.activeState
  {
  }

  /** The device is active exactly when its line is at the level of its active state. */
  lemma ActiveIffAtActiveLevel(d: GpioDevice, read: Level)
    ensures IsActive(d, read) <==> read == LevelFor(d.activeState)
    ensures IsActive(d, read) == Value(d, read)
  {
  }
}
