# rust_gpiozero: polarity, read-back and debouncing

A Dafny model of three pieces of sequential logic in rust_gpiozero, a GPIO
device library for single-board computers:

- **`OutputDeviceR`** (`src/output_devices_rppal.rs`) is a digital output. It keeps
  an `active_state`, an `inactive_state` and the level it last wrote. `on` and
  `off` translate a logical value into a pin level through this polarity, and
  `value`/`is_active` map the recorded level back. The model states the rules once,
  as functions over `OutputState` (the three fields as a value). The class
  `OutputDeviceR` has the same fields, and its methods are proved against those
  functions. The hardware pin is an `OutputPin` that records the levels written to
  it.
- **`GpioDevice`** (`src/devices.rs`) is the generic single-pin device. Its
  polarity is fixed when it is built, so it is a value. The level its pin reads
  at query time is a parameter.
- **`Debounced`** (`src/debounce.rs`) debounces a button. One cell, `lastTrigger`,
  is shared by blocking waits (`wait_for_press`, `wait_for_release`) and by
  callbacks (`when_pressed`, `when_released`). An event passes the gate when
  nothing has been recorded or at least `period` has elapsed since the recorded
  time. A passing event records its own time; a bounce changes nothing. Time is a
  natural-number clock. Each poll or interrupt callback is an event that carries
  the clock reading.

Modules: `Options` (Rust's `Option`), `Gpio` (`Level`, `Trigger`, `OutputPin`),
`OutputDevices`, `Devices`, `Debounce`.

Modelling choices:
- `Instant::elapsed` is saturating subtraction on the clock (`Debounce.Elapsed`). A
  reading earlier than the recorded time counts as zero elapsed.
- In `wait_for`, the result of `poll_interrupt` is ignored, so a poll that times
  out reaches the gate check like an interrupt does. In the model, every poll is
  simply a clock reading.
- `OutputDevices.OutputDeviceR.SetActiveHigh` states the inversion property
  without assuming the fields were complements beforehand. `value()` depends
  only on `active_state` and the recorded level, so the value flips exactly when
  `active_state` changes.

## Model

| member | source | states |
|---|---|---|
| `OutputDevices.ActiveHigh` | src/output_devices_rppal.rs:71-78 | the device is active-high exactly when it reads active while its pin is High |
| `OutputDevices.ValueToState` | src/output_devices_rppal.rs:80-86 | the chosen pin state reads back as the logical value exactly when the value is true or the polarity fields are complements |
| `OutputDevices.StateToValue` | src/output_devices_rppal.rs:106-108 | a pin state means active exactly when it gives the same level as the active state |
| `OutputDevices.ValueOf` | src/output_devices_rppal.rs:111-116 | the recorded level reads active exactly when it is the level of the active state |
| `OutputDevices.OutputDeviceR.Value` | src/output_devices_rppal.rs:110-116 | the device reads active exactly when its recorded level is the level of its active state |
| `OutputDevices.OutputDeviceR.ActiveHigh` | src/output_devices_rppal.rs:76-78 | true exactly when the device would read active with its pin High |
| `OutputDevices.OutputDeviceR.IsActive` | src/output_devices_rppal.rs:155-157 | the device is active exactly when its recorded level is the level of its active state |
| `OutputDevices.Initial` | src/output_devices_rppal.rs:25-30 | a new device is active-high with complementary fields, records Low and so reads inactive |
| `OutputDevices.OutputDeviceR.constructor` | src/output_devices_rppal.rs:20-33 | the new device's state is the initial state, it reads inactive, and nothing has been written to its fresh pin |
| `OutputDevices.AfterWrite` | src/output_devices_rppal.rs:80-94 | writing keeps both polarity fields; the written state reads back as the written value exactly when the value is true or the fields are complements |
| `OutputDevices.AfterSetActiveHigh` | src/output_devices_rppal.rs:62-75 | the fields become complements with `active_state` = the argument; the recorded level is kept; the value is inverted exactly when the polarity changes |
| `OutputDevices.OnOffLevels` | src/output_devices_rppal.rs:88-104 | with complementary fields, on drives High and off drives Low when active-high, and the reverse when active-low |
| `OutputDevices.OffWithEqualFieldsDrivesActive` | src/output_devices_rppal.rs:80-86 | if the public setters have made the two fields equal, off drives the same level as on, and the device then reads active |
| `OutputDevices.WriteIdempotent` | src/output_devices_rppal.rs:97-104 | writing the same value a second time leaves the state of the first write |
| `OutputDevices.ReadBackAgreesWithGpioDevice` | src/output_devices_rppal.rs:106-116 | the output device's read-back of a level equals a generic GPIO device's value for that level under the same `active_state` |
| `OutputDevices.OutputDeviceR.SetActiveState` | src/output_devices_rppal.rs:126-128 | sets `active_state` and changes no other field |
| `OutputDevices.OutputDeviceR.SetInactiveState` | src/output_devices_rppal.rs:140-142 | sets `inactive_state` and changes no other field |
| `OutputDevices.OutputDeviceR.SetPinState` | src/output_devices_rppal.rs:144-146 | records the level without writing the pin |
| `OutputDevices.OutputDeviceR.SetPinLevel` | src/output_devices_rppal.rs:53-56 | appends exactly that level to the pin's writes and records it; the polarity fields are untouched |
| `OutputDevices.OutputDeviceR.SetActiveHigh` | src/output_devices_rppal.rs:62-70 | the new state is `AfterSetActiveHigh` of the old one; the pin is not written; the value flips exactly when `active_state` changes |
| `OutputDevices.OutputDeviceR.WriteState` | src/output_devices_rppal.rs:88-94 | the new state is `AfterWrite` of the old one, and that one level is appended to the pin's writes |
| `OutputDevices.OutputDeviceR.On` | src/output_devices_rppal.rs:97-99 | writes the level for true; afterwards `value()` and `is_active()` are true under either polarity |
| `OutputDevices.OutputDeviceR.Off` | src/output_devices_rppal.rs:102-104 | writes the level for false; afterwards `value()` is false exactly when the polarity fields are complements |
| `Devices.Value` | src/devices.rs:67-76 | the value is true exactly when the pin reads the device's active level |
| `Devices.IsActive` | src/devices.rs:17-20 | the device is active exactly when the pin reads its active level |
| `Devices.NewGpioDevice` | src/devices.rs:52-64 | a new device is active-high, and its value is true exactly when its pin reads High |
| `Devices.LevelsGiveOppositeValues` | src/devices.rs:67-76 | for a fixed polarity, High and Low give opposite values, and High gives `active_state` |
| `Devices.ActiveIffAtActiveLevel` | src/devices.rs:17-20 | `is_active` equals `value` and holds exactly when the pin reads the device's active level |
| `Debounce.Elapsed` | src/debounce.rs:97 | the time since the recorded reading, zero for a reading before it |
| `Debounce.Accepts` | src/debounce.rs:95-102 | an event passes exactly when nothing is recorded, the period is zero, or it comes at least `period` after the recorded time |
| `Debounce.Step` | src/debounce.rs:130-138 | an accepted event records its own time; a rejected one leaves the cell as it was |
| `Debounce.TriggerFor` | src/debounce.rs:86-89 | a wait arms the rising edge exactly when it waits for activation, and the falling edge otherwise |
| `Debounce.Accepted` | src/debounce.rs:128-138 | the accepted events are among the offered ones and no more numerous; with nothing recorded, the first event is accepted |
| `Debounce.FirstEventAccepted` | src/debounce.rs:95-102 | with no recorded trigger, the next event is accepted and its time is recorded |
| `Debounce.WithinPeriodRejected` | src/debounce.rs:130-135 | an event less than `period` after the recorded time is rejected and leaves the cell unchanged |
| `Debounce.SharedWindow` | src/debounce.rs:19-21 | once an event is accepted, any event within `period` after it is rejected, whether it is a press or a release |
| `Debounce.BouncesLeaveCell` | src/debounce.rs:92-99 | a run of rejected events accepts nothing and leaves the cell as it was, so bounces never extend the window |
| `Debounce.BouncesThenAccept` | src/debounce.rs:92-104 | after a run of bounces, the first passing event is the only one accepted and its time is recorded |
| `Debounce.FinalIsLastAccepted` | src/debounce.rs:137-138 | after any sequence of events, the cell holds the time of the last accepted one, or its old value if none was accepted |
| `Debounce.AcceptedSpaced` | src/debounce.rs:130-138 | if the clock never goes back, any two accepted events are at least `period` apart, and so is the first one from the time recorded before |
| `Debounce.Debounced.Debounce` | src/debounce.rs:15-21 | the wrapper has `period` equal to the duration and no recorded trigger, and the wrapped button's interrupt and callback are kept as they were |
| `Debounce.Debounced.WaitFor` | src/debounce.rs:85-105 | arms the pin for the edge matching `active`; returns the first poll that passes the gate, with all earlier polls rejected, and records its time; if every poll bounces, the cell is unchanged |
| `Debounce.Debounced.WaitForPress` | src/debounce.rs:81-83 | waits on a rising edge; the accepted events among the consumed polls are exactly the one that ended the wait |
| `Debounce.Debounced.WaitForRelease` | src/debounce.rs:75-77 | waits on a falling edge; the accepted events among the consumed polls are exactly the one that ended the wait |
| `Debounce.Debounced.ActionOn` | src/debounce.rs:123-140 | registers the gated callback for the given `active` flag |
| `Debounce.Debounced.WhenPressed` | src/debounce.rs:108-113 | registers the callback with `active` = true |
| `Debounce.Debounced.WhenReleased` | src/debounce.rs:116-121 | registers the callback with `active` = false |
| `Debounce.Debounced.OnInterrupt` | src/debounce.rs:129-139 | the action runs exactly when the gate accepts the interrupt; the cell takes the gate's next value; the action receives the interrupt's level only on acceptance |

## Left out

- Interrupt plumbing is modelled only as far as the edge a blocking wait arms, which `Debounced.interrupt` records. The hardware effect of `set_interrupt`, its errors, `poll_interrupt`, poll timeouts and the `unwrap` panics are not modelled. A poll or a callback invocation is an event with a time.
- The conversion of a float timeout in seconds to a `Duration` is not modelled: it is floating point.
- The `Arc<Mutex<…>>` around the cell is treated as one sequential cell. Locking is not modelled, and neither is the fact that the callback keeps the lock while the user's action runs.
- `Debounce.Debounced.OnInterrupt`: the order inside the callback (record, then run the action) is reflected only in the statement order of the body. The user's action is a log of the levels it receives, because its code is outside the library.
- `Debounce.Debounced.ActionOn`: `Button` is not part of this model. Registration is only the recorded `active` flag, and the `gpio::Error` that registration can return is not modelled.
- Claiming a pin through `Gpio::new`/`gpio.get`, and the `panic!` when that fails, are foreign calls. The constructors start from a pin that has already been obtained.
- The accessors `get_pin`, `get_active_state`, `get_inactive_state` and `get_pin_level` are field reads in the model. `close` only drops the device.
- The software PWM engine (blink, pulse, fades, repeat counts, `wait`) is not part of this model. Its implementation is not among the modelled files, and its point is concurrency and timing.
- The sysfs-based devices are not part of this model: they talk to a different pin library and have no polarity. `src/output_devices.rs` writes 1 for on and 0 for off, toggles by reading the pin back, and blinks in an endless sleep loop. `src/input_devices.rs` and `src/traits.rs` report the raw pin value, with `is_active` true when that value is at least 1.
- `src/led.rs` is not part of this model. It is an older LED on the same pin library as the modelled files, and the crate does not declare it as a module. Its `on` and `off` write High and Low with no polarity, and its `blink` is an endless sleep loop.
- `src/input_devices_rppal.rs` is not part of this model. It builds input devices that are active-high with a pull-down resistor or active-low with a pull-up, and adds a `wait_for_active` that blocks on the active edge without debouncing.
- `Debug` formatting of `Debounced` is not modelled: it prints the inner pin number and the period. `Deref`/`DerefMut` are not modelled: they give access to the inner button.
- `Debounce.Debounced.WaitFor`: the source reads the clock twice, once for the gate check and again when it records the accepted poll (`src/debounce.rs:97,104`). The model checks and records the same reading. The source's later record can therefore reject an event that the model accepts. Example: period 10, a poll accepted at 0 but recorded at 2, then an event at 11; the source measures 9 elapsed and rejects it.
- `Debounce.Debounced.WaitFor`: the polls are a finite sequence. When every poll bounces, the model returns `None` with the cell unchanged, while the source keeps blocking for the next poll.
- `Debounce.Debounced.OnInterrupt`: the callback likewise checks one clock reading and records a later one (`src/debounce.rs:132,137`). The model uses the interrupt's single reading for both, with the same effect as for `WaitFor`.
