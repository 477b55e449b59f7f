/**
 * The parts of the GPIO peripheral library that the devices use: the level of a
 * line, the edge an interrupt waits for, and an output pin. The pin is reduced to
 * the history of levels written to it; how it is claimed and configured is not
 * part of this model.
 */
module Gpio {
  /** The electrical level of a GPIO line. */
  datatype Level = High | Low

  /** The level that represents the pin state `state`: High for true, Low for false. */
  function LevelFor(state: bool): Level {
    if state then High else Low
  }

  /** The edge an interrupt is armed for. */
  datatype Trigger = RisingEdge | FallingEdge

  /** An output pin, seen only through the levels written to it, oldest first. */
  class OutputPin {
    var written: seq<Level>

    constructor ()
      ensures written == []
    {
      written := [];
    }

    /** Drives the line to `level`. */
    method Write(level: Level)
      modifies this
      ensures written == old(written) + [level]
    {
      written := written + [level];
    }
  }
}
