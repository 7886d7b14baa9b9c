/**
 * The two `threading.Event` flags of a download manager, `pause_event` and
 * `stop_event`, and the commands that set and clear them.
 */
module ControlFlags {

  datatype Flags = Flags(pauseSet: bool, stopSet: bool)

  /** `pause_download`, `resume_download` and `stop_download`. */
  datatype Command = Pause | Resume | Stop

  /** A fresh `threading.Event` is clear. */
  const Initial := Flags(false, false)

  /** Pause sets the pause flag and resume clears it; stop sets the stop
      flag, and no command clears it. Each command leaves the other flag
      alone. */
  function Step(f: Flags, c: Command): (g: Flags)
    ensures g.stopSet <==> f.stopSet || c == Stop
    ensures g.pauseSet == if c == Stop then f.pauseSet else c == Pause
  {
    match c
    case Pause => f.(pauseSet := true)
    case Resume => f.(pauseSet := false)
    case Stop => f.(stopSet := true)
  }

  /** The flags after a history of commands, oldest first. */
  function Run(f: Flags, cs: seq<Command>): (g: Flags)
    decreases |cs|
  {
    if cs == [] then f else Run(Step(f, cs[0]), cs[1..])
  }

  /** The pause and resume commands of a history, in order. */
  function Toggles(cs: seq<Command>): (ts: seq<Command>)
    ensures forall k :: 0 <= k < |ts| ==> ts[k] != Stop
    decreases |cs|
  {
    if cs == [] then []
    else if cs[0] == Stop then Toggles(cs[1..])
    else [cs[0]] + Toggles(cs[1..])
  }

  lemma {:induction false} RunAppend(f: Flags, cs: seq<Command>, ds: seq<Command>)
    ensures Run(f, cs + ds) == Run(Run(f, cs), ds)
    decreases |cs|
  {
    if cs != [] {
      assert (cs + ds)[1..] == cs[1..] + ds;
      RunAppend(Step(f, cs[0]), cs[1..], ds);
    } else {
      assert cs + ds == ds;
    }
  }

  /** Issuing a command twice in a row has the same effect as issuing it
      once, wherever in a history that happens. */
  lemma Idempotent(f: Flags, cs: seq<Command>, c: Command, ds: seq<Command>)
    ensures Run(f, cs + [c, c] + ds) == Run(f, cs + [c] + ds)
  {
    RunAppend(f, cs + [c, c], ds);
    RunAppend(f, cs + [c], ds);
    RunAppend(f, cs, [c, c]);
    RunAppend(f, cs, [c]);
    var g := Run(f, cs);
    assert Run(g, [c, c]) == Run(Step(g, c), [c]);
  }

  /** Nothing clears the stop flag: after a history it is set exactly when it
      was set before or the history holds a stop command. */
  lemma {:induction false} StopIsPermanent(f: Flags, cs: seq<Command>)
    ensures Run(f, cs).stopSet <==> f.stopSet || Stop in cs
    decreases |cs|
  {
    if cs != [] {
      StopIsPermanent(Step(f, cs[0]), cs[1..]);
      assert cs == [cs[0]] + cs[1..];
    }
  }

  /** The pause flag after a history is decided by the last pause or resume
      command in it, and stop commands have no say. */
  lemma {:induction false} PauseFollowsLastToggle(f: Flags, cs: seq<Command>)
    ensures var ts := Toggles(cs);
            Run(f, cs).pauseSet == if ts == [] then f.pauseSet else ts[|ts| - 1] == Pause
    decreases |cs|
  {
    if cs != [] {
      PauseFollowsLastToggle(Step(f, cs[0]), cs[1..]);
    }
  }
}
