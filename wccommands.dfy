/** The command-line driver of lab1/zad2: it reads its arguments as a sequence of
    commands from a fixed table (timer NAME, endtimer, waste N) and runs each one.
    The clock readings, the report printed by endtimer and the sched_yield calls of
    waste are kept only as the actions the commands perform. */
module WcCommands {
  import opened Common

  /** What a recognised command does: timer starts the named timer, endtimer reports on
      the timer last started, waste yields `loops` times. */
  datatype Action = StartTimer(name: string) | ReportTimer(name: string) | Yield(loops: nat)

  /** How a run ends: with an exit code, or in a failed assert; with the actions performed
      before. */
  datatype Outcome = Exit(code: int, actions: seq<Action>) | Abort(actions: seq<Action>)

  /** The command table, in the order main tries it. */
  const COMMANDS: seq<string> := ["timer", "endtimer", "waste"]

  /** What running a command did: the arguments it consumed after its name, the timer
      name afterwards and its action; or its assert failed. */
  datatype Effect = Ran(consumed: nat, timer: Option<string>, action: Action) | Failed

  /** com_timer, com_endtimer and com_waste (table entries 0, 1, 2) given the arguments
      that follow the command name and the current timer name (NULL until a timer
      runs).  The loop count of waste is atoi's int converted to unsigned. */
  function Command(k: nat, args: seq<string>, timer: Option<string>): (e: Effect)
    requires k < |COMMANDS|
    ensures e.Failed? <==> (k != 1 && args == []) || (k == 1 && timer.None?)
    ensures e.Ran? ==> e.consumed == (if k == 1 then 0 else 1) && e.consumed <= |args|
    ensures e.Ran? && k == 0 ==> e.timer == Some(args[0]) && e.action == StartTimer(args[0])
    ensures e.Ran? && k != 0 ==> e.timer == timer
  {
    if k == 0 then
      (if |args| >= 1 then Ran(1, Some(args[0]), StartTimer(args[0])) else Failed)
    else if k == 1 then
      (if timer.Some? then Ran(0, timer, ReportTimer(timer.value)) else Failed)
    else
      (if |args| >= 1 then Ran(1, timer, Yield(Atoi(args[0]) % U32_LIMIT)) else Failed)
  }

  /** The dispatch loop of main from the state where `words` are left, table entry i is
      next to try, and `acts` have been performed. */
  function Run(words: seq<string>, i: nat, timer: Option<string>, acts: seq<Action>): Outcome
    decreases |words|, |COMMANDS| - i
  {
    if words == [] || i >= |COMMANDS| then Exit(if words == [] then 0 else 1, acts)
    else if words[0] != COMMANDS[i] then Run(words, i + 1, timer, acts)
    else
      match Command(i, words[1..], timer)
      case Failed => Abort(acts)
      case Ran(n, t, a) => Run(words[1 + n..], 1, t, acts + [a])
  }

  /** The arguments argv[args..], or none when argc is 0. */
  function Remaining(argv: seq<string>, args: nat): seq<string> {
    if args <= |argv| then argv[args..] else []
  }

  /** main: the words after the program name are dispatched, each matching word runs
      its command, which consumes its own arguments, and the table is tried again from
      entry 1 (i is reset to 0 and then incremented). */
  method Dispatch(argv: seq<string>) returns (outcome: Outcome)
    ensures outcome == Run(Remaining(argv, 1), 0, None, [])
  {
    var args: nat := 1;
    var left: int := |argv| - 1;
    var i: nat := 0;
    var timer: Option<string> := None;
    var acts: seq<Action> := [];
    while left > 0 && i < |COMMANDS|
      invariant 1 <= args && left == |argv| - args && (args <= |argv| || argv == [])
      invariant Run(Remaining(argv, args), i, timer, acts) == Run(Remaining(argv, 1), 0, None, [])
      decreases left, |COMMANDS| - i
    {
      if argv[args] == COMMANDS[i] {
        args, left := args + 1, left - 1;
        var e := Command(i, argv[args..], timer);
        if e.Failed? {
          return Abort(acts);
        }
        assert argv[args - 1..][1 + e.consumed..] == argv[args + e.consumed..];
        timer, acts := e.timer, acts + [e.action];
        args, left := args + e.consumed, left - e.consumed;
        i := 0;
      }
      i := i + 1;
    }
    if left > 0 {
      return Exit(1, acts);
    }
    return Exit(0, acts);
  }

  /** After the first command only endtimer (once a timer has started) and waste N may
      follow, any number of times in any order. */
  predicate Tail(words: seq<string>, timerSet: bool)
    decreases |words|
  {
    words == [] ||
    (words[0] == "endtimer" && timerSet && Tail(words[1..], timerSet)) ||
    (words[0] == "waste" && |words| >= 2 && Tail(words[2..], timerSet))
  }

  /** The command lines main accepts: an optional leading timer NAME, then a Tail. */
  predicate Accepted(words: seq<string>) {
    (|words| >= 2 && words[0] == "timer" && Tail(words[2..], true)) || Tail(words, false)
  }

  /** After a command has run, the loop ends with exit code 0 exactly on a Tail. */
  lemma {:induction false} RunTail(words: seq<string>, timer: Option<string>, acts: seq<Action>)
    ensures (Run(words, 1, timer, acts) == Exit(0, Run(words, 1, timer, acts).actions)) <==>
      Tail(words, timer.Some?)
    decreases |words|
  {
    if words == [] {
    } else if words[0] == "endtimer" {
      if timer.Some? {
        RunTail(words[1..], timer, acts + [ReportTimer(timer.value)]);
      } else {
        assert Run(words, 1, timer, acts) == Abort(acts);
      }
    } else {
      assert Run(words, 1, timer, acts) == Run(words, 2, timer, acts);
      if words[0] == "waste" {
        if |words| >= 2 {
          var a := Yield(Atoi(words[1]) % U32_LIMIT);
          assert Run(words, 2, timer, acts) == Run(words[2..], 1, timer, acts + [a]);
          RunTail(words[2..], timer, acts + [a]);
        } else {
          assert Run(words, 2, timer, acts) == Abort(acts);
        }
      } else {
        assert Run(words, 2, timer, acts) == Run(words, 3, timer, acts) == Exit(1, acts);
      }
    }
  }

  /** main exits with code 0 exactly on the accepted command lines; on any other it
      exits with code 1 (an unknown word) or fails an assert. */
  lemma Accepts(words: seq<string>)
    ensures (Run(words, 0, None, []) == Exit(0, Run(words, 0, None, []).actions)) <==> Accepted(words)
  {
    if words != [] && words[0] == "timer" {
      assert !Tail(words, false);
      if |words| >= 2 {
        assert words[0] == COMMANDS[0] && words[1..][0] == words[1];
        assert Command(0, words[1..], None) == Ran(1, Some(words[1]), StartTimer(words[1]));
        assert [] + [StartTimer(words[1])] == [StartTimer(words[1])];
        assert Run(words, 0, None, []) == Run(words[2..], 1, Some(words[1]), [StartTimer(words[1])]);
        RunTail(words[2..], Some(words[1]), [StartTimer(words[1])]);
      } else {
        assert Run(words, 0, None, []) == Abort([]);
      }
    } else {
      assert Run(words, 0, None, []) == Run(words, 1, None, []);
      RunTail(words, None, []);
    }
  }

  /** Once a command has run, no later word starts a timer: "timer" is recognised only
      as the first word. */
  lemma {:induction false} NoLaterTimer(words: seq<string>, i: nat, timer: Option<string>, acts: seq<Action>)
    requires 1 <= i
    ensures |Run(words, i, timer, acts).actions| >= |acts|
    ensures forall k :: |acts| <= k < |Run(words, i, timer, acts).actions| ==>
      !Run(words, i, timer, acts).actions[k].StartTimer?
    ensures Run(words, i, timer, acts).actions[..|acts|] == acts
    decreases |words|, |COMMANDS| - i
  {
    if words == [] || i >= |COMMANDS| {
    } else if words[0] != COMMANDS[i] {
      NoLaterTimer(words, i + 1, timer, acts);
    } else {
      match Command(i, words[1..], timer)
      case Failed =>
      case Ran(n, t, a) =>
        NoLaterTimer(words[1 + n..], 1, t, acts + [a]);
        var out := Run(words[1 + n..], 1, t, acts + [a]).actions;
        assert out[..|acts|] == (acts + [a])[..|acts|];
    }
  }
}
