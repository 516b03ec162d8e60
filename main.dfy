/**
  The acquisition side of `main.py`: the Esc handler that clears the global
  `data_collect` flag, the log-level choice of `configure_logging`, and the
  `collect_data` loop, which tests the flag, reads one line, parses it and keeps
  (and optionally writes) each sample.

  The serial port becomes a sequence of read results and the keyboard listener
  a sequence of key batches: batch i is delivered before the flag is tested for
  the i-th time, batch 0 before the first test.
 */
module Acquisition {
  import opened PyBytes
  import Parser
  import Samples

  // ---------------------------------------------------------------------------
  // configure_logging
  // ---------------------------------------------------------------------------

  // The numeric levels of Python's logging module.
  const DEBUG: int := 10
  const INFO: int := 20
  const WARNING: int := 30
  const ERROR: int := 40
  const CRITICAL: int := 50

  /** The levels the five arms of the match select, in arm order. */
  const Levels: seq<int> := [DEBUG, INFO, WARNING, ERROR, CRITICAL]

  /** The level chosen, and whether the "Unknown logging level" notice is printed. */
  datatype LevelChoice = LevelChoice(level: int, unknown: bool)

  /** The match of `configure_logging`. Its `"waning"` arm is spelt as in the
      source, so `"warning"` falls through to the default. */
  function SelectLevel(logLevel: string): (c: LevelChoice)
    ensures c.level in {DEBUG, INFO, WARNING, ERROR, CRITICAL}
    ensures c.unknown <==> logLevel !in MatchedNames
    ensures c.level == WARNING <==> logLevel !in ["debug", "info", "error", "critical"]
    ensures forall i :: 0 <= i < |MatchedNames| && logLevel == MatchedNames[i] ==> c == LevelChoice(Levels[i], false)
  {
    match logLevel
    case "debug" => LevelChoice(DEBUG, false)
    case "info" => LevelChoice(INFO, false)
    case "waning" => LevelChoice(WARNING, false)
    case "error" => LevelChoice(ERROR, false)
    case "critical" => LevelChoice(CRITICAL, false)
    case _ => LevelChoice(WARNING, true)
  }

  /** The strings the match names. */
  const MatchedNames: seq<string> := ["debug", "info", "waning", "error", "critical"]

  /** The values the command line accepts for --log-level, and its default. */
  const LevelChoices: seq<string> := ["debug", "info", "waning", "error", "critical"]
  const LevelDefault: string := "warning"

  /** Every accepted command-line value selects the level of its own arm silently
      ("debug" DEBUG, "info" INFO, "waning" WARNING, "error" ERROR, "critical"
      CRITICAL); the
      default "warning" is not among the matched names, so it yields WARNING
      through the fallback and prints the notice. Distinct names give distinct
      levels. */
  lemma LevelChoicesSelected()
    ensures forall c :: c in LevelChoices ==> !SelectLevel(c).unknown
    ensures forall i :: 0 <= i < |LevelChoices| ==> SelectLevel(LevelChoices[i]) == LevelChoice(Levels[i], false)
    ensures SelectLevel(LevelDefault) == LevelChoice(WARNING, true)
    ensures forall i, j :: 0 <= i < j < |LevelChoices| ==>
              SelectLevel(LevelChoices[i]).level != SelectLevel(LevelChoices[j]).level
  {
  }

  /** The match with its third arm spelt "warning", as the level it selects
      evidently intends, and the command-line values to go with it. */
  function SelectLevelIntended(logLevel: string): (c: LevelChoice)
    ensures c.level in {DEBUG, INFO, WARNING, ERROR, CRITICAL}
    ensures c.unknown <==> logLevel !in IntendedChoices
    ensures c.level == WARNING <==> logLevel !in ["debug", "info", "error", "critical"]
    ensures forall i :: 0 <= i < |IntendedChoices| && logLevel == IntendedChoices[i] ==> c == LevelChoice(Levels[i], false)
  {
    match logLevel
    case "debug" => LevelChoice(DEBUG, false)
    case "info" => LevelChoice(INFO, false)
    case "warning" => LevelChoice(WARNING, false)
    case "error" => LevelChoice(ERROR, false)
    case "critical" => LevelChoice(CRITICAL, false)
    case _ => LevelChoice(WARNING, true)
  }

  const IntendedChoices: seq<string> := ["debug", "info", "warning", "error", "critical"]

  /** With the spelling corrected, the default is one of the choices and selects
      WARNING silently, and every choice selects its own level. */
  lemma IntendedChoicesSelected()
    ensures LevelDefault in IntendedChoices
    ensures forall c :: c in IntendedChoices ==> !SelectLevelIntended(c).unknown
    ensures forall i :: 0 <= i < |IntendedChoices| ==> SelectLevelIntended(IntendedChoices[i]) == LevelChoice(Levels[i], false)
    ensures SelectLevelIntended(LevelDefault) == LevelChoice(WARNING, false)
    ensures forall i, j :: 0 <= i < j < |IntendedChoices| ==>
              SelectLevelIntended(IntendedChoices[i]).level != SelectLevelIntended(IntendedChoices[j]).level
  {
  }

  // ---------------------------------------------------------------------------
  // on_press
  // ---------------------------------------------------------------------------

  /** A key event from the listener: Esc, or any other key. */
  datatype Key = Esc | OtherKey(code: nat)

  /** The flag after a batch of key presses: it is set afterwards exactly when
      it was set before and no Esc came. */
  function AfterKeys(flag: bool, keys: seq<Key>): bool {
    flag && Esc !in keys
  }

  /** The batch delivered before the i-th test of the flag. */
  function KeysAt(presses: seq<seq<Key>>, i: nat): seq<Key> {
    if i < |presses| then presses[i] else []
  }

  /** The value of the flag at its i-th test. */
  function FlagAt(flag0: bool, presses: seq<seq<Key>>, i: nat): bool
    decreases i
  {
    AfterKeys(if i == 0 then flag0 else FlagAt(flag0, presses, i - 1), KeysAt(presses, i))
  }

  /** The flag is still set at test i exactly when it started set and no Esc
      came in any batch up to and including batch i. */
  lemma {:induction false} FlagAtMeaning(flag0: bool, presses: seq<seq<Key>>, i: nat)
    ensures FlagAt(flag0, presses, i) == (flag0 && forall m :: 0 <= m <= i ==> Esc !in KeysAt(presses, m))
    decreases i
  {
    if i > 0 {
      FlagAtMeaning(flag0, presses, i - 1);
    }
  }

  /** Once the flag is cleared it stays cleared. */
  lemma {:induction false} FlagStaysCleared(flag0: bool, presses: seq<seq<Key>>, i: nat, j: nat)
    requires i <= j && !FlagAt(flag0, presses, i)
    ensures !FlagAt(flag0, presses, j)
    decreases j - i
  {
    if i < j {
      FlagStaysCleared(flag0, presses, i, j - 1);
    }
  }

  // ---------------------------------------------------------------------------
  // collect_data as a function of its inputs
  // ---------------------------------------------------------------------------

  /** What one `read_data_until()` call does: return a line, fail in pyserial,
      or be cut short by Ctrl-C. */
  datatype Read = Line(bytes: seq<byte>) | SerialFault | Interrupt

  /** The exceptions that leave `collect_data`. */
  datatype Uncaught = ParseFailure(error: Parser.ParseError) | SerialException

  /** How the loop ends: the flag was found cleared; `KeyboardInterrupt` was
      caught; an exception escaped; or the reads ran out while the flag was
      still set (the next read would block). */
  datatype Outcome = Finished | Interrupted | Crashed(exception: Uncaught) | Starved

  /** What the loop body makes of one read: keep a sample, drop a `None` line,
      let an exception escape, or catch a `KeyboardInterrupt`. */
  datatype Event = Keep(values: seq<real>) | Drop | Throw(exception: Uncaught) | CtrlC {
    predicate Ends() { Throw? || CtrlC? }
  }

  /** One read through `parse_data`; only `KeyboardInterrupt` is caught. */
  function EventOf(r: Read): (e: Event)
    ensures e.Keep? <==> r.Line? && Parser.Decode(r.bytes).Sample?
    ensures e.Keep? ==> e.values == Parser.Decode(r.bytes).values
    ensures e == Drop <==> r.Line? && Parser.Decode(r.bytes) == Parser.NoFrame
    ensures forall err :: e == Throw(ParseFailure(err)) <==> r.Line? && Parser.Decode(r.bytes) == Parser.Raises(err)
    ensures e == Throw(SerialException) <==> r == SerialFault
    ensures e == CtrlC <==> r == Interrupt
  {
    match r
    case SerialFault => Throw(SerialException)
    case Interrupt => CtrlC
    case Line(b) =>
      match Parser.Decode(b)
      case Raises(e) => Throw(ParseFailure(e))
      case NoFrame => Drop
      case Sample(v) => Keep(v)
  }

  /** The events of a sequence of reads, read by read. */
  function EventsOf(source: seq<Read>): (events: seq<Event>)
    ensures |events| == |source|
    decreases |source|
  {
    if source == [] then [] else EventsOf(source[..|source| - 1]) + [EventOf(source[|source| - 1])]
  }

  /** Event k is the event of read k. */
  lemma {:induction false} EventsOfAt(source: seq<Read>)
    ensures forall k :: 0 <= k < |source| ==> EventsOf(source)[k] == EventOf(source[k])
    decreases |source|
  {
    if source != [] {
      var init := source[..|source| - 1];
      EventsOfAt(init);
      assert forall k :: 0 <= k < |init| ==> source[k] == init[k];
    }
  }

  /** The samples kept in `acceleration_data`, the rows written, the number of
      reads started since the loop began, how the loop ended and the flag's
      final value. */
  datatype Run = Run(samples: seq<seq<real>>, rows: seq<seq<real>>, readCount: nat, outcome: Outcome, flag: bool)

  /** Samples and rows that came before the rest of a run. */
  function Ahead(samples: seq<seq<real>>, rows: seq<seq<real>>, rest: Run): Run {
    rest.(samples := samples + rest.samples, rows := rows + rest.rows)
  }

  /** The loop from its i-th test of the flag, which finds `flag`, after i reads. */
  function LoopFrom(flag: bool, events: seq<Event>, presses: seq<seq<Key>>, writer: bool, i: nat): (r: Run)
    requires i <= |events|
    ensures i <= r.readCount <= |events|
    decreases |events| - i
  {
    if !flag then Run([], [], i, Finished, flag)
    else if i == |events| then Run([], [], i, Starved, flag)
    else
      match events[i]
      case Throw(x) => Run([], [], i + 1, Crashed(x), flag)
      case CtrlC => Run([], [], i + 1, Interrupted, flag)
      case Drop => LoopFrom(AfterKeys(flag, KeysAt(presses, i + 1)), events, presses, writer, i + 1)
      case Keep(v) =>
        Ahead([v], if writer then [v] else [], LoopFrom(AfterKeys(flag, KeysAt(presses, i + 1)), events, presses, writer, i + 1))
  }

  /** `collect_data` started with the flag at `flag0`. */
  function Collect(flag0: bool, source: seq<Read>, presses: seq<seq<Key>>, writer: bool): Run {
    LoopFrom(AfterKeys(flag0, KeysAt(presses, 0)), EventsOf(source), presses, writer, 0)
  }

  /** The samples of events lo up to hi, in order. */
  function Harvest(events: seq<Event>, lo: nat, hi: nat): seq<seq<real>>
    requires lo <= hi <= |events|
    decreases hi - lo
  {
    if lo == hi then []
    else (if events[lo].Keep? then [events[lo].values] else []) + Harvest(events, lo + 1, hi)
  }

  // ---------------------------------------------------------------------------
  // Properties of the loop
  // ---------------------------------------------------------------------------

  /** One pass that keeps or drops its read hands over to the next test. */
  lemma LoopContinues(flag: bool, events: seq<Event>, presses: seq<seq<Key>>, writer: bool, i: nat)
    requires flag && i < |events| && !events[i].Ends()
    ensures var r := LoopFrom(flag, events, presses, writer, i);
      var next := LoopFrom(AfterKeys(flag, KeysAt(presses, i + 1)), events, presses, writer, i + 1);
      var kept := if events[i].Keep? then [events[i].values] else [];
      && r.samples == kept + next.samples
      && r.rows == (if writer then kept else []) + next.rows
      && r.readCount == next.readCount && r.outcome == next.outcome && r.flag == next.flag
  {
    var next := LoopFrom(AfterKeys(flag, KeysAt(presses, i + 1)), events, presses, writer, i + 1);
    if events[i] == Drop {
      assert [] + next.samples == next.samples;
      assert [] + next.rows == next.rows;
    } else if !writer {
      assert [] + next.rows == next.rows;
    }
  }

  /** The samples are exactly those of the events read, in read order; there are
      no more of them than reads; rows are written for all of them when a writer
      exists and for none otherwise. */
  lemma {:induction false} LoopKeepsReadOrder(flag: bool, events: seq<Event>, presses: seq<seq<Key>>, writer: bool, i: nat)
    requires i <= |events|
    ensures var r := LoopFrom(flag, events, presses, writer, i);
      && |r.samples| <= r.readCount - i
      && r.samples == Harvest(events, i, r.readCount)
      && r.rows == if writer then r.samples else []
    decreases |events| - i
  {
    if flag && i < |events| && !events[i].Ends() {
      var f' := AfterKeys(flag, KeysAt(presses, i + 1));
      LoopKeepsReadOrder(f', events, presses, writer, i + 1);
      LoopContinues(flag, events, presses, writer, i);
    }
  }

  /** The flag is tested, and found set, before every read. */
  lemma {:induction false} LoopTestsFlagFirst(flag0: bool, events: seq<Event>, presses: seq<seq<Key>>, writer: bool, i: nat)
    requires i <= |events|
    ensures var r := LoopFrom(FlagAt(flag0, presses, i), events, presses, writer, i);
      forall j :: i <= j < r.readCount ==> FlagAt(flag0, presses, j)
    decreases |events| - i
  {
    var flag := FlagAt(flag0, presses, i);
    if flag && i < |events| && !events[i].Ends() {
      assert FlagAt(flag0, presses, i + 1) == AfterKeys(flag, KeysAt(presses, i + 1));
      LoopTestsFlagFirst(flag0, events, presses, writer, i + 1);
      LoopContinues(flag, events, presses, writer, i);
    }
  }

  /** The loop finishes normally only by finding the flag cleared, and runs out
      of reads only with the flag still set. */
  lemma {:induction false} LoopOutcomeFlag(flag0: bool, events: seq<Event>, presses: seq<seq<Key>>, writer: bool, i: nat)
    requires i <= |events|
    ensures var r := LoopFrom(FlagAt(flag0, presses, i), events, presses, writer, i);
      && (r.outcome == Finished ==> !FlagAt(flag0, presses, r.readCount))
      && (r.outcome == Starved ==> r.readCount == |events| && FlagAt(flag0, presses, r.readCount))
    decreases |events| - i
  {
    var flag := FlagAt(flag0, presses, i);
    if flag && i < |events| && !events[i].Ends() {
      assert FlagAt(flag0, presses, i + 1) == AfterKeys(flag, KeysAt(presses, i + 1));
      LoopOutcomeFlag(flag0, events, presses, writer, i + 1);
      LoopContinues(flag, events, presses, writer, i);
    }
  }

  /** Only the last read can end the loop: every earlier one was kept or
      dropped, and an error or interrupt outcome is the event of that last read. */
  lemma {:induction false} LoopEndsAtLastRead(flag: bool, events: seq<Event>, presses: seq<seq<Key>>, writer: bool, i: nat)
    requires i <= |events|
    ensures var r := LoopFrom(flag, events, presses, writer, i);
      && (forall j :: i <= j < r.readCount - 1 ==> !events[j].Ends())
      && (r.outcome.Crashed? ==> r.readCount > i && events[r.readCount - 1] == Throw(r.outcome.exception))
      && (r.outcome == Interrupted ==> r.readCount > i && events[r.readCount - 1] == CtrlC)
      && (r.outcome == Finished || r.outcome == Starved ==>
            forall j :: i <= j < r.readCount ==> !events[j].Ends())
    decreases |events| - i
  {
    if flag && i < |events| && !events[i].Ends() {
      LoopEndsAtLastRead(AfterKeys(flag, KeysAt(presses, i + 1)), events, presses, writer, i + 1);
      LoopContinues(flag, events, presses, writer, i);
    }
  }

  /** An Esc delivered before the k-th test, with no read before it ending the
      loop, makes the loop finish normally after at most k reads. */
  lemma {:induction false} LoopStopsAtEsc(flag: bool, events: seq<Event>, presses: seq<seq<Key>>, writer: bool, i: nat, k: nat)
    requires i <= k <= |events|
    requires Esc in KeysAt(presses, k) && (i == k ==> !flag)
    requires forall j :: i <= j < k ==> !events[j].Ends()
    ensures var r := LoopFrom(flag, events, presses, writer, i);
      r.outcome == Finished && r.readCount <= k
    decreases k - i
  {
    if flag {
      LoopStopsAtEsc(AfterKeys(flag, KeysAt(presses, i + 1)), events, presses, writer, i + 1, k);
      LoopContinues(flag, events, presses, writer, i);
    }
  }

  /** With no read ending the loop and the flag set at every test, the loop
      reads every event and ends because the reads ran out. */
  lemma {:induction false} LoopReadsAll(flag: bool, events: seq<Event>, presses: seq<seq<Key>>, writer: bool, i: nat)
    requires i <= |events|
    requires forall j :: i <= j < |events| ==> !events[j].Ends()
    requires forall j :: 0 <= j < |presses| ==> Esc !in presses[j]
    requires flag
    ensures var r := LoopFrom(flag, events, presses, writer, i);
      r.outcome == Starved && r.readCount == |events|
    decreases |events| - i
  {
    if i < |events| {
      assert Esc !in KeysAt(presses, i + 1);
      LoopReadsAll(AfterKeys(flag, KeysAt(presses, i + 1)), events, presses, writer, i + 1);
      LoopContinues(flag, events, presses, writer, i);
    }
  }

  /** The whole of `collect_data`, in terms of its inputs: the samples are those
      of the reads, in read order, one per line that decodes to a sample; rows
      are written for all of them when a writer exists and for none otherwise;
      the flag was found set before every read; and a normal finish means the
      flag was found cleared. */
  lemma CollectProperties(flag0: bool, source: seq<Read>, presses: seq<seq<Key>>, writer: bool)
    ensures var r := Collect(flag0, source, presses, writer);
      && r.readCount <= |source|
      && |r.samples| <= r.readCount
      && r.samples == Harvest(EventsOf(source), 0, r.readCount)
      && r.rows == (if writer then r.samples else [])
      && (forall j :: 0 <= j < r.readCount ==> FlagAt(flag0, presses, j))
      && (r.outcome == Finished ==> !FlagAt(flag0, presses, r.readCount))
  {
    var events := EventsOf(source);
    var flag := AfterKeys(flag0, KeysAt(presses, 0));
    assert flag == FlagAt(flag0, presses, 0);
    LoopKeepsReadOrder(flag, events, presses, writer, 0);
    LoopTestsFlagFirst(flag0, events, presses, writer, 0);
    LoopOutcomeFlag(flag0, events, presses, writer, 0);
  }

  /** A read the loop survives: a line that decodes to a sample or to `None`. */
  predicate Survivable(r: Read) {
    r.Line? && !Parser.Decode(r.bytes).Raises?
  }

  /** Every read but the last was survivable, and so was the last one unless an
      exception left the loop or Ctrl-C stopped it; the exception that escapes
      is the one the last read raised. */
  lemma CollectEndsAtLastRead(flag0: bool, source: seq<Read>, presses: seq<seq<Key>>, writer: bool)
    ensures var r := Collect(flag0, source, presses, writer);
      && r.readCount <= |source|
      && (r.outcome.Crashed? || r.outcome == Interrupted ==> r.readCount >= 1)
      && (forall j :: 0 <= j < r.readCount - 1 ==> Survivable(source[j]))
      && (r.outcome == Finished || r.outcome == Starved ==> forall j :: 0 <= j < r.readCount ==> Survivable(source[j]))
      && (forall e :: r.outcome == Crashed(ParseFailure(e)) ==>
            source[r.readCount - 1].Line? && Parser.Decode(source[r.readCount - 1].bytes) == Parser.Raises(e))
      && (r.outcome == Crashed(SerialException) ==> source[r.readCount - 1] == SerialFault)
      && (r.outcome == Interrupted ==> source[r.readCount - 1] == Interrupt)
  {
    var events := EventsOf(source);
    LoopEndsAtLastRead(AfterKeys(flag0, KeysAt(presses, 0)), events, presses, writer, 0);
    EventsOfAt(source);
  }

  /** With no Esc and every read a survivable line, the loop reads the whole
      source, keeps every sample in order, and ends only because the reads ran
      out. */
  lemma AllSurvivableReadsCollected(source: seq<Read>, presses: seq<seq<Key>>, writer: bool)
    requires forall j :: 0 <= j < |source| ==> Survivable(source[j])
    requires forall j :: 0 <= j < |presses| ==> Esc !in presses[j]
    ensures var r := Collect(true, source, presses, writer);
      r.readCount == |source| && r.samples == Harvest(EventsOf(source), 0, |source|) && r.outcome == Starved
  {
    var events := EventsOf(source);
    EventsOfAt(source);
    assert forall j :: 0 <= j < |events| ==> !events[j].Ends();
    assert Esc !in KeysAt(presses, 0);
    LoopReadsAll(AfterKeys(true, KeysAt(presses, 0)), events, presses, writer, 0);
    CollectProperties(true, source, presses, writer);
  }

  /** An Esc delivered before test k, with the reads before it survivable,
      makes `collect_data` finish normally after at most k reads. */
  lemma EscStopsCollection(flag0: bool, source: seq<Read>, presses: seq<seq<Key>>, writer: bool, k: nat)
    requires k <= |source|
    requires Esc in KeysAt(presses, k)
    requires forall j :: 0 <= j < k ==> Survivable(source[j])
    ensures var r := Collect(flag0, source, presses, writer);
      r.outcome == Finished && r.readCount <= k
  {
    var events := EventsOf(source);
    EventsOfAt(source);
    assert forall j :: 0 <= j < k ==> !events[j].Ends();
    LoopStopsAtEsc(AfterKeys(flag0, KeysAt(presses, 0)), events, presses, writer, 0, k);
  }

  /** Three lines, a sample, an unmarked line and another sample, with no Esc:
      exactly the two samples reach `acceleration_data`, in order. */
  lemma TwoSamplesAroundUnmarkedLine(a: seq<byte>, b: seq<byte>, c: seq<byte>)
    requires Parser.Decode(a).Sample? && Parser.Decode(b) == Parser.NoFrame && Parser.Decode(c).Sample?
    ensures Collect(true, [Line(a), Line(b), Line(c)], [], false).samples
            == [Parser.Decode(a).values, Parser.Decode(c).values]
  {
    var source := [Line(a), Line(b), Line(c)];
    AllSurvivableReadsCollected(source, [], false);
    var events := EventsOf(source);
    EventsOfAt(source);
    var va, vc := Parser.Decode(a).values, Parser.Decode(c).values;
    assert events == [Keep(va), Drop, Keep(vc)];
    assert Harvest(events, 2, 3) == [vc];
    assert Harvest(events, 1, 3) == [vc];
  }

  // ---------------------------------------------------------------------------
  // The program's state and collect_data as it runs
  // ---------------------------------------------------------------------------

  /** The module-level state of `main.py` that the loop and the listener share. */
  class DataCollector {
    /** The global `data_collect`. */
    var dataCollect: bool

    constructor ()
      ensures dataCollect
    {
      dataCollect := true;
    }

    /** `on_press`: Esc clears the flag, any other key leaves it alone. */
    method OnPress(key: Key)
      modifies this
      ensures key == Esc ==> !dataCollect
      ensures key != Esc ==> dataCollect == old(dataCollect)
    {
      if key == Esc {
        dataCollect := false;
      }
    }

    /** The listener delivering a batch of key presses, in order. */
    method DeliverKeys(keys: seq<Key>)
      modifies this
      ensures dataCollect == AfterKeys(old(dataCollect), keys)
    {
      var i := 0;
      while i < |keys|
        invariant 0 <= i <= |keys|
        invariant dataCollect == AfterKeys(old(dataCollect), keys[..i])
      {
        assert keys[..i + 1] == keys[..i] + [keys[i]];
        OnPress(keys[i]);
        i := i + 1;
      }
    }

    /** `collect_data`. `accelerationData` is the list the loop appends to,
        `rows` what the CSV writer receives (each row produced by iterating the
        sample), `readCount` the number of reads started. */
    method CollectData(source: seq<Read>, presses: seq<seq<Key>>, writer: bool, log: bool)
      returns (outcome: Outcome, accelerationData: seq<Samples.AccelerometerData>, rows: seq<seq<real>>, readCount: nat)
      modifies this
      ensures Run(Contents(accelerationData), rows, readCount, outcome, dataCollect)
              == Collect(old(dataCollect), source, presses, writer)
    {
      ghost var events := EventsOf(source);
      ghost var whole := Collect(dataCollect, source, presses, writer);
      accelerationData, rows := [], [];
      DeliverKeys(KeysAt(presses, 0));
      var i := 0;
      while dataCollect
        invariant 0 <= i <= |source|
        invariant whole == Ahead(Contents(accelerationData), rows, LoopFrom(dataCollect, events, presses, writer, i))
        decreases |source| - i
      {
        if i == |source| {
          AheadEnds(Contents(accelerationData), rows, dataCollect, events, presses, writer, i);
          return Starved, accelerationData, rows, i;
        }
        ghost var samples0, rows0 := Contents(accelerationData), rows;
        var event;
        event, accelerationData, rows := Pass(source, i, log, writer, accelerationData, rows);
        match event {
          case Throw(x) =>
            AheadEnds(samples0, rows0, dataCollect, events, presses, writer, i);
            return Crashed(x), accelerationData, rows, i + 1;
          case CtrlC =>
            AheadEnds(samples0, rows0, dataCollect, events, presses, writer, i);
            return Interrupted, accelerationData, rows, i + 1;
          case Drop =>
            AheadDrop(samples0, rows0, dataCollect, events, presses, writer, i);
          case Keep(v) =>
            AheadKeep(samples0, rows0, dataCollect, events, presses, writer, i);
        }
        ghost var next := AfterKeys(dataCollect, KeysAt(presses, i + 1));
        i := i + 1;
        DeliverKeys(KeysAt(presses, i));
        assert dataCollect == next;
      }
      AheadEnds(Contents(accelerationData), rows, dataCollect, events, presses, writer, i);
      readCount := i;
      outcome := Finished;
    }
  }

  /** The six values held by each sample of a list, in list order. */
  function Contents(samples: seq<Samples.AccelerometerData>): (values: seq<seq<real>>)
    ensures |values| == |samples|
  {
    seq(|samples|, k requires 0 <= k < |samples| => samples[k].data)
  }

  /** The body of the `try` for one read: read a line, parse it, and keep the
      sample (a parsed sample is always truthy), writing its row when a writer
      exists. An error or interrupt leaves the list and the rows as they were. */
  method Pass(source: seq<Read>, i: nat, log: bool, writer: bool, accelerationData: seq<Samples.AccelerometerData>, rows: seq<seq<real>>)
    returns (event: Event, accelerationData': seq<Samples.AccelerometerData>, rows': seq<seq<real>>)
    requires i < |source|
    ensures event == EventsOf(source)[i]
    ensures !event.Keep? ==> accelerationData' == accelerationData && rows' == rows
    ensures event.Keep? ==>
      && |accelerationData'| == |accelerationData| + 1
      && accelerationData'[..|accelerationData|] == accelerationData
      && Contents(accelerationData') == Contents(accelerationData) + [event.values]
      && rows' == if writer then rows + [event.values] else rows
  {
    EventsOfAt(source);
    accelerationData', rows' := accelerationData, rows;
    match source[i] {
      case SerialFault =>
        event := Throw(SerialException);
      case Interrupt =>
        event := CtrlC;
      case Line(b) =>
        var parsed, _ := Parser.ParseData(b, log);
        match parsed {
          case Raised(e) =>
            event := Throw(ParseFailure(e));
          case NoneValue =>
            event := Drop;
          case Data(sample) =>
            event := Keep(sample.data);
            accelerationData' := accelerationData + [sample];
            assert Contents(accelerationData') == Contents(accelerationData) + [sample.data];
            if writer {
              var row := Samples.IterateAll(sample);
              rows' := rows + [row];
            }
        }
    }
  }

  /** A loop pass that drops its line hands over to the next test. */
  lemma AheadDrop(samples: seq<seq<real>>, rows: seq<seq<real>>, flag: bool, events: seq<Event>,
                  presses: seq<seq<Key>>, writer: bool, i: nat)
    requires flag && i < |events| && events[i] == Drop
    ensures Ahead(samples, rows, LoopFrom(flag, events, presses, writer, i))
            == Ahead(samples, rows, LoopFrom(AfterKeys(flag, KeysAt(presses, i + 1)), events, presses, writer, i + 1))
  {
  }

  /** A loop pass that keeps a sample moves it and its row into the prefix. */
  lemma AheadKeep(samples: seq<seq<real>>, rows: seq<seq<real>>, flag: bool, events: seq<Event>,
                  presses: seq<seq<Key>>, writer: bool, i: nat)
    requires flag && i < |events| && events[i].Keep?
    ensures Ahead(samples, rows, LoopFrom(flag, events, presses, writer, i))
            == Ahead(samples + [events[i].values], if writer then rows + [events[i].values] else rows,
                     LoopFrom(AfterKeys(flag, KeysAt(presses, i + 1)), events, presses, writer, i + 1))
  {
    var next := LoopFrom(AfterKeys(flag, KeysAt(presses, i + 1)), events, presses, writer, i + 1);
    var v := events[i].values;
    assert samples + ([v] + next.samples) == samples + [v] + next.samples;
    if writer {
      assert rows + ([v] + next.rows) == rows + [v] + next.rows;
    } else {
      assert [] + next.rows == next.rows;
    }
  }

  /** A loop pass that stops leaves the prefix as the whole result. */
  lemma AheadEnds(samples: seq<seq<real>>, rows: seq<seq<real>>, flag: bool, events: seq<Event>,
                  presses: seq<seq<Key>>, writer: bool, i: nat)
    requires i <= |events|
    requires !flag || i == |events| || events[i].Ends()
    ensures var r := Ahead(samples, rows, LoopFrom(flag, events, presses, writer, i));
      && r.samples == samples && r.rows == rows && r.flag == flag
      && r.readCount == (if !flag || i == |events| then i else i + 1)
      && r.outcome == (if !flag then Finished else if i == |events| then Starved
                       else if events[i].CtrlC? then Interrupted else Crashed(events[i].exception))
  {
    assert samples + [] == samples;
    assert rows + [] == rows;
  }
}
