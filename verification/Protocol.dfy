// The service lifecycle: the native transition table, the verifier and whole-run properties.
module Protocol {
  import opened Options
  import opened Bytes

  datatype Phase = Cold | Started | Authenticated | Bound | Ready

  datatype Event = Start | Authenticate | Bind | BecomeReady | Reset

  datatype Violation = Violation(previous: Phase, event: Event)

  function PhaseCode(p: Phase): int {
    match p case Cold => 0 case Started => 1 case Authenticated => 2 case Bound => 3 case Ready => 4
  }

  function EventCode(e: Event): int {
    match e case Start => 0 case Authenticate => 1 case Bind => 2 case BecomeReady => 3 case Reset => 4
  }

  function PhaseFromCode(value: int): Option<Phase> {
    if value == 0 then Some(Cold)
    else if value == 1 then Some(Started)
    else if value == 2 then Some(Authenticated)
    else if value == 3 then Some(Bound)
    else if value == 4 then Some(Ready)
    else None
  }

  /** The native step over all integers. */
  function ProtocolStep(phase: int, event: int): int {
    if event == 4 then 0 else if 0 <= phase <= 3 && event == phase then phase + 1 else -1
  }

  /** The typed transition table of the specification. */
  function Next(p: Phase, e: Event): Option<Phase> {
    match (p, e)
    case (_, Reset) => Some(Cold)
    case (Cold, Start) => Some(Started)
    case (Started, Authenticate) => Some(Authenticated)
    case (Authenticated, Bind) => Some(Bound)
    case (Bound, BecomeReady) => Some(Ready)
    case (_, _) => None
  }

  /** The native table and the typed one agree on every phase and event. */
  lemma NativeTableAgrees(p: Phase, e: Event)
    ensures PhaseFromCode(ProtocolStep(PhaseCode(p), EventCode(e))) == Next(p, e)
  {
  }

  /** The accepted steps: one event in each of the first four phases, and a reset anywhere. */
  lemma NextIff(p: Phase, e: Event, q: Phase)
    ensures Next(p, e) == Some(q) <==>
      || (e == Reset && q == Cold)
      || (p, e, q) in {
        (Cold, Start, Started), (Started, Authenticate, Authenticated), (Authenticated, Bind, Bound),
        (Bound, BecomeReady, Ready)}
  {
  }

  /** The native table on all integers. */
  lemma NativeStep(phase: int, event: int)
    ensures event == 4 ==> ProtocolStep(phase, event) == 0
    ensures event != 4 && phase == event && phase in {0, 1, 2, 3} ==> ProtocolStep(phase, event) == phase + 1
    ensures event != 4 && !(phase == event && phase in {0, 1, 2, 3}) ==> ProtocolStep(phase, event) == -1
  {
  }

  const WORDS: seq<(seq<Byte>, Event)> := [
    ("authenticate", Authenticate), ("authenticated", Authenticate), ("ready", BecomeReady),
    ("reset", Reset), ("start", Start), ("bind", Bind)]

  /** The event of the first listed word that occurs in the line. */
  function FirstEvent(line: seq<Byte>, words: seq<(seq<Byte>, Event)>): Option<Event> {
    if words == [] then None
    else if FindIgnoringCase(line, words[0].0).Some? then Some(words[0].1)
    else FirstEvent(line, words[1..])
  }

  function DetectEvent(line: seq<Byte>): Option<Event> { FirstEvent(line, WORDS) }

  lemma {:induction false} FirstEventWhere(line: seq<Byte>, words: seq<(seq<Byte>, Event)>, k: nat)
    requires k <= |words|
    requires forall j | 0 <= j < k :: !Occurs(line, words[j].0)
    ensures FirstEvent(line, words) == FirstEvent(line, words[k..])
    ensures k < |words| && Occurs(line, words[k].0) ==> FirstEvent(line, words) == Some(words[k].1)
  {
    if k > 0 {
      assert !Occurs(line, words[0].0);
      FirstEventWhere(line, words[1..], k - 1);
      assert words[1..][k - 1..] == words[k..];
    } else {
      assert words[0..] == words;
    }
  }

  /**
   * Which of the five words decide the event of a line: each takes precedence over those after it,
   * "authenticated" adds nothing to "authenticate", and a line without any of them carries no event.
   */
  lemma EventPrecedence(line: seq<Byte>)
    ensures DetectEvent(line).None? <==>
      !Occurs(line, "authenticate") && !Occurs(line, "ready") && !Occurs(line, "reset")
      && !Occurs(line, "start") && !Occurs(line, "bind")
    ensures DetectEvent(line) == Some(Authenticate) <==> Occurs(line, "authenticate")
    ensures DetectEvent(line) == Some(BecomeReady) <==> Occurs(line, "ready") && !Occurs(line, "authenticate")
    ensures DetectEvent(line) == Some(Reset) <==>
      Occurs(line, "reset") && !Occurs(line, "authenticate") && !Occurs(line, "ready")
    ensures DetectEvent(line) == Some(Start) <==>
      Occurs(line, "start") && !Occurs(line, "authenticate") && !Occurs(line, "ready") && !Occurs(line, "reset")
    ensures DetectEvent(line) == Some(Bind) <==>
      && Occurs(line, "bind") && !Occurs(line, "authenticate") && !Occurs(line, "ready")
      && !Occurs(line, "reset") && !Occurs(line, "start")
  {
    hide Occurs, FirstEvent;
    if Occurs(line, "authenticated") { LongerWord(line); }
    FirstEventWhere(line, WORDS, 0);
    if !Occurs(line, WORDS[0].0) {
      FirstEventWhere(line, WORDS, 1);
      FirstEventWhere(line, WORDS, 2);
      if !Occurs(line, WORDS[2].0) {
        FirstEventWhere(line, WORDS, 3);
        if !Occurs(line, WORDS[3].0) {
          FirstEventWhere(line, WORDS, 4);
          if !Occurs(line, WORDS[4].0) {
            FirstEventWhere(line, WORDS, 5);
            if !Occurs(line, WORDS[5].0) {
              FirstEventWhere(line, WORDS, 6);
              NoWordsNoEvent(line, WORDS[6..]);
            }
          }
        }
      }
    }
  }

  lemma NoWordsNoEvent(line: seq<Byte>, words: seq<(seq<Byte>, Event)>)
    requires words == []
    ensures FirstEvent(line, words) == None
  {
  }

  lemma LongerWord(line: seq<Byte>)
    requires Occurs(line, "authenticated")
    ensures Occurs(line, "authenticate")
  {
    var longer: seq<Byte>, shorter: seq<Byte> := "authenticated", "authenticate";
    var i: nat :| i <= |line| && OccursAt(line, longer, i);
    forall j | 0 <= j < |shorter| ensures ToLower(line[i + j]) == ToLower(shorter[j]) {
      assert longer[j] == shorter[j];
    }
    assert OccursAt(line, shorter, i);
  }

  // ----- Runs -----

  function StepLine(p: Phase, line: seq<Byte>): Phase {
    match DetectEvent(line)
    case None => p
    case Some(e) => Next(p, e).GetOr(p)
  }

  /** Phase after a sequence of lines. */
  function RunFrom(p: Phase, lines: seq<seq<Byte>>): Phase {
    if lines == [] then p else StepLine(RunFrom(p, lines[..|lines| - 1]), lines[|lines| - 1])
  }

  predicate Accepts(p: Phase, line: seq<Byte>) {
    DetectEvent(line).Some? && Next(p, DetectEvent(line).value).Some?
  }

  /** Accepted events so far. */
  function AcceptedEvents(p: Phase, lines: seq<seq<Byte>>): seq<Event> {
    if lines == [] then []
    else
      var n := |lines| - 1;
      var earlier := AcceptedEvents(p, lines[..n]);
      if Accepts(RunFrom(p, lines[..n]), lines[n]) then earlier + [DetectEvent(lines[n]).value] else earlier
  }

  /** The part of an event sequence after its last Reset. */
  function SinceReset(events: seq<Event>): seq<Event> {
    if events == [] then []
    else if events[|events| - 1] == Reset then []
    else SinceReset(events[..|events| - 1]) + [events[|events| - 1]]
  }

  /** What counts since the last reset: everything after it, or everything when there is none. */
  lemma {:induction false} SinceResetIs(before: seq<Event>, after: seq<Event>)
    requires Reset !in after
    ensures SinceReset(before + [Reset] + after) == after && SinceReset(after) == after
  {
    if after == [] {
      assert before + [Reset] + after == before + [Reset];
    } else {
      var n := |after| - 1;
      SinceResetIs(before, after[..n]);
      assert (before + [Reset] + after)[..|before| + 1 + n] == before + [Reset] + after[..n];
      assert after[n] in after;
    }
  }

  /** Each accepted line contributes its event, in order, and moves the phase; other lines do neither. */
  lemma RunStep(p: Phase, lines: seq<seq<Byte>>, line: seq<Byte>)
    ensures RunFrom(p, []) == p && AcceptedEvents(p, []) == []
    ensures var event, phase := DetectEvent(line), RunFrom(p, lines);
      if event.Some? && Next(phase, event.value).Some? then
        && RunFrom(p, lines + [line]) == Next(phase, event.value).value
        && AcceptedEvents(p, lines + [line]) == AcceptedEvents(p, lines) + [event.value]
      else
        RunFrom(p, lines + [line]) == phase && AcceptedEvents(p, lines + [line]) == AcceptedEvents(p, lines)
  {
    hide DetectEvent;
    assert (lines + [line])[..|lines|] == lines;
  }

  const LIFECYCLE: seq<Event> := [Start, Authenticate, Bind, BecomeReady]

  /** The stages behind each phase. */
  lemma StagesOf(p: Phase)
    ensures LIFECYCLE[..PhaseCode(p)] ==
      match p
      case Cold => []
      case Started => [Start]
      case Authenticated => [Start, Authenticate]
      case Bound => [Start, Authenticate, Bind]
      case Ready => [Start, Authenticate, Bind, BecomeReady]
  {
  }

  lemma SinceResetStep(events: seq<Event>, e: Event)
    ensures SinceReset(events + [e]) == if e == Reset then [] else SinceReset(events) + [e]
  {
    assert (events + [e])[..|events|] == events;
  }

  /** Being in phase k means that the events since the last Reset are exactly the first k of the lifecycle. */
  lemma {:induction false} PhaseRecordsHistory(lines: seq<seq<Byte>>)
    ensures SinceReset(AcceptedEvents(Cold, lines)) == LIFECYCLE[..PhaseCode(RunFrom(Cold, lines))]
  {
    hide DetectEvent, SinceReset, PhaseCode;
    if lines == [] {
      EmptyHistory();
    } else {
      var n := |lines| - 1;
      var p := RunFrom(Cold, lines[..n]);
      PhaseRecordsHistory(lines[..n]);
      if Accepts(p, lines[n]) {
        HistoryStep(AcceptedEvents(Cold, lines[..n]), p, DetectEvent(lines[n]).value);
      }
    }
  }

  lemma EmptyHistory()
    ensures SinceReset([]) == LIFECYCLE[..PhaseCode(Cold)]
  {
  }

  /** An accepted event extends the history by the next stage, or a Reset empties it. */
  lemma HistoryStep(events: seq<Event>, p: Phase, e: Event)
    requires SinceReset(events) == LIFECYCLE[..PhaseCode(p)] && Next(p, e).Some?
    ensures SinceReset(events + [e]) == LIFECYCLE[..PhaseCode(Next(p, e).value)]
  {
    SinceResetStep(events, e);
    if e != Reset {
      assert LIFECYCLE[PhaseCode(p)] == e;
      assert LIFECYCLE[..PhaseCode(p) + 1] == LIFECYCLE[..PhaseCode(p)] + [e];
    }
  }

  /** Between two Ready acceptances there is always an accepted Reset. */
  lemma ReadyNeedsReset(lines: seq<seq<Byte>>, i: nat, j: nat)
    requires var events := AcceptedEvents(Cold, lines);
      i < j < |events| && events[i] == BecomeReady && events[j] == BecomeReady
    ensures var events := AcceptedEvents(Cold, lines);
      exists k | i < k < j :: events[k] == Reset
  {
    var events := AcceptedEvents(Cold, lines);
    var m := LinesFor(lines, j);
    PhaseRecordsHistory(lines[..m]);
    if forall k | i < k < j :: events[k] != Reset {
      ReadyStays(events, i, j);
    }
  }

  /** A prefix of lines that accepted exactly the first j + 1 events. */
  lemma {:induction false} LinesFor(lines: seq<seq<Byte>>, j: nat) returns (m: nat)
    requires j < |AcceptedEvents(Cold, lines)|
    ensures m <= |lines| && AcceptedEvents(Cold, lines[..m]) == AcceptedEvents(Cold, lines)[..j + 1]
  {
    var n := |lines| - 1;
    if |AcceptedEvents(Cold, lines)| == j + 1 {
      assert lines[..|lines|] == lines;
      m := |lines|;
    } else {
      m := LinesFor(lines[..n], j);
      assert lines[..n][..m] == lines[..m];
    }
  }

  /** Without a Reset after position i, the event at i is still among those since the last Reset. */
  lemma {:induction false} ReadyStays(events: seq<Event>, i: nat, j: nat)
    requires i <= j < |events| && events[i] != Reset
    requires forall k | i < k <= j :: events[k] != Reset
    ensures var s := SinceReset(events[..j + 1]);
      |s| >= j - i + 1 && forall k | i <= k <= j :: s[|s| - 1 - (j - k)] == events[k]
  {
    SinceResetStep(events[..j], events[j]);
    assert events[..j + 1] == events[..j] + [events[j]];
    if i < j { ReadyStays(events, i, j - 1); }
  }

  /** Deleting lines that are rejected or carry no event leaves every later phase unchanged. */
  lemma {:induction false} IdleLinesIrrelevant(p: Phase, before: seq<seq<Byte>>, line: seq<Byte>, after: seq<seq<Byte>>)
    requires !Accepts(RunFrom(p, before), line)
    ensures RunFrom(p, before + [line] + after) == RunFrom(p, before + after)
    ensures AcceptedEvents(p, before + [line] + after) == AcceptedEvents(p, before + after)
  {
    hide DetectEvent;
    if after == [] {
      assert (before + [line] + after)[..|before|] == before;
      assert before + after == before;
    } else {
      var n := |after| - 1;
      IdleLinesIrrelevant(p, before, line, after[..n]);
      assert (before + [line] + after)[..|before| + 1 + n] == before + [line] + after[..n];
      assert (before + after)[..|before| + n] == before + after[..n];
    }
  }

  class ProtocolVerifier {
    var phase: Phase
    /** Every line inspected so far. */
    ghost var lines: seq<seq<Byte>>

    ghost predicate Valid()
      reads this
    {
      phase == RunFrom(Cold, lines)
    }

    constructor ()
      ensures Valid() && phase == Cold && lines == []
    {
      phase := Cold;
      lines := [];
    }

    /** Reports nothing for an event-free line, and rejects an event without moving. */
    method Inspect(line: seq<Byte>) returns (r: Option<Result<Phase, Violation>>)
      requires Valid()
      modifies this
      ensures Valid() && lines == old(lines) + [line]
      ensures SinceReset(AcceptedEvents(Cold, lines)) == LIFECYCLE[..PhaseCode(phase)]
      ensures r.None? <==> DetectEvent(line).None?
      ensures r.Some? && r.value.Ok? ==>
        Next(old(phase), DetectEvent(line).value) == Some(phase) && r.value.value == phase
      ensures r.Some? && r.value.Err? ==>
        phase == old(phase) && r.value.error == Violation(phase, DetectEvent(line).value)
      ensures r.Some? ==> (r.value.Ok? <==> Accepts(old(phase), line))
    {
      hide DetectEvent, SinceReset, AcceptedEvents;
      ghost var before := lines;
      lines := lines + [line];
      assert lines[..|before|] == before;
      PhaseRecordsHistory(lines);
      var event := DetectEvent(line);
      if event.None? {
        return None;
      }
      var previous := phase;
      NativeTableAgrees(previous, event.value);
      var next := PhaseFromCode(ProtocolStep(PhaseCode(previous), EventCode(event.value)));
      if next.None? {
        return Some(Err(Violation(previous, event.value)));
      }
      phase := next.value;
      r := Some(Ok(next.value));
    }
  }
}
