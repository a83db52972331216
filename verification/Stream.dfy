// The main loop: colouring a whole stream record by record.
module Stream {
  import opened Options
  import opened Bytes
  import opened SeverityModel
  import opened Parser
  import opened Terminal
  import opened Renderer
  import opened Records
  import opened Windows
  import opened Analytics
  import opened Entropy
  import opened Protocol

  function StripSuffix(s: seq<Byte>, b: Byte): seq<Byte> {
    if s != [] && s[|s| - 1] == b then s[..|s| - 1] else s
  }

  /** A record without its line ending: one newline, then one carriage return. */
  function Payload(record: seq<Byte>): seq<Byte> {
    StripSuffix(StripSuffix(record, '\n'), '\r')
  }

  function Ending(record: seq<Byte>): seq<Byte> {
    if record != [] && record[|record| - 1] == '\n' then "\n" else ""
  }

  /** What an uncoloured record becomes. */
  function PlainLine(record: seq<Byte>): seq<Byte> { Payload(record) + Ending(record) }

  function PlainLines(records: seq<seq<Byte>>): seq<Byte> {
    if records == [] then [] else PlainLines(records[..|records| - 1]) + PlainLine(records[|records| - 1])
  }

  /** At most a mebibyte, the newline included. */
  ghost predicate Fits(record: seq<Byte>): (r: bool)
    ensures r <==> |record| < 1048577
  {
    |record| <= MAXIMUM_RECORD_BYTES
  }

  // ----- What the uncoloured stream is -----

  /** The stream without the carriage returns that precede a newline or the end. */
  function WithoutCr(s: seq<Byte>): seq<Byte> {
    if s == [] then []
    else if s[0] == '\r' && (|s| == 1 || s[1] == '\n') then WithoutCr(s[1..])
    else [s[0]] + WithoutCr(s[1..])
  }

  lemma {:induction false} WithoutCrLast(s: seq<Byte>)
    requires '\n' !in s
    ensures WithoutCr(s) == StripSuffix(s, '\r')
  {
    if s != [] {
      assert s[0] in s;
      if |s| > 1 {
        assert s[1] in s;
        WithoutCrLast(s[1..]);
        assert StripSuffix(s, '\r') == [s[0]] + StripSuffix(s[1..], '\r');
      } else {
        assert s[1..] == [];
      }
    }
  }

  lemma {:induction false} WithoutCrLine(text: seq<Byte>, rest: seq<Byte>)
    requires '\n' !in text
    ensures WithoutCr(text + "\n" + rest) == StripSuffix(text, '\r') + "\n" + WithoutCr(rest)
  {
    var whole := text + "\n" + rest;
    if text == [] {
      assert whole == "\n" + rest && whole[1..] == rest;
    } else {
      assert text[0] in text;
      assert whole[1..] == text[1..] + "\n" + rest;
      WithoutCrLine(text[1..], rest);
      if |text| > 1 {
        assert text[1] in text;
        assert whole[1] == text[1];
        assert StripSuffix(text, '\r') == [text[0]] + StripSuffix(text[1..], '\r');
      } else {
        assert whole[1] == '\n';
        assert text[1..] == [];
      }
    }
  }

  lemma {:induction false} PlainLinesPrepend(record: seq<Byte>, records: seq<seq<Byte>>)
    ensures PlainLines([record] + records) == PlainLine(record) + PlainLines(records)
  {
    hide PlainLine;
    var all := [record] + records;
    if records == [] {
      assert all[..0] == [];
    } else {
      var n := |records| - 1;
      assert all[..|all| - 1] == [record] + records[..n];
      PlainLinesPrepend(record, records[..n]);
    }
  }

  /** Uncoloured, the stream passes unchanged except for carriage returns at line ends. */
  lemma {:induction false} PlainStream(s: seq<Byte>)
    ensures PlainLines(Split(s)) == WithoutCr(s)
  {
    hide RecordLength;
    if s != [] {
      var n := RecordLength(s);
      var record, rest := s[..n], s[n..];
      assert Split(s) == [record] + Split(rest);
      PlainLinesPrepend(record, Split(rest));
      PlainStream(rest);
      PlainRecord(s, n);
    }
  }

  lemma PlainRecord(s: seq<Byte>, n: nat)
    requires s != [] && 0 < n <= |s| && IsRecordEnd(s, n)
    ensures WithoutCr(s) == PlainLine(s[..n]) + WithoutCr(s[n..])
  {
    hide WithoutCr, PlainLine;
    var rest := s[n..];
    if s[n - 1] == '\n' {
      var text := s[..n - 1];
      assert s[..n] == text + "\n" && s == text + "\n" + rest;
      PlainLineEnded(text);
      WithoutCrLine(text, rest);
    } else {
      assert s[..n] == s && rest == [];
      PlainLineLast(s);
      WithoutCrLast(s);
      WithoutCrLast(rest);
    }
  }

  lemma PlainLineEnded(text: seq<Byte>)
    ensures PlainLine(text + "\n") == StripSuffix(text, '\r') + "\n"
  {
    assert StripSuffix(text + "\n", '\n') == text;
  }

  lemma PlainLineLast(s: seq<Byte>)
    requires '\n' !in s
    ensures PlainLine(s) == StripSuffix(s, '\r')
  {
    assert s != [] ==> s[|s| - 1] in s;
    assert StripSuffix(s, '\n') == s;
  }

  lemma {:induction false} WithoutCrShrinks(s: seq<Byte>)
    ensures |WithoutCr(s)| <= |s|
  {
    if s != [] { WithoutCrShrinks(s[1..]); }
  }

  /** Every carriage return is followed by a byte other than a newline. */
  ghost predicate CrOnlyWithin(s: seq<Byte>) {
    forall i | 0 <= i < |s| && s[i] == '\r' :: i + 1 < |s| && s[i + 1] != '\n'
  }

  /** A stream passes unchanged exactly when no carriage return precedes a newline or the end. */
  lemma {:induction false} WithoutCrIsIdentity(s: seq<Byte>)
    ensures WithoutCr(s) == s <==> CrOnlyWithin(s)
  {
    if s != [] {
      var rest := s[1..];
      WithoutCrIsIdentity(rest);
      WithoutCrShrinks(rest);
      assert forall i | 0 <= i < |rest| :: rest[i] == s[i + 1];
      if CrOnlyWithin(s) {
        assert CrOnlyWithin(rest) by {
          forall i | 0 <= i < |rest| && rest[i] == '\r' ensures i + 1 < |rest| && rest[i + 1] != '\n' {
            assert s[i + 1] == '\r';
          }
        }
      }
      assert s == [s[0]] + rest;
    }
  }

  /** A line that ends in carriage return and newline loses the carriage return, and only that. */
  lemma CarriageReturnGoes(text: seq<Byte>, rest: seq<Byte>)
    requires '\n' !in text && (text == [] || text[|text| - 1] != '\r')
    ensures PlainLines(Split(text + "\r\n" + rest)) == text + "\n" + PlainLines(Split(rest))
    ensures PlainLines(Split(text + "\n" + rest)) == text + "\n" + PlainLines(Split(rest))
    ensures PlainLines(Split(text + "\r")) == text == PlainLines(Split(text))
  {
    hide PlainLines, Split;
    assert (text + "\r") + "\n" + rest == text + "\r\n" + rest;
    PlainStream(text + "\r\n" + rest);
    PlainStream(text + "\n" + rest);
    PlainStream(rest);
    PlainStream(text + "\r");
    PlainStream(text);
    WithoutCrLine(text + "\r", rest);
    WithoutCrLine(text, rest);
    WithoutCrLast(text + "\r");
    WithoutCrLast(text);
    assert StripSuffix(text + "\r", '\r') == text;
  }

  // ----- What the coloured stream shows -----

  /** The terminal shows exactly `text` and is left in its default state. */
  ghost predicate Shows(output: seq<Byte>, text: seq<Byte>) {
    && Display(output).mode == Text
    && Display(output).style == []
    && Erased(output) == text
  }

  /** Output written after earlier, completed output is shown after it. */
  lemma {:induction false} FeedAfter(s: Screen, bytes: seq<Byte>)
    requires s.mode == Text && s.style == []
    ensures var d := Display(bytes); FeedAll(s, bytes) == d.(cells := s.cells + d.cells)
  {
    if bytes == [] {
      assert s.cells + [] == s.cells;
    } else {
      var n := |bytes| - 1;
      FeedAfter(s, bytes[..n]);
    }
  }

  lemma ShowsConcat(o1: seq<Byte>, t1: seq<Byte>, o2: seq<Byte>, t2: seq<Byte>)
    requires Shows(o1, t1) && Shows(o2, t2)
    ensures Shows(o1 + o2, t1 + t2)
  {
    hide Feed, FeedAll;
    FeedConcat(BLANK, o1, o2);
    FeedAfter(Display(o1), o2);
    assert TextOf(Display(o1).cells + Display(o2).cells) == TextOf(Display(o1).cells) + TextOf(Display(o2).cells);
  }

  /** Number of leading records within the limit. */
  ghost function Fitting(records: seq<seq<Byte>>): (k: nat)
    ensures k <= |records|
    ensures forall i | 0 <= i < k :: Fits(records[i])
    ensures k < |records| ==> !Fits(records[k])
  {
    if records == [] || !Fits(records[0]) then 0 else 1 + Fitting(records[1..])
  }

  // ----- Annotations -----

  /**
   * Command-line settings.  Analytics carries its window capacity and threshold; the logarithm is
   * that of the mathematics library, and the texts stand for the formatted notes, which hold no
   * escape characters.
   */
  datatype Settings = Settings(
    plugin: Plugin, color: bool, analytics: Option<(nat, real)>, verifyProtocol: bool,
    log2: Logarithm, anomalyText: Analysis -> seq<Byte>, violationText: Violation -> seq<Byte>)

  ghost predicate PlainTexts(settings: Settings) {
    && (forall a :: EscapeFree(settings.anomalyText(a)))
    && (forall v :: EscapeFree(settings.violationText(v)))
  }

  ghost function Payloads(records: seq<seq<Byte>>): (r: seq<seq<Byte>>)
    ensures |r| == |records| && forall k | 0 <= k < |r| :: r[k] == Payload(records[k])
  {
    seq(|records|, k requires 0 <= k < |records| => Payload(records[k]))
  }

  /** A line as a sample: its length, and whether it is an error or fatal. */
  function SampleOf(plugin: Plugin, payload: seq<Byte>): (r: (nat, bool))
    ensures r.0 == |payload| && (r.1 <==> SeverityOf(plugin, payload) in {Error, Fatal})
  {
    (|payload|, Code(SeverityOf(plugin, payload)) >= Code(Error))
  }

  ghost function SamplesOf(plugin: Plugin, records: seq<seq<Byte>>): (r: seq<(nat, bool)>)
    ensures |r| == |records| && forall k | 0 <= k < |r| :: r[k] == SampleOf(plugin, Payload(records[k]))
  {
    seq(|records|, k requires 0 <= k < |records| => SampleOf(plugin, Payload(records[k])))
  }

  /** The window size asked for, but never below two. */
  function Capacity(requested: nat): (c: nat)
    ensures c >= 2 && c >= requested && (c == 2 || c == requested)
  {
    if requested < 2 then 2 else requested
  }

  /** The verdict on the last of these records: that of its window, all records considered. */
  ghost function LatestAnalysis(settings: Settings, records: seq<seq<Byte>>): Option<Analysis>
    requires records != []
  {
    match settings.analytics
    case None => None
    case Some((requested, threshold)) =>
      var samples := LastN(SamplesOf(settings.plugin, records), Capacity(requested));
      Some(AnalysisOf(samples, threshold, settings.log2))
  }

  /**
   * When a record is anomalous: among the last records that the window holds, its own included, its
   * length scores at least the threshold, or at least half of them are errors or worse.
   */
  lemma AnomalyIff(settings: Settings, records: seq<seq<Byte>>, recent: seq<seq<Byte>>, lengths: seq<int>)
    requires records != [] && settings.analytics.Some? && settings.analytics.value.1 > 0.0
    requires recent == LastN(records, if settings.analytics.value.0 >= 2 then settings.analytics.value.0 else 2)
    requires |lengths| == |recent| && forall i | 0 <= i < |recent| ::
      lengths[i] == if |Payload(recent[i])| <= 0x7FFF_FFFF then |Payload(recent[i])| else 0x7FFF_FFFF
    ensures var t := settings.analytics.value.1;
      var errors := set i | 0 <= i < |recent| && SeverityOf(settings.plugin, Payload(recent[i])) in {Error, Fatal};
      LatestAnalysis(settings, records).value.anomaly <==> ZSquared(lengths) >= t * t || 2 * |errors| >= |recent|
  {
    hide SeverityOf, Payload, ZSquared, AnalysisOf, LatestAnalysis, SampleOf, LastN;
    var t := settings.analytics.value.1;
    var samples := RecentSamples(settings, records, recent);
    VerdictOf(samples, lengths, t, settings.log2);
    var flagged := set i | 0 <= i < |samples| && samples[i].1;
    assert flagged == set i | 0 <= i < |recent| && SeverityOf(settings.plugin, Payload(recent[i])) in {Error, Fatal};
  }

  lemma RecentSamples(settings: Settings, records: seq<seq<Byte>>, recent: seq<seq<Byte>>)
    returns (samples: seq<(nat, bool)>)
    requires records != [] && settings.analytics.Some?
    requires recent == LastN(records, if settings.analytics.value.0 >= 2 then settings.analytics.value.0 else 2)
    ensures |samples| == |recent| > 0
    ensures forall i | 0 <= i < |samples| ::
      samples[i].0 == |Payload(recent[i])|
      && (samples[i].1 <==> SeverityOf(settings.plugin, Payload(recent[i])) in {Error, Fatal})
    ensures LatestAnalysis(settings, records) == Some(AnalysisOf(samples, settings.analytics.value.1, settings.log2))
  {
    hide SeverityOf, Payload, AnalysisOf;
    samples := LastN(SamplesOf(settings.plugin, records), Capacity(settings.analytics.value.0));
    forall i | 0 <= i < |samples| ensures samples[i] == SampleOf(settings.plugin, Payload(recent[i])) { }
  }

  /** The note on the last of these records. */
  ghost function AnomalyNote(settings: Settings, records: seq<seq<Byte>>): seq<Byte>
    requires records != []
  {
    match LatestAnalysis(settings, records)
    case None => []
    case Some(a) => if a.anomaly then settings.anomalyText(a) else []
  }

  /** The note on the last of these records: its event is impossible in the phase the earlier ones led to. */
  ghost function ViolationNote(settings: Settings, records: seq<seq<Byte>>): seq<Byte>
    requires records != []
  {
    var n := |records| - 1;
    var phase, payload := RunFrom(Cold, Payloads(records[..n])), Payload(records[n]);
    if settings.verifyProtocol && DetectEvent(payload).Some? && !Accepts(phase, payload)
    then settings.violationText(Violation(phase, DetectEvent(payload).value))
    else []
  }

  /** What the last of these records becomes, notes included. */
  ghost function AnnotatedLine(settings: Settings, records: seq<seq<Byte>>): seq<Byte>
    requires records != []
  {
    var record := records[|records| - 1];
    Payload(record) + AnomalyNote(settings, records) + ViolationNote(settings, records) + Ending(record)
  }

  ghost function AnnotatedLines(settings: Settings, records: seq<seq<Byte>>): seq<Byte> {
    if records == [] then []
    else AnnotatedLines(settings, records[..|records| - 1]) + AnnotatedLine(settings, records)
  }

  /** The violation note: an event that the phase reached by the earlier records does not admit. */
  lemma ViolationIff(settings: Settings, records: seq<seq<Byte>>)
    requires records != []
    ensures var n := |records| - 1;
      var phase, event := RunFrom(Cold, Payloads(records[..n])), DetectEvent(Payload(records[n]));
      ViolationNote(settings, records) ==
        if settings.verifyProtocol && event.Some? && Next(phase, event.value).None?
        then settings.violationText(Violation(phase, event.value))
        else []
  {
    hide DetectEvent, Payload, RunFrom, Next;
  }

  /** The text of a record: one newline and one carriage return before it are its ending. */
  lemma PayloadOf(text: seq<Byte>)
    requires '\n' !in text && (text == [] || text[|text| - 1] != '\r')
    ensures Payload(text + "\n") == Payload(text + "\r\n") == Payload(text) == Payload(text + "\r") == text
    ensures Ending(text + "\n") == Ending(text + "\r\n") == "\n"
    ensures Ending(text) == Ending(text + "\r") == ""
  {
    assert StripSuffix(text + "\n", '\n') == text && StripSuffix(text, '\r') == text == StripSuffix(text, '\n');
    assert StripSuffix(text + "\r\n", '\n') == text + "\r" == StripSuffix(text + "\r", '\n');
    assert StripSuffix(text + "\r", '\r') == text;
  }

  /** A record with either line ending, or none, becomes its text, the two notes, and its newline if it had one. */
  lemma LineForm(settings: Settings, records: seq<seq<Byte>>, text: seq<Byte>, record: seq<Byte>)
    requires records != [] && records[|records| - 1] == record
    requires '\n' !in text && (text == [] || text[|text| - 1] != '\r')
    ensures var anomaly, violation := AnomalyNote(settings, records), ViolationNote(settings, records);
      && (record == text + "\n" || record == text + "\r\n" ==>
            AnnotatedLine(settings, records) == text + anomaly + violation + "\n")
      && (record == text || record == text + "\r" ==>
            AnnotatedLine(settings, records) == text + anomaly + violation + "")
  {
    hide AnomalyNote, ViolationNote, Payload, Ending;
    PayloadOf(text);
  }

  /** Without analytics and protocol verification the lines carry no notes. */
  lemma {:induction false} NoNotes(settings: Settings, records: seq<seq<Byte>>)
    requires settings.analytics.None? && !settings.verifyProtocol
    ensures AnnotatedLines(settings, records) == PlainLines(records)
  {
    if records != [] {
      NoNotes(settings, records[..|records| - 1]);
      var record := records[|records| - 1];
      assert Payload(record) + [] + [] == Payload(record);
    }
  }

  lemma PayloadsAppend(records: seq<seq<Byte>>, record: seq<Byte>)
    ensures Payloads(records + [record]) == Payloads(records) + [Payload(record)]
  {
  }

  lemma SamplesAppend(plugin: Plugin, records: seq<seq<Byte>>, record: seq<Byte>)
    ensures SamplesOf(plugin, records + [record]) == SamplesOf(plugin, records) + [SampleOf(plugin, Payload(record))]
  {
  }

  // ----- The loop -----

  /** The optional window has seen exactly these records. */
  ghost predicate WindowInStep(settings: Settings, window: AnalyticsWindow?, records: seq<seq<Byte>>)
    reads window
  {
    && (window != null <==> settings.analytics.Some?)
    && (window != null ==>
      && window.Valid()
      && window.capacity == Capacity(settings.analytics.value.0)
      && window.threshold == settings.analytics.value.1
      && window.log2 == settings.log2
      && window.pushed == SamplesOf(settings.plugin, records))
  }

  /** The optional verifier has seen exactly these records. */
  ghost predicate VerifierInStep(settings: Settings, verifier: ProtocolVerifier?, records: seq<seq<Byte>>)
    reads verifier
  {
    && (verifier != null <==> settings.verifyProtocol)
    && (verifier != null ==> verifier.Valid() && verifier.lines == Payloads(records))
  }

  /** Feeds the window, if there is one. */
  method Analyze(settings: Settings, window: AnalyticsWindow?, ghost records: seq<seq<Byte>>,
      line: seq<Byte>, severity: Severity) returns (r: Option<Analysis>)
    requires WindowInStep(settings, window, records)
    requires severity == SeverityOf(settings.plugin, Payload(line))
    modifies window
    ensures WindowInStep(settings, window, records + [line])
    ensures r == LatestAnalysis(settings, records + [line])
  {
    hide AnalysisOf, SeverityOf, Payload;
    r := None;
    SamplesAppend(settings.plugin, records, line);
    PayloadsAppend(records, line);
    if window != null {
      var analysis := window.Push(|Payload(line)|, Code(severity) >= Code(Error));
      r := Some(analysis);
    }
  }

  method AnnotateAnomaly(settings: Settings, window: AnalyticsWindow?, ghost records: seq<seq<Byte>>,
      line: seq<Byte>, severity: Severity) returns (note: seq<Byte>)
    requires WindowInStep(settings, window, records)
    requires severity == SeverityOf(settings.plugin, Payload(line))
    modifies window
    ensures WindowInStep(settings, window, records + [line])
    ensures note == AnomalyNote(settings, records + [line])
  {
    hide LatestAnalysis, SeverityOf, WindowInStep;
    note := [];
    var analysis := Analyze(settings, window, records, line, severity);
    if analysis.Some? && analysis.value.anomaly {
      note := settings.anomalyText(analysis.value);
    }
  }

  method AnnotateViolation(settings: Settings, verifier: ProtocolVerifier?, ghost records: seq<seq<Byte>>,
      line: seq<Byte>) returns (note: seq<Byte>)
    requires VerifierInStep(settings, verifier, records)
    modifies verifier
    ensures VerifierInStep(settings, verifier, records + [line])
    ensures note == ViolationNote(settings, records + [line])
  {
    hide DetectEvent, Payload, RunFrom, SinceReset, AcceptedEvents;
    note := [];
    PayloadsAppend(records, line);
    assert (records + [line])[..|records|] == records;
    if verifier != null {
      var verdict := verifier.Inspect(Payload(line));
      if verdict.Some? && verdict.value.Err? {
        note := settings.violationText(verdict.value.error);
      }
    }
  }

  /** What must be on the terminal after these records. */
  ghost predicate Written(output: seq<Byte>, settings: Settings, records: seq<seq<Byte>>, escapeFree: bool) {
    && (!settings.color ==> output == AnnotatedLines(settings, records))
    && (escapeFree ==> Shows(output, AnnotatedLines(settings, records)))
  }

  lemma EscapeFreeParts(s: seq<Byte>, n: nat)
    requires EscapeFree(s) && n <= |s|
    ensures EscapeFree(s[..n]) && EscapeFree(s[n..])
  {
  }

  lemma PayloadEscapeFree(record: seq<Byte>)
    requires EscapeFree(record)
    ensures EscapeFree(Payload(record))
  {
  }

  lemma PlainShows(text: seq<Byte>)
    requires EscapeFree(text)
    ensures Shows(text, text)
  {
    PlainErases(text);
  }

  lemma NotesEscapeFree(settings: Settings, records: seq<seq<Byte>>)
    requires PlainTexts(settings) && records != []
    ensures EscapeFree(AnomalyNote(settings, records)) && EscapeFree(ViolationNote(settings, records))
    ensures EscapeFree(Ending(records[|records| - 1]))
  {
    hide AnalysisOf, DetectEvent, Payload, RunFrom;
  }

  /** Body, notes and ending of a line, each shown as it is, make the annotated line. */
  lemma LineShows(settings: Settings, records: seq<seq<Byte>>, body: seq<Byte>)
    requires PlainTexts(settings) && records != []
    requires Shows(body, Payload(records[|records| - 1]))
    ensures
      var line := body + AnomalyNote(settings, records) + ViolationNote(settings, records);
      Shows(line + Ending(records[|records| - 1]), AnnotatedLine(settings, records))
  {
    hide Shows, EscapeFree, Payload, AnomalyNote, ViolationNote, Ending, PlainTexts;
    var record := records[|records| - 1];
    var a, v, e := AnomalyNote(settings, records), ViolationNote(settings, records), Ending(record);
    NotesEscapeFree(settings, records);
    PlainShows(a);
    PlainShows(v);
    PlainShows(e);
    ShowsConcat(body, Payload(record), a, a);
    ShowsConcat(body + a, Payload(record) + a, v, v);
    ShowsConcat(body + a + v, Payload(record) + a + v, e, e);
  }

  lemma WriteRecord(output: seq<Byte>, settings: Settings, records: seq<seq<Byte>>, record: seq<Byte>,
      rendered: seq<Byte>, escapeFree: bool)
    requires Written(output, settings, records, escapeFree)
    requires !settings.color ==> rendered == AnnotatedLine(settings, records + [record])
    requires escapeFree ==> Shows(rendered, AnnotatedLine(settings, records + [record]))
    ensures Written(output + rendered, settings, records + [record], escapeFree)
  {
    hide Display, Erased, AnnotatedLine, Shows;
    assert (records + [record])[..|records|] == records;
    if escapeFree {
      ShowsConcat(output, AnnotatedLines(settings, records), rendered, AnnotatedLine(settings, records + [record]));
    }
  }

  /** The body of the main loop: one record coloured, annotated, and its newline put back. */
  method RenderRecord(processor: Processor, window: AnalyticsWindow?, verifier: ProtocolVerifier?, settings: Settings,
      ghost records: seq<seq<Byte>>, line: seq<Byte>) returns (rendered: seq<Byte>)
    requires processor.plugin == settings.plugin && PlainTexts(settings)
    requires WindowInStep(settings, window, records) && VerifierInStep(settings, verifier, records)
    modifies processor`tokens, window, verifier
    ensures WindowInStep(settings, window, records + [line]) && VerifierInStep(settings, verifier, records + [line])
    ensures !settings.color ==> rendered == AnnotatedLine(settings, records + [line])
    ensures EscapeFree(line) ==> Shows(rendered, AnnotatedLine(settings, records + [line]))
  {
    hide Display, Erased, EscapeFree, SeverityOf, AnomalyNote, ViolationNote, PlainTexts, Payload;
    hide WindowInStep, VerifierInStep, TokensOf, Highlight;
    ghost var all := records + [line];
    var hadNewline := |line| > 0 && line[|line| - 1] == '\n';
    var payload := Payload(line);
    var severity, body := processor.Process(payload, settings.color);
    rendered := body;
    var anomaly := AnnotateAnomaly(settings, window, records, line, severity);
    rendered := rendered + anomaly;
    var violation := AnnotateViolation(settings, verifier, records, line);
    rendered := rendered + violation;
    ghost var unended := rendered;
    if hadNewline {
      rendered := rendered + "\n";
    }
    assert rendered == unended + Ending(line);
    if EscapeFree(line) {
      PayloadEscapeFree(line);
      LineShows(settings, all, body);
    }
  }

  lemma SplitStep(s: seq<Byte>, n: nat)
    requires s != [] && n == RecordLength(s)
    ensures Split(s) == [s[..n]] + Split(s[n..]) && n > 0
  {
  }

  lemma EmptyRecord(s: seq<Byte>)
    requires RecordLength(s) == 0
    ensures s == [] && Split(s) == []
  {
  }

  lemma EmptyLength()
    ensures RecordLength([]) == 0
  {
  }

  lemma {:induction false} FittingIs(records: seq<seq<Byte>>, k: nat)
    requires k <= |records| && (forall i | 0 <= i < k :: Fits(records[i]))
    requires k < |records| ==> !Fits(records[k])
    ensures Fitting(records) == k
  {
    if k > 0 {
      assert Fits(records[0]);
      FittingIs(records[1..], k - 1);
    }
  }

  lemma NothingWritten(settings: Settings, escapeFree: bool)
    ensures Written([], settings, [], escapeFree)
  {
  }

  /** The loop of `Run`, once the processor and the optional window and verifier exist. */
  method Loop(input: BufferedInput, processor: Processor, window: AnalyticsWindow?, verifier: ProtocolVerifier?,
      settings: Settings) returns (r: Result<(), IoError>, output: seq<Byte>)
    requires processor.plugin == settings.plugin && PlainTexts(settings)
    requires WindowInStep(settings, window, []) && VerifierInStep(settings, verifier, [])
    modifies input, processor`tokens, window, verifier
    ensures var records := Split(old(input.remaining));
      && (r.Ok? <==> Fitting(records) == |records|)
      && (r.Ok? ==> input.remaining == [])
      && Written(output, settings, records[..Fitting(records)], EscapeFree(old(input.remaining)))
  {
    hide Display, Erased, Shows, Split, RecordLength, Written, EscapeFree, AnnotatedLines, AnnotatedLine;
    hide WindowInStep, VerifierInStep, PlainTexts;
    output := [];
    ghost var escapeFree := EscapeFree(input.remaining);
    ghost var records := Split(input.remaining);
    ghost var done := 0;
    NothingWritten(settings, escapeFree);
    assert records[..0] == [];
    while true
      invariant done <= |records| && records[done..] == Split(input.remaining)
      invariant forall i | 0 <= i < done :: Fits(records[i])
      invariant WindowInStep(settings, window, records[..done]) && VerifierInStep(settings, verifier, records[..done])
      invariant Written(output, settings, records[..done], escapeFree)
      invariant escapeFree ==> EscapeFree(input.remaining)
      decreases |input.remaining|
    {
      ghost var left := input.remaining;
      var length, line := ReadRecord(input);
      EmptyLength();
      if length.Err? {
        SplitStep(left, RecordLength(left));
        FittingIs(records, done);
        return Err(length.error), output;
      }
      if length.value == 0 {
        EmptyRecord(left);
        FittingIs(records, done);
        assert records[..done] == records;
        return Ok(()), output;
      }
      SplitStep(left, RecordLength(left));
      assert line == records[done];
      if escapeFree { EscapeFreeParts(left, |line|); }
      assert records[..done + 1] == records[..done] + [line];
      var rendered := RenderRecord(processor, window, verifier, settings, records[..done], line);
      WriteRecord(output, settings, records[..done], line, rendered, escapeFree);
      output := output + rendered;
      done := done + 1;
    }
  }

  /** The optional window and verifier of a run. */
  method Observers(settings: Settings) returns (window: AnalyticsWindow?, verifier: ProtocolVerifier?)
    ensures WindowInStep(settings, window, []) && VerifierInStep(settings, verifier, [])
    ensures window != null ==> fresh(window)
    ensures verifier != null ==> fresh(verifier)
  {
    window, verifier := null, null;
    if settings.analytics.Some? {
      window := new AnalyticsWindow(settings.analytics.value.0, settings.analytics.value.1, settings.log2);
    }
    if settings.verifyProtocol {
      verifier := new ProtocolVerifier();
    }
  }

  /**
   * Whatever the buffering: all records up to the first oversized one are written, in order, and the
   * run succeeds exactly when none is oversized.  Without colour each record becomes its annotated
   * line; with colour a terminal shows those same lines and ends in its default state.
   */
  method Run(input: BufferedInput, settings: Settings) returns (r: Result<(), IoError>, output: seq<Byte>)
    requires PlainTexts(settings)
    modifies input
    ensures var records := Split(old(input.remaining));
      && (r.Ok? <==> Fitting(records) == |records|)
      && (r.Ok? ==> input.remaining == [])
      && Written(output, settings, records[..Fitting(records)], EscapeFree(old(input.remaining)))
  {
    hide Written, Split, EscapeFree, PlainTexts;
    var processor := new Processor(settings.plugin);
    var window, verifier := Observers(settings);
    r, output := Loop(input, processor, window, verifier, settings);
  }
}
