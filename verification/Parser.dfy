// Token discovery for the four log formats.  Parsers append byte ranges to a token list.
module Parser {
  import opened Options
  import opened Bytes
  import opened SeverityModel

  datatype TokenKind = Timestamp | Host | Process | Key | Value | WarningText | ErrorText | FatalText

  datatype Token = Token(start: nat, end: nat, kind: TokenKind)

  ghost predicate InLine(line: seq<Byte>, tokens: seq<Token>) {
    forall k | 0 <= k < |tokens| :: tokens[k].start <= tokens[k].end <= |line|
  }

  predicate Digits(line: seq<Byte>, from: nat, to: nat)
    requires from <= to <= |line|
  {
    forall i | from <= i < to :: IsDigit(line[i])
  }

  /** "Mmm dd hh:mm:ss" up front; the two day bytes are not examined. */
  predicate IsSyslogTimestamp(line: seq<Byte>) {
    && |line| >= 15
    && IsUpper(line[0]) && IsLower(line[1]) && IsLower(line[2])
    && line[3] == ' ' && line[6] == ' ' && line[9] == ':' && line[12] == ':'
    && Digits(line, 7, 9) && Digits(line, 10, 12) && Digits(line, 13, 15)
  }

  // ----- The severity keyword -----

  function KeywordsOf(s: Severity): (r: seq<(seq<Byte>, TokenKind)>)
    ensures forall k | 0 <= k < |r| :: r[k].0 != []
  {
    match s
    case Fatal => [("panic", FatalText), ("fatal", FatalText)]
    case Error => [("error", ErrorText), ("failed", ErrorText)]
    case Warn => [("warn", WarningText)]
    case _ => []
  }

  /** First occurrence of the first listed keyword that occurs at all. */
  function FirstKeyword(line: seq<Byte>, needles: seq<(seq<Byte>, TokenKind)>): seq<Token> {
    if needles == [] then []
    else match FindIgnoringCase(line, needles[0].0)
      case Some(start) => [Token(start, start + |needles[0].0|, needles[0].1)]
      case None => FirstKeyword(line, needles[1..])
  }

  function SeverityTokens(line: seq<Byte>): seq<Token> {
    FirstKeyword(line, KeywordsOf(Severest(line)))
  }

  method AddSeverityToken(line: seq<Byte>, tokens: seq<Token>) returns (severity: Severity, r: seq<Token>)
    ensures severity == Severest(line) && r == tokens + SeverityTokens(line)
  {
    severity := Detect(line);
    r := tokens;
    var needles := KeywordsOf(severity);
    var i := 0;
    while i < |needles|
      invariant 0 <= i <= |needles| && r == tokens
      invariant FirstKeyword(line, needles[i..]) == SeverityTokens(line)
    {
      assert needles[i..][1..] == needles[i + 1..];
      var found := FindIgnoringCase(line, needles[i].0);
      if found.Some? {
        r := r + [Token(found.value, found.value + |needles[i].0|, needles[i].1)];
        break;
      }
      i := i + 1;
    }
  }

  /** The token covers the first occurrence of `needle`. */
  ghost predicate SpansFirst(line: seq<Byte>, needle: seq<Byte>, t: Token) {
    && t.end == t.start + |needle| <= |line|
    && OccursAt(line, needle, t.start)
    && forall i: nat | i < t.start :: !OccursAt(line, needle, i)
  }

  lemma {:induction false} FirstKeywordSpans(line: seq<Byte>, needles: seq<(seq<Byte>, TokenKind)>)
    ensures var r := FirstKeyword(line, needles);
      && |r| <= 1
      && (r == [] <==> forall k | 0 <= k < |needles| :: !Occurs(line, needles[k].0))
      && (r != [] ==> exists k | 0 <= k < |needles| ::
            needles[k].1 == r[0].kind && SpansFirst(line, needles[k].0, r[0]))
  {
    hide Occurs;
    if needles != [] && !Occurs(line, needles[0].0) {
      FirstKeywordSpans(line, needles[1..]);
    }
  }

  /**
   * A keyword is highlighted exactly when the line is at least a warning; the highlight covers the
   * first occurrence of a keyword of the detected severity.
   */
  lemma SeverityTokenSpansKeyword(line: seq<Byte>)
    ensures var r := SeverityTokens(line);
      && InLine(line, r)
      && |r| == (if Code(Severest(line)) >= Code(Warn) then 1 else 0)
      && (r != [] ==> exists needle: seq<Byte> | (needle, r[0].kind) in KeywordsOf(Severest(line)) ::
            SpansFirst(line, needle, r[0]))
  {
    hide Occurs, OccursAt;
    FirstKeywordSpans(line, KeywordsOf(Severest(line)));
  }

  /**
   * Which keyword is highlighted, and how: the more severe class first, and within a class the first
   * of the two words that occurs anywhere.
   */
  lemma SeverityTokenIff(line: seq<Byte>)
    ensures var r := SeverityTokens(line);
      && (Occurs(line, "panic") ==> |r| == 1 && r[0].kind == FatalText && SpansFirst(line, "panic", r[0]))
      && (!Occurs(line, "panic") && Occurs(line, "fatal") ==>
            |r| == 1 && r[0].kind == FatalText && SpansFirst(line, "fatal", r[0]))
      && (Code(Severest(line)) == 4 && Occurs(line, "error") ==>
            |r| == 1 && r[0].kind == ErrorText && SpansFirst(line, "error", r[0]))
      && (Code(Severest(line)) == 4 && !Occurs(line, "error") ==>
            |r| == 1 && r[0].kind == ErrorText && SpansFirst(line, "failed", r[0]))
      && (Code(Severest(line)) == 3 ==>
            |r| == 1 && r[0].kind == WarningText && SpansFirst(line, "warn", r[0]))
      && (Code(Severest(line)) <= 2 ==> r == [])
  {
    hide Occurs, OccursAt, SpansFirst, FirstKeyword;
    KeywordRank(line);
    var needles := KeywordsOf(Severest(line));
    if needles != [] {
      FirstKeywordHead(line, needles);
      if |needles| == 2 { FirstKeywordHead(line, needles[1..]); }
    } else {
      NoKeyword(line, needles);
    }
  }

  lemma FirstKeywordHead(line: seq<Byte>, needles: seq<(seq<Byte>, TokenKind)>)
    requires needles != []
    ensures var r := FirstKeyword(line, needles);
      if Occurs(line, needles[0].0)
      then |r| == 1 && r[0].kind == needles[0].1 && SpansFirst(line, needles[0].0, r[0])
      else r == FirstKeyword(line, needles[1..])
  {
    hide Occurs;
  }

  lemma NoKeyword(line: seq<Byte>, needles: seq<(seq<Byte>, TokenKind)>)
    requires needles == []
    ensures FirstKeyword(line, needles) == []
  {
  }

  // ----- Syslog -----

  /** The header of a syslog line: timestamp, then host up to a space, then process up to a colon. */
  function SyslogHeader(line: seq<Byte>): (r: seq<Token>)
    ensures InLine(line, r)
  {
    if !IsSyslogTimestamp(line) then []
    else
      var hostStart := FindNonSpace(line, 15).GetOr(15);
      [Token(0, 15, Timestamp)] + match FindByte(line, ' ', hostStart)
        case None => []
        case Some(hostEnd) =>
          var processStart := FindNonSpace(line, hostEnd).GetOr(hostEnd);
          [Token(hostStart, hostEnd, Host)] + match FindByte(line, ':', processStart)
            case None => []
            case Some(processEnd) => [Token(processStart, processEnd, Process)]
  }

  method ParseSyslog(line: seq<Byte>, tokens: seq<Token>) returns (severity: Severity, r: seq<Token>)
    ensures severity == Severest(line) && r == tokens + SyslogHeader(line) + SeverityTokens(line)
  {
    r := tokens;
    if IsSyslogTimestamp(line) {
      r := r + [Token(0, 15, Timestamp)];
      var hostStart := FindNonSpace(line, 15).GetOr(15);
      var space := FindByte(line, ' ', hostStart);
      if space.Some? {
        var hostEnd := space.value;
        r := r + [Token(hostStart, hostEnd, Host)];
        var processStart := FindNonSpace(line, hostEnd).GetOr(hostEnd);
        var colon := FindByte(line, ':', processStart);
        if colon.Some? {
          r := r + [Token(processStart, colon.value, Process)];
        }
      }
    }
    severity, r := AddSeverityToken(line, r);
  }

  /** Header tokens follow one another without overlapping; host and process names hold no delimiter. */
  lemma SyslogHeaderShape(line: seq<Byte>)
    ensures var r := SyslogHeader(line);
      && (forall j, k | 0 <= j < k < |r| :: r[j].end <= r[k].start)
      && (|r| >= 2 ==> r[1].kind == Host && ' ' !in line[r[1].start..r[1].end] && line[r[1].end] == ' ')
      && (|r| >= 3 ==> r[2].kind == Process && ':' !in line[r[2].start..r[2].end] && line[r[2].end] == ':')
  {
  }

  /** The fifteen bytes of "Mmm dd hh:mm:ss", the two of the day being arbitrary. */
  ghost predicate Stamped(line: seq<Byte>) {
    && |line| >= 15
    && 'A' <= line[0] <= 'Z' && 'a' <= line[1] <= 'z' && 'a' <= line[2] <= 'z'
    && line[3] == ' ' && line[6] == ' ' && line[9] == ':' && line[12] == ':'
    && forall i | i in {7, 8, 10, 11, 13, 14} :: '0' <= line[i] <= '9'
  }

  lemma TimestampIff(line: seq<Byte>)
    ensures IsSyslogTimestamp(line) <==> Stamped(line)
  {
    if Stamped(line) {
      forall i | 7 <= i < 9 || 10 <= i < 12 || 13 <= i < 15 ensures IsDigit(line[i]) {
        assert i in {7, 8, 10, 11, 13, 14};
      }
    }
  }

  /** ASCII white space by code: tab, line feed, form feed, carriage return, space. */
  ghost predicate White(b: Byte) { b as int in {9, 10, 12, 13, 32} }

  /** Where the word after `from` starts: past the white space, or at `from` when nothing else follows. */
  ghost predicate WordStart(line: seq<Byte>, from: nat, p: nat) {
    && from <= p <= |line|
    && (forall i | from <= i < p :: White(line[i]))
    && (p < |line| ==> !White(line[p]) || p == from)
    && ((p == |line| || White(line[p])) ==>
          p == from && forall i | from <= i < |line| :: White(line[i]))
  }

  /** The first `b` at or after `from`. */
  ghost predicate FirstAt(line: seq<Byte>, b: Byte, from: nat, p: nat) {
    from <= p < |line| && line[p] == b && forall i | from <= i < p :: line[i] != b
  }

  lemma WordStartFound(line: seq<Byte>, from: nat, p: nat)
    requires from <= |line|
    ensures WordStart(line, from, p) <==> FindNonSpace(line, from).GetOr(from) == p
  {
    assert forall b: Byte :: IsSpace(b) <==> White(b);
  }

  lemma FirstFound(line: seq<Byte>, b: Byte, from: nat)
    requires from <= |line|
    ensures forall p: nat | FirstAt(line, b, from, p) :: FindByte(line, b, from) == Some(p)
    ensures (forall i | from <= i < |line| :: line[i] != b) <==> FindByte(line, b, from).None?
  {
    var r := FindByte(line, b, from);
    if r.Some? {
      assert forall i | from <= i < r.value :: line[i] == line[from..r.value][i - from];
    } else {
      assert forall i | from <= i < |line| :: line[i] == line[from..][i - from];
    }
  }

  /**
   * Which header tokens a line has.  The first is there exactly for a stamped line; the second
   * exactly when a space follows the start of the word after the stamp; the third exactly when a
   * colon follows the start of the word after that.
   */
  lemma SyslogHeaderIff(line: seq<Byte>)
    ensures SyslogHeader(line) != [] <==> Stamped(line)
    ensures Stamped(line) ==> SyslogHeader(line)[0] == Token(0, 15, Timestamp)
    ensures Stamped(line) ==> forall h: nat | WordStart(line, 15, h) ::
      && (|SyslogHeader(line)| == 1 <==> forall i | h <= i < |line| :: line[i] != ' ')
      && forall s: nat | FirstAt(line, ' ', h, s) ::
        && |SyslogHeader(line)| >= 2 && SyslogHeader(line)[1] == Token(h, s, Host)
        && forall p: nat | WordStart(line, s, p) ::
          && (|SyslogHeader(line)| == 2 <==> forall i | p <= i < |line| :: line[i] != ':')
          && forall c: nat | FirstAt(line, ':', p, c) ::
            |SyslogHeader(line)| == 3 && SyslogHeader(line)[2] == Token(p, c, Process)
  {
    hide FirstAt, WordStart, Stamped, IsSyslogTimestamp;
    TimestampIff(line);
    if Stamped(line) {
      StampedLength(line);
      forall h: nat | WordStart(line, 15, h)
        ensures (|SyslogHeader(line)| == 1 <==> forall i | h <= i < |line| :: line[i] != ' ')
        ensures forall s: nat | FirstAt(line, ' ', h, s) ::
          && |SyslogHeader(line)| >= 2 && SyslogHeader(line)[1] == Token(h, s, Host)
          && forall p: nat | WordStart(line, s, p) ::
            && (|SyslogHeader(line)| == 2 <==> forall i | p <= i < |line| :: line[i] != ':')
            && forall c: nat | FirstAt(line, ':', p, c) ::
              |SyslogHeader(line)| == 3 && SyslogHeader(line)[2] == Token(p, c, Process)
      {
        WordStartFound(line, 15, h);
        FirstFound(line, ' ', h);
        forall s: nat, p: nat | FirstAt(line, ' ', h, s) && WordStart(line, s, p)
          ensures (|SyslogHeader(line)| == 2 <==> forall i | p <= i < |line| :: line[i] != ':')
          ensures forall c: nat | FirstAt(line, ':', p, c) ::
            |SyslogHeader(line)| == 3 && SyslogHeader(line)[2] == Token(p, c, Process)
        {
          WordStartFound(line, s, p);
          FirstFound(line, ':', p);
        }
      }
    }
  }

  lemma StampedLength(line: seq<Byte>)
    requires Stamped(line)
    ensures |line| >= 15 && line[0] != '{'
  {
  }

  /** A line in the usual form shows its stamp, host and process, whether syslog is asked for or found out. */
  lemma SyslogLine(stamp: seq<Byte>, host: seq<Byte>, process: seq<Byte>, rest: seq<Byte>)
    requires |stamp| == 15 && Stamped(stamp)
    requires host != [] && forall b | b in host :: !White(b)
    requires process != [] && forall b | b in process :: !White(b) && b != ':'
    ensures
      var line := stamp + " " + host + " " + process + ":" + rest;
      var h, p := 16 + |host|, 17 + |host| + |process|;
      var header := [Token(0, 15, Timestamp), Token(16, h, Host), Token(h + 1, p, Process)];
      header <= TokensOf(Syslog, line) && header <= TokensOf(Auto, line)
  {
    var line := stamp + " " + host + " " + process + ":" + rest;
    var h, p := 16 + |host|, 17 + |host| + |process|;
    assert forall i | 0 <= i < 15 :: line[i] == stamp[i];
    assert forall i | 0 <= i < |host| :: line[16 + i] == host[i];
    assert forall i | 0 <= i < |process| :: line[h + 1 + i] == process[i];
    assert line[15] == ' ' && line[h] == ' ' && line[p] == ':';
    assert WordStart(line, 15, 16) by { assert line[16] == host[0]; }
    assert FirstAt(line, ' ', 16, h) by {
      assert forall i | 16 <= i < h :: line[i] == host[i - 16] && host[i - 16] in host;
    }
    assert WordStart(line, h, h + 1) by { assert line[h + 1] == process[0]; }
    assert FirstAt(line, ':', h + 1, p) by {
      assert forall i | h + 1 <= i < p :: line[i] == process[i - h - 1] && process[i - h - 1] in process;
    }
    assert Stamped(line);
    hide Stamped, FirstAt, WordStart, SyslogHeader, IsSyslogTimestamp;
    SyslogHeaderIff(line);
    TimestampIff(line);
    StampedLength(line);
    hide SeverityTokens;
    assert SyslogHeader(line) == [Token(0, 15, Timestamp), Token(16, h, Host), Token(h + 1, p, Process)];
  }

  // ----- HTTP access logs -----

  function HttpdHost(line: seq<Byte>): (r: seq<Token>)
    ensures InLine(line, r)
  {
    match FindByte(line, ' ', 0) case None => [] case Some(space) => [Token(0, space, Host)]
  }

  function HttpdTime(line: seq<Byte>): (r: seq<Token>)
    ensures InLine(line, r)
  {
    match FindByte(line, '[', 0)
    case None => []
    case Some(open) =>
      match FindByte(line, ']', open + 1)
      case None => []
      case Some(close) => [Token(open + 1, close, Timestamp)]
  }

  /** Where the status field begins: the first non-blank byte after the second double quote. */
  function StatusStart(line: seq<Byte>): (r: Option<nat>)
    ensures r.Some? ==> r.value < |line| && !IsSpace(line[r.value])
  {
    match FindByte(line, '\"', 0)
    case None => None
    case Some(first) =>
      match FindByte(line, '\"', first + 1)
      case None => None
      case Some(second) => FindNonSpace(line, second + 1)
  }

  function StatusKind(first: Byte): (TokenKind, Severity) {
    if first == '5' then (ErrorText, Error) else if first == '4' then (WarningText, Warn) else (Value, Info)
  }

  function HttpdStatus(line: seq<Byte>): (r: seq<Token>)
    ensures InLine(line, r)
  {
    match StatusStart(line)
    case None => []
    case Some(start) => [Token(start, FindSpace(line, start).GetOr(|line|), StatusKind(line[start]).0)]
  }

  function StatusSeverity(line: seq<Byte>): Severity {
    match StatusStart(line) case None => Info case Some(start) => StatusKind(line[start]).1
  }

  function HttpdSeverity(line: seq<Byte>): Severity {
    Join(StatusSeverity(line), Severest(line))
  }

  method ParseHttpd(line: seq<Byte>, tokens: seq<Token>) returns (severity: Severity, r: seq<Token>)
    ensures severity == HttpdSeverity(line)
    ensures r == tokens + HttpdHost(line) + HttpdTime(line) + HttpdStatus(line) + SeverityTokens(line)
  {
    hide Severest, SeverityTokens, HttpdStatus, StatusSeverity, IsSpace;
    r := tokens;
    var space := FindByte(line, ' ', 0);
    if space.Some? {
      r := r + [Token(0, space.value, Host)];
    }
    assert r == tokens + HttpdHost(line);
    var open := FindByte(line, '[', 0);
    if open.Some? {
      var close := FindByte(line, ']', open.value + 1);
      if close.Some? {
        r := r + [Token(open.value + 1, close.value, Timestamp)];
      }
    }
    assert r == tokens + HttpdHost(line) + HttpdTime(line);
    var detected, found;
    detected, r := AddStatus(line, r);
    found, r := AddSeverityToken(line, r);
    severity := Join(detected, found);
  }

  method AddStatus(line: seq<Byte>, tokens: seq<Token>) returns (detected: Severity, r: seq<Token>)
    ensures detected == StatusSeverity(line) && r == tokens + HttpdStatus(line)
  {
    hide IsSpace;
    detected, r := Info, tokens;
    var first := FindByte(line, '\"', 0);
    if first.Some? {
      var second := FindByte(line, '\"', first.value + 1);
      if second.Some? {
        var status := FindNonSpace(line, second.value + 1);
        if status.Some? {
          var start := status.value;
          var end := FindSpace(line, start).GetOr(|line|);
          var kind;
          if line[start] == '5' {
            detected, kind := Error, ErrorText;
          } else if line[start] == '4' {
            detected, kind := Warn, WarningText;
          } else {
            kind := Value;
          }
          r := r + [Token(start, end, kind)];
        }
      }
    }
  }

  /** The host is what precedes the first space. */
  lemma HttpdHostShape(line: seq<Byte>)
    ensures var r := HttpdHost(line);
      && |r| == (if ' ' in line then 1 else 0)
      && (r != [] ==>
        && r[0].kind == Host && r[0].start == 0 && r[0].end < |line|
        && ' ' !in line[..r[0].end] && line[r[0].end] == ' ')
  {
    assert line[0..] == line;
    var space := FindByte(line, ' ', 0);
    if space.Some? { assert line[0..space.value] == line[..space.value]; }
  }

  /** The time is enclosed by the first opening bracket and the first closing one after it. */
  lemma HttpdTimeShape(line: seq<Byte>)
    ensures var r := HttpdTime(line);
      && |r| <= 1
      && (r != [] <==> exists i, j | 0 <= i < j < |line| :: line[i] == '[' && line[j] == ']')
      && (r != [] ==>
        && r[0].kind == Timestamp && 0 < r[0].start <= r[0].end < |line|
        && line[r[0].start - 1] == '[' && '[' !in line[..r[0].start - 1]
        && line[r[0].end] == ']' && ']' !in line[r[0].start..r[0].end])
  {
    var open := FindByte(line, '[', 0);
    if open.Some? {
      assert line[0..open.value] == line[..open.value];
      forall i, j | 0 <= i < j < |line| && line[i] == '[' && line[j] == ']' ensures HttpdTime(line) != [] {
        assert line[open.value + 1..][j - open.value - 1] == ']';
      }
    } else {
      assert line[0..] == line;
    }
  }

  /**
   * The status is the first word after the second double quote: it follows that quote and white
   * space only, holds none, and extends to white space or the end.  Its first byte gives its kind.
   */
  ghost predicate IsStatus(line: seq<Byte>, t: Token) {
    && t.start < t.end <= |line|
    && (forall i | t.start <= i < t.end :: !IsSpace(line[i]))
    && (t.end < |line| ==> IsSpace(line[t.end]))
    && (exists second | 0 <= second < t.start ::
          && line[second] == '\"' && Quotes(line[..second]) == 1
          && forall i | second < i < t.start :: IsSpace(line[i]))
    && (t.kind == ErrorText <==> line[t.start] == '5')
    && (t.kind == WarningText <==> line[t.start] == '4')
    && (t.kind == Value <==> line[t.start] != '5' && line[t.start] != '4')
  }

  lemma HttpdStatusShape(line: seq<Byte>)
    ensures var r := HttpdStatus(line);
      && |r| <= 1
      && (r != [] ==> IsStatus(line, r[0]))
      && (r == [] ==> forall second | 0 <= second < |line| && line[second] == '\"' && Quotes(line[..second]) == 1 ::
            forall i | second < i < |line| :: IsSpace(line[i]))
      && StatusSeverity(line) ==
          (if r == [] || r[0].kind == Value then Info else if r[0].kind == ErrorText then Error else Warn)
  {
    hide IsSpace, Quotes;
    var first := FindByte(line, '\"', 0);
    if first.None? {
      assert line[0..] == line;
    } else {
      var second := FindByte(line, '\"', first.value + 1);
      if second.None? {
        SecondQuoteAbsent(line, first.value);
      } else {
        SecondQuote(line, first.value, second.value);
      }
    }
  }

  /** With the first quote known, the quotes before a later index are it and those in between. */
  lemma QuotesBefore(line: seq<Byte>, first: nat, i: nat)
    requires first < i <= |line| && line[first] == '\"' && '\"' !in line[0..first]
    ensures Quotes(line[..i]) == 1 + Quotes(line[first + 1..i])
    ensures Quotes(line[..i]) == 1 <==> forall k | first < k < i :: line[k] != '\"'
  {
    var part := line[..i];
    assert part[0..first] == line[0..first] && part[0..] == part && part[first + 1..] == line[first + 1..i];
    hide Quotes;
    QuoteAt(part, 0, first);
    NoQuotes(line[first + 1..i]);
  }

  lemma SecondQuote(line: seq<Byte>, first: nat, second: nat)
    requires first < second < |line| && line[first] == line[second] == '\"'
    requires '\"' !in line[0..first] && '\"' !in line[first + 1..second]
    ensures Quotes(line[..second]) == 1
    ensures forall i | 0 <= i < |line| && line[i] == '\"' && Quotes(line[..i]) == 1 :: i == second
  {
    hide Quotes;
    QuotesBefore(line, first, second);
    forall i | 0 <= i < |line| && line[i] == '\"' && Quotes(line[..i]) == 1 ensures i == second {
      QuotesBeforeFirst(line, first, i);
      QuotesBefore(line, first, i);
    }
  }

  lemma SecondQuoteAbsent(line: seq<Byte>, first: nat)
    requires first < |line| && line[first] == '\"'
    requires '\"' !in line[0..first] && '\"' !in line[first + 1..]
    ensures forall i | 0 <= i < |line| && line[i] == '\"' :: Quotes(line[..i]) != 1
  {
    hide Quotes;
    forall i | 0 <= i < |line| && line[i] == '\"' ensures Quotes(line[..i]) != 1 {
      QuotesBeforeFirst(line, first, i);
    }
  }

  /** A quote with one quote before it is not the first one. */
  lemma QuotesBeforeFirst(line: seq<Byte>, first: nat, i: nat)
    requires first < |line| && i < |line| && line[i] == '\"' && '\"' !in line[0..first]
    ensures i >= first
    ensures Quotes(line[..i]) == 1 ==> i > first
  {
    if i == first { NoQuotes(line[..i]); }
  }

  /** The status is that of a server error and s is at most Error, or of a client error and s at most Warn. */
  ghost predicate StatusDemands(line: seq<Byte>, s: Severity) {
    exists t | t in HttpdStatus(line) ::
      && t.start < |line|
      && ((line[t.start] == '5' && Code(s) <= Code(Error)) || (line[t.start] == '4' && Code(s) <= Code(Warn)))
  }

  /** A line is as severe as its status class or its keywords make it, whichever is more. */
  lemma HttpdSeverityIff(line: seq<Byte>, s: Severity)
    requires Code(s) > Code(Info)
    ensures Code(HttpdSeverity(line)) >= Code(s) <==> Code(Severest(line)) >= Code(s) || StatusDemands(line, s)
  {
    hide Severest, IsSpace, Quotes;
    HttpdStatusShape(line);
    var r := HttpdStatus(line);
    assert r != [] ==> r[0] in r;
  }

  // ----- JSON -----

  /** A quote on either side and none within; a key when a colon follows, white space aside. */
  ghost predicate Quoted(line: seq<Byte>, t: Token) {
    && 0 < t.start <= t.end < |line|
    && line[t.start - 1] == '\"' && line[t.end] == '\"'
    && '\"' !in line[t.start..t.end]
    && t.kind == (if ColonFollows(line, t.end + 1) then Key else Value)
  }

  ghost predicate ColonFollows(line: seq<Byte>, from: nat) {
    exists colon | from <= colon < |line| :: line[colon] == ':' && forall i | from <= i < colon :: IsSpace(line[i])
  }

  lemma ColonFound(line: seq<Byte>, from: nat)
    requires from <= |line|
    ensures var after := FindNonSpace(line, from);
      ColonFollows(line, from) <==> after.Some? && line[after.value] == ':'
  {
  }

  /** The next quoted text from `cursor` on; it is a key when a colon follows, white space aside. */
  function NextString(line: seq<Byte>, cursor: nat): (r: Option<Token>)
    requires cursor <= |line|
    ensures r.Some? ==> cursor < r.value.start <= r.value.end < |line|
    ensures r.None? ==> Quotes(line[cursor..]) <= 1
  {
    match FindByte(line, '\"', cursor)
    case None =>
      NoQuotes(line[cursor..]);
      None
    case Some(open) =>
      QuoteAt(line, cursor, open);
      match FindByte(line, '\"', open + 1)
      case None =>
        NoQuotes(line[open + 1..]);
        None
      case Some(close) =>
        var after := FindNonSpace(line, close + 1);
        Some(Token(open + 1, close, if after.Some? && line[after.value] == ':' then Key else Value))
  }

  /** All quoted texts from `cursor` on. */
  function JsonStrings(line: seq<Byte>, cursor: nat): seq<Token>
    requires cursor <= |line|
    decreases |line| - cursor
  {
    match NextString(line, cursor)
    case None => []
    case Some(t) => [t] + JsonStrings(line, t.end + 1)
  }

  method ParseJson(line: seq<Byte>, tokens: seq<Token>) returns (severity: Severity, r: seq<Token>)
    ensures severity == Severest(line) && r == tokens + JsonStrings(line, 0) + SeverityTokens(line)
  {
    hide Severest, SeverityTokens, IsSpace, FindNonSpace, Quotes, JsonStrings, NextString, Quoted, FindByte;
    r := tokens;
    var cursor := 0;
    var open := FindByte(line, '\"', cursor);
    while open.Some?
      invariant cursor <= |line| && open == FindByte(line, '\"', cursor)
      invariant r + JsonStrings(line, cursor) == tokens + JsonStrings(line, 0)
      decreases |line| - cursor
    {
      var start := open.value + 1;
      var close := FindByte(line, '\"', start);
      JsonStep(line, cursor);
      if close.None? {
        break;
      }
      var end := close.value;
      var after := FindNonSpace(line, end + 1);
      var kind := if after.Some? && line[after.value] == ':' then Key else Value;
      var token := Token(start, end, kind);
      assert r + ([token] + JsonStrings(line, end + 1)) == r + [token] + JsonStrings(line, end + 1);
      r := r + [token];
      cursor := end + 1;
      open := FindByte(line, '\"', cursor);
    }
    JsonStep(line, cursor);
    severity, r := AddSeverityToken(line, r);
  }

  lemma JsonStep(line: seq<Byte>, cursor: nat)
    requires cursor <= |line|
    ensures var open := FindByte(line, '\"', cursor);
      if open.None? then JsonStrings(line, cursor) == []
      else
        var close := FindByte(line, '\"', open.value + 1);
        if close.None? then JsonStrings(line, cursor) == []
        else
          var after := FindNonSpace(line, close.value + 1);
          var kind := if after.Some? && line[after.value] == ':' then Key else Value;
          JsonStrings(line, cursor) == [Token(open.value + 1, close.value, kind)] + JsonStrings(line, close.value + 1)
  {
    hide FindByte, FindNonSpace, Quotes, Quoted;
  }

  function Quotes(s: seq<Byte>): nat {
    if s == [] then 0 else (if s[0] == '\"' then 1 else 0) + Quotes(s[1..])
  }

  /** Counting quotes byte by byte counts their occurrences. */
  lemma {:induction false} QuotesIs(s: seq<Byte>)
    ensures Quotes(s) == multiset(s)['\"']
  {
    if s != [] {
      QuotesIs(s[1..]);
      assert s == [s[0]] + s[1..];
    }
  }

  lemma {:induction false} NoQuotes(s: seq<Byte>)
    ensures Quotes(s) == 0 <==> '\"' !in s
  {
    if s != [] {
      NoQuotes(s[1..]);
      assert s == [s[0]] + s[1..];
    }
  }

  lemma {:induction false} QuotesSplit(s: seq<Byte>, t: seq<Byte>)
    ensures Quotes(s + t) == Quotes(s) + Quotes(t)
  {
    if s == [] {
      assert s + t == t;
    } else {
      QuotesSplit(s[1..], t);
      assert (s + t)[1..] == s[1..] + t;
    }
  }

  lemma QuoteAt(line: seq<Byte>, from: nat, at: nat)
    requires from <= at < |line| && line[at] == '\"' && '\"' !in line[from..at]
    ensures Quotes(line[from..]) == 1 + Quotes(line[at + 1..])
  {
    assert line[from..] == line[from..at] + line[at..];
    QuotesSplit(line[from..at], line[at..]);
    NoQuotes(line[from..at]);
    assert line[at..][1..] == line[at + 1..];
  }

  lemma NextStringIsQuoted(line: seq<Byte>, cursor: nat)
    requires cursor <= |line| && NextString(line, cursor).Some?
    ensures var t := NextString(line, cursor).value;
      && Quoted(line, t)
      && 0 < t.start <= t.end < |line| && line[t.start - 1] == '\"' && line[t.end] == '\"'
      && '\"' !in line[cursor..t.start - 1] && '\"' !in line[t.start..t.end]
  {
    hide Quotes, ColonFollows, IsSpace;
    ColonFound(line, NextString(line, cursor).value.end + 1);
  }

  /** One token per pair of quotes: each is enclosed in quotes, holds none, and ends before the next begins. */
  lemma {:induction false} JsonStringsShape(line: seq<Byte>, cursor: nat)
    requires cursor <= |line|
    ensures var r := JsonStrings(line, cursor);
      && |r| == Quotes(line[cursor..]) / 2
      && InLine(line, r)
      && (forall k | 0 <= k < |r| :: cursor < r[k].start && Quoted(line, r[k]))
      && (forall j, k | 0 <= j < k < |r| :: r[j].end < r[k].start)
    decreases |line| - cursor
  {
    hide Quotes, NextString, Quoted;
    var t := NextString(line, cursor);
    if t.Some? {
      NextStringIsQuoted(line, cursor);
      QuoteAt(line, cursor, t.value.start - 1);
      QuoteAt(line, t.value.start, t.value.end);
      var rest := JsonStrings(line, t.value.end + 1);
      JsonStringsShape(line, t.value.end + 1);
      assert JsonStrings(line, cursor) == [t.value] + rest;
    }
  }

  // ----- Choosing a parser -----

  datatype Plugin = Auto | Syslog | Httpd | Json

  function Name(plugin: Plugin): string {
    match plugin case Auto => "auto" case Syslog => "syslog" case Httpd => "httpd" case Json => "json"
  }

  /** The plugin of that name, if there is one. */
  function ByName(name: string): (r: Option<Plugin>)
    ensures forall plugin :: r == Some(plugin) <==> Name(plugin) == name
  {
    match name
    case "auto" => Some(Auto)
    case "syslog" => Some(Syslog)
    case "httpd" => Some(Httpd)
    case "json" => Some(Json)
    case _ => None
  }

  predicate LooksLikeHttpd(line: seq<Byte>) {
    exists i | 0 <= i <= |line| - 3 :: line[i] == ']' && line[i + 1] == ' ' && line[i + 2] == '\"'
  }

  /** What a plugin finds in a line, in the order found. */
  function TokensOf(plugin: Plugin, line: seq<Byte>): seq<Token> {
    match plugin
    case Syslog => SyslogHeader(line) + SeverityTokens(line)
    case Httpd => HttpdHost(line) + HttpdTime(line) + HttpdStatus(line) + SeverityTokens(line)
    case Json => JsonStrings(line, 0) + SeverityTokens(line)
    case Auto =>
      if |line| > 0 && line[0] == '{' then JsonStrings(line, 0) + SeverityTokens(line)
      else if IsSyslogTimestamp(line) then SyslogHeader(line) + SeverityTokens(line)
      else if LooksLikeHttpd(line) then HttpdHost(line) + HttpdTime(line) + HttpdStatus(line) + SeverityTokens(line)
      else SeverityTokens(line)
  }

  function SeverityOf(plugin: Plugin, line: seq<Byte>): Severity {
    if plugin == Httpd
      || (plugin == Auto && !(|line| > 0 && line[0] == '{') && !IsSyslogTimestamp(line) && LooksLikeHttpd(line))
    then HttpdSeverity(line)
    else Severest(line)
  }

  method Parse(plugin: Plugin, line: seq<Byte>, tokens: seq<Token>) returns (severity: Severity, r: seq<Token>)
    ensures severity == SeverityOf(plugin, line) && r == tokens + TokensOf(plugin, line)
  {
    hide Severest, SeverityTokens, SyslogHeader, HttpdHost, HttpdTime, HttpdStatus, HttpdSeverity, JsonStrings;
    hide IsSyslogTimestamp, LooksLikeHttpd;
    match plugin {
      case Syslog => severity, r := ParseSyslog(line, tokens);
      case Httpd => severity, r := ParseHttpd(line, tokens);
      case Json => severity, r := ParseJson(line, tokens);
      case Auto =>
        if |line| > 0 && line[0] == '{' {
          severity, r := ParseJson(line, tokens);
        } else if IsSyslogTimestamp(line) {
          severity, r := ParseSyslog(line, tokens);
        } else if LooksLikeHttpd(line) {
          severity, r := ParseHttpd(line, tokens);
        } else {
          severity, r := AddSeverityToken(line, tokens);
        }
    }
  }

  /** `text` stands somewhere in the line, byte for byte. */
  ghost predicate Contains(line: seq<Byte>, text: seq<Byte>) {
    exists before: seq<Byte>, after: seq<Byte> :: line == before + text + after
  }

  lemma HttpdLooks(line: seq<Byte>)
    ensures LooksLikeHttpd(line) <==> Contains(line, "] \"")
  {
    if LooksLikeHttpd(line) {
      var i :| 0 <= i <= |line| - 3 && line[i] == ']' && line[i + 1] == ' ' && line[i + 2] == '\"';
      assert line == line[..i] + "] \"" + line[i + 3..];
    }
    if before: seq<Byte>, after: seq<Byte> :| line == before + "] \"" + after {
      var i := |before|;
      assert line[i] == ']' && line[i + 1] == ' ' && line[i + 2] == '\"';
    }
  }

  /**
   * What the automatic plugin does: a line that opens with a brace is JSON, else a stamped one is
   * syslog, else one that has a quote right after a closing bracket and a space is an access log,
   * and any other line has its keyword only.
   */
  lemma AutoIff(line: seq<Byte>)
    ensures var json := line != [] && line[0] == '{';
      var syslog := !json && Stamped(line);
      var httpd := !json && !syslog && Contains(line, "] \"");
      && TokensOf(Auto, line) == (
          if json then TokensOf(Json, line)
          else if syslog then TokensOf(Syslog, line)
          else if httpd then TokensOf(Httpd, line)
          else SeverityTokens(line))
      && SeverityOf(Auto, line) == (if httpd then SeverityOf(Httpd, line) else Severest(line))
      && SeverityOf(Json, line) == SeverityOf(Syslog, line) == Severest(line)
  {
    hide Severest, SeverityTokens, SyslogHeader, HttpdHost, HttpdTime, HttpdStatus, HttpdSeverity, JsonStrings;
    hide Stamped, IsSyslogTimestamp, Contains, LooksLikeHttpd;
    TimestampIff(line);
    HttpdLooks(line);
  }

  /** Every plugin yields ranges inside the line and a severity no weaker than the keywords demand. */
  lemma TokensInLine(plugin: Plugin, line: seq<Byte>)
    ensures InLine(line, TokensOf(plugin, line))
    ensures Code(SeverityOf(plugin, line)) >= Code(Severest(line))
  {
    hide Severest, SeverityTokens, SyslogHeader, HttpdHost, HttpdTime, HttpdStatus, JsonStrings, Quotes;
    hide IsSyslogTimestamp, LooksLikeHttpd, InLine;
    SeverityTokenSpansKeyword(line);
    JsonStringsShape(line, 0);
    InLineConcat(line, JsonStrings(line, 0), SeverityTokens(line));
    InLineConcat(line, SyslogHeader(line), SeverityTokens(line));
    InLineConcat(line, HttpdHost(line), HttpdTime(line));
    InLineConcat(line, HttpdHost(line) + HttpdTime(line), HttpdStatus(line));
    InLineConcat(line, HttpdHost(line) + HttpdTime(line) + HttpdStatus(line), SeverityTokens(line));
  }

  lemma InLineConcat(line: seq<Byte>, one: seq<Token>, two: seq<Token>)
    requires InLine(line, one) && InLine(line, two)
    ensures InLine(line, one + two)
  {
  }
}
