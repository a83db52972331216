// Severity levels, their join and keyword detection.
module SeverityModel {
  import opened Bytes

  datatype Severity = Trace | Debug | Info | Warn | Error | Fatal

  /** Position in the order of severities, as the native code numbers them. */
  function Code(s: Severity): (r: int)
    ensures 0 <= r <= 5 && (r == 0 <==> s == Trace) && (r == 5 <==> s == Fatal)
    ensures (r == 1 <==> s == Debug) && (r == 2 <==> s == Info) && (r == 3 <==> s == Warn) && (r == 4 <==> s == Error)
  {
    match s
    case Trace => 0
    case Debug => 1
    case Info => 2
    case Warn => 3
    case Error => 4
    case Fatal => 5
  }

  function FromCode(value: int): Severity {
    if value == 0 then Trace
    else if value == 1 then Debug
    else if value == 3 then Warn
    else if value == 4 then Error
    else if value == 5 then Fatal
    else Info
  }

  /** The native join over the whole integer range. */
  function SeverityJoin(left: int, right: int): int {
    if left < 0 || left > 5 || right < 0 || right > 5 then 2 else if left > right then left else right
  }

  /** Least severity at least as strong as both. */
  function Join(left: Severity, right: Severity): (r: Severity)
    ensures Code(r) >= Code(left) && Code(r) >= Code(right)
    ensures r == left || r == right
  {
    FromCode(SeverityJoin(Code(left), Code(right)))
  }

  /** Within the six codes the join is the larger one; any other code makes it that of Info. */
  lemma JoinOfCodes(left: int, right: int)
    ensures 0 <= left <= 5 && 0 <= right <= 5 ==>
      && SeverityJoin(left, right) >= left && SeverityJoin(left, right) >= right
      && (SeverityJoin(left, right) == left || SeverityJoin(left, right) == right)
    ensures !(0 <= left <= 5 && 0 <= right <= 5) ==> SeverityJoin(left, right) == 2
    ensures 0 <= left <= 5 ==> Code(FromCode(left)) == left
    ensures !(0 <= left <= 5) ==> FromCode(left) == Info
  {
  }

  datatype Keyword = Keyword(needle: seq<Byte>, severity: Severity)

  const KEYWORDS: seq<Keyword> := [
    Keyword("trace", Trace), Keyword("debug", Debug), Keyword("warn", Warn), Keyword("error", Error),
    Keyword("failed", Error), Keyword("panic", Fatal), Keyword("fatal", Fatal)]

  /** The severity a line deserves, keyword by keyword from the strongest down. */
  function Severest(line: seq<Byte>): Severity {
    if Occurs(line, "panic") || Occurs(line, "fatal") then Fatal
    else if Occurs(line, "error") || Occurs(line, "failed") then Error
    else if Occurs(line, "warn") then Warn
    else Info
  }

  /** `r` is the largest of Info and the severities of the listed keywords found in the line. */
  ghost predicate IsLargest(line: seq<Byte>, keywords: seq<Keyword>, r: Severity) {
    && Code(r) >= Code(Info)
    && (forall k | k in keywords && Occurs(line, k.needle) :: Code(r) >= Code(k.severity))
    && (r == Info || exists k :: k in keywords && Occurs(line, k.needle) && k.severity == r)
  }

  lemma CodeInjective(a: Severity, b: Severity)
    requires Code(a) == Code(b)
    ensures a == b
  {
  }

  /** Being largest depends on which keywords are listed, not on their order, and fixes the result. */
  lemma LargestUnique(line: seq<Byte>, one: seq<Keyword>, two: seq<Keyword>, a: Severity, b: Severity)
    requires forall k :: k in one <==> k in two
    requires IsLargest(line, one, a) && IsLargest(line, two, b)
    ensures a == b
  {
    if Code(a) == Code(b) { CodeInjective(a, b); }
  }

  lemma SeverestIsLargest(line: seq<Byte>)
    ensures IsLargest(line, KEYWORDS, Severest(line))
  {
    var r := Severest(line);
    if r == Fatal {
      assert KEYWORDS[5] in KEYWORDS && KEYWORDS[6] in KEYWORDS;
    } else if r == Error {
      assert KEYWORDS[3] in KEYWORDS && KEYWORDS[4] in KEYWORDS;
    } else if r == Warn {
      assert KEYWORDS[2] in KEYWORDS;
    }
  }

  /** Folds the join over a keyword list, whatever its order. */
  method DetectWith(line: seq<Byte>, keywords: seq<Keyword>) returns (result: Severity)
    ensures IsLargest(line, keywords, result)
  {
    result := Info;
    for i := 0 to |keywords|
      invariant IsLargest(line, keywords[..i], result)
    {
      assert keywords[..i + 1] == keywords[..i] + [keywords[i]];
      if FindIgnoringCase(line, keywords[i].needle).Some? {
        assert keywords[i] in keywords[..i + 1];
        result := Join(result, keywords[i].severity);
      }
    }
    assert keywords[..|keywords|] == keywords;
  }

  method Detect(line: seq<Byte>) returns (result: Severity)
    ensures result == Severest(line)
  {
    result := DetectWith(line, KEYWORDS);
    SeverestIsLargest(line);
    LargestUnique(line, KEYWORDS, KEYWORDS, result, Severest(line));
  }

  /** The rank of a line: each of the five keywords lifts it to its own class, and nothing else does. */
  lemma KeywordRank(line: seq<Byte>)
    ensures Code(Severest(line)) >= 2
    ensures Code(Severest(line)) >= 3 <==>
      Occurs(line, "warn") || Occurs(line, "error") || Occurs(line, "failed") || Occurs(line, "panic")
      || Occurs(line, "fatal")
    ensures Code(Severest(line)) >= 4 <==>
      Occurs(line, "error") || Occurs(line, "failed") || Occurs(line, "panic") || Occurs(line, "fatal")
    ensures Code(Severest(line)) >= 5 <==> Occurs(line, "panic") || Occurs(line, "fatal")
  {
    hide Occurs;
  }

  /** Context around a line can only raise its severity; letter case never changes it. */
  lemma SeverestMonotone(before: seq<Byte>, line: seq<Byte>, after: seq<Byte>)
    ensures Code(Severest(line)) <= Code(Severest(before + line + after))
  {
    forall needle | Occurs(line, needle) ensures Occurs(before + line + after, needle) {
      OccursInside(before, line, after, needle);
    }
  }

  lemma SeverestIgnoresCase(s: seq<Byte>, t: seq<Byte>)
    requires SameIgnoringCase(s, t)
    ensures Severest(s) == Severest(t)
  {
    forall needle ensures Occurs(s, needle) <==> Occurs(t, needle) {
      if i: nat :| i <= |s| && OccursAt(s, needle, i) {
        OccursIgnoresCase(s, t, needle, i);
      }
      if i: nat :| i <= |t| && OccursAt(t, needle, i) {
        OccursIgnoresCase(s, t, needle, i);
      }
    }
  }
}
