// Extraction of a process id from "[1234]" or "pid=1234".
module Pid {
  import opened Options
  import opened Bytes
  import opened Decimal

  /** The bytes between the first '[' and the first ']' after it. */
  function BracketField(line: seq<Byte>): Option<seq<Byte>> {
    match FindByte(line, '[', 0)
    case None => None
    case Some(start) =>
      match FindByte(line, ']', start + 1)
      case None => None
      case Some(end) => Some(line[start + 1..end])
  }

  predicate KeyAt(line: seq<Byte>, i: nat) {
    i + 4 <= |line| && line[i] == 'p' && line[i + 1] == 'i' && line[i + 2] == 'd' && line[i + 3] == '='
  }

  /** The four bytes from i on read "pid=". */
  ghost predicate Spells(line: seq<Byte>, i: nat) {
    i + 4 <= |line| && line[i..i + 4] == "pid="
  }

  lemma SpellsIff(line: seq<Byte>, i: nat)
    ensures Spells(line, i) <==> KeyAt(line, i)
  {
    if i + 4 <= |line| { assert line[i..i + 4] == [line[i], line[i + 1], line[i + 2], line[i + 3]]; }
  }

  /** Position of the first "pid=", letter case included, at or after `from`. */
  function FindKey(line: seq<Byte>, from: nat): (r: Option<nat>)
    ensures r.Some? ==>
      && from <= r.value && KeyAt(line, r.value)
      && forall i: nat | from <= i < r.value :: !KeyAt(line, i)
    ensures r.None? ==> forall i: nat | from <= i :: !KeyAt(line, i)
    decreases |line| - from
  {
    if from + 4 > |line| then None else if KeyAt(line, from) then Some(from) else FindKey(line, from + 1)
  }

  /** Number of digits at the start of `s`. */
  function DigitRun(s: seq<Byte>): (n: nat)
    ensures n <= |s| && AllDigits(s[..n]) && (n < |s| ==> !IsDigit(s[n]))
  {
    if s == [] || !IsDigit(s[0]) then 0
    else
      var n := DigitRun(s[1..]);
      assert s[..n + 1] == [s[0]] + s[1..][..n];
      n + 1
  }

  function FromBrackets(line: seq<Byte>): Option<nat> {
    match BracketField(line) case None => None case Some(field) => ParseDecimal(field)
  }

  function FromKey(line: seq<Byte>): Option<nat> {
    match FindKey(line, 0)
    case None => None
    case Some(i) => ParseDecimal(line[i + 4..][..DigitRun(line[i + 4..])])
  }

  /** Brackets first, then the key; 0 when neither gives a number. */
  function ExtractPid(line: seq<Byte>): (pid: nat)
    ensures pid <= UINT32_MAX
  {
    PidsFit(line);
    match FromBrackets(line)
    case Some(pid) => pid
    case None => FromKey(line).GetOr(0)
  }

  lemma PidsFit(line: seq<Byte>)
    ensures FromBrackets(line).Some? ==> FromBrackets(line).value <= UINT32_MAX
    ensures FromKey(line).Some? ==> FromKey(line).value <= UINT32_MAX
  {
    if FromBrackets(line).Some? { ParseDecimalExact(BracketField(line).value, FromBrackets(line).value); }
    if FromKey(line).Some? {
      var i := FindKey(line, 0).value;
      ParseDecimalExact(line[i + 4..][..DigitRun(line[i + 4..])], FromKey(line).value);
    }
  }

  lemma FindByteFirst(s: seq<Byte>, before: seq<Byte>, b: Byte, after: seq<Byte>, from: nat)
    requires s == before + [b] + after && from <= |before| && b !in before[from..]
    ensures FindByte(s, b, from) == Some(|before|)
  {
    var r := FindByte(s, b, from);
    assert s[|before|] == b;
    assert s[from..][|before| - from] == b;
    assert s[from..|before|] == before[from..];
  }

  /** A bracketed number is found, whatever surrounds it, if no bracket opens before it. */
  lemma BracketRoundTrip(prefix: seq<Byte>, pid: nat, rest: seq<Byte>)
    requires pid <= 4294967295 && '[' !in prefix
    ensures ExtractPid(prefix + "[" + Numeral(pid) + "]" + rest) == pid
  {
    var digits := Numeral(pid);
    var line := prefix + "[" + digits + "]" + rest;
    assert line == prefix + ['['] + (digits + "]" + rest);
    FindByteFirst(line, prefix, '[', digits + "]" + rest, 0);
    var before := prefix + "[" + digits;
    assert before[|prefix| + 1..] == digits;
    forall i | 0 <= i < |digits| ensures digits[i] != ']' { }
    assert line == before + [']'] + rest;
    FindByteFirst(line, before, ']', rest, |prefix| + 1);
    assert line[|prefix| + 1..|before|] == digits;
    ParseNumeral(pid);
  }

  lemma FindKeyFirst(line: seq<Byte>, prefix: seq<Byte>, rest: seq<Byte>)
    requires line == prefix + "pid=" + rest
    requires forall i: nat | i < |prefix| :: !Spells(prefix, i)
    ensures FindKey(line, 0) == Some(|prefix|)
  {
    assert KeyAt(line, |prefix|);
    forall i: nat | i < |prefix| ensures !KeyAt(line, i) {
      SpellsIff(prefix, i);
      assert !KeyAt(prefix, i);
    }
  }

  lemma {:induction false} DigitRunOf(digits: seq<Byte>, rest: seq<Byte>)
    requires AllDigits(digits) && (rest == [] || !IsDigit(rest[0]))
    ensures DigitRun(digits + rest) == |digits|
  {
    if digits == [] {
      assert digits + rest == rest;
    } else {
      DigitRunOf(digits[1..], rest);
      assert (digits + rest)[1..] == digits[1..] + rest;
    }
  }

  /** A keyed number is found when no bracketed one takes precedence and the key is the first of its kind. */
  lemma KeyRoundTrip(prefix: seq<Byte>, pid: nat, rest: seq<Byte>)
    requires pid <= 4294967295 && (rest == [] || !IsDigit(rest[0]))
    requires forall i: nat | i < |prefix| :: !Spells(prefix, i)
    requires forall p :: !BracketNumber(prefix + "pid=" + Numeral(pid) + rest, p)
    ensures ExtractPid(prefix + "pid=" + Numeral(pid) + rest) == pid
  {
    var digits := Numeral(pid);
    var line := prefix + "pid=" + digits + rest;
    if FromBrackets(line).Some? { BracketNumberIff(line, FromBrackets(line).value); }
    assert line == prefix + "pid=" + (digits + rest);
    FindKeyFirst(line, prefix, digits + rest);
    assert line[|prefix| + 4..] == digits + rest;
    DigitRunOf(digits, rest);
    assert (digits + rest)[..|digits|] == digits;
    ParseNumeral(pid);
  }

  lemma NoBracketNoField(line: seq<Byte>)
    requires '[' !in line
    ensures FromBrackets(line).None?
  {
  }

  /** No opening bracket on the line: then the first key decides, whatever surrounds it. */
  lemma KeyRoundTripWithoutBrackets(prefix: seq<Byte>, pid: nat, rest: seq<Byte>)
    requires pid <= 4294967295 && (rest == [] || !IsDigit(rest[0]))
    requires forall i: nat | i < |prefix| :: !Spells(prefix, i)
    requires '[' !in prefix + rest
    ensures ExtractPid(prefix + "pid=" + Numeral(pid) + rest) == pid
  {
    var line := prefix + "pid=" + Numeral(pid) + rest;
    assert forall i | 0 <= i < |Numeral(pid)| :: Numeral(pid)[i] != '[';
    assert '[' !in line by {
      assert '[' !in prefix && '[' !in rest && '[' !in "pid=" && '[' !in Numeral(pid);
    }
    forall p ensures !BracketNumber(line, p) {
      BracketNumberIff(line, p);
      NoBracketNoField(line);
    }
    KeyRoundTrip(prefix, pid, rest);
  }

  // ----- Which number is extracted -----

  ghost predicate IsNumber(field: seq<Byte>, pid: nat) {
    field != [] && AllDigits(field) && Value(field) == pid && pid <= 4294967295
  }

  /** `from` and `to` delimit the text between the first '[' and the next ']'. */
  ghost predicate IsBracketField(line: seq<Byte>, from: nat, to: nat) {
    && 0 < from <= to < |line|
    && line[from - 1] == '[' && '[' !in line[0..from - 1]
    && line[to] == ']' && ']' !in line[from..to]
  }

  ghost predicate BracketNumber(line: seq<Byte>, pid: nat) {
    exists from: nat, to: nat :: IsBracketField(line, from, to) && IsNumber(line[from..to], pid)
  }

  /** `from` and `to` delimit the digits, as many as there are, after the first "pid=". */
  ghost predicate IsKeyField(line: seq<Byte>, from: nat, to: nat) {
    && 4 <= from <= to <= |line|
    && Spells(line, from - 4) && (forall k: nat | k < from - 4 :: !Spells(line, k))
    && AllDigits(line[from..to]) && (to < |line| ==> !IsDigit(line[to]))
  }

  ghost predicate KeyNumber(line: seq<Byte>, pid: nat) {
    exists from: nat, to: nat :: IsKeyField(line, from, to) && IsNumber(line[from..to], pid)
  }

  lemma FoundFirst(s: seq<Byte>, b: Byte, from: nat, i: nat)
    requires from <= i < |s| && s[i] == b && b !in s[from..i]
    ensures FindByte(s, b, from) == Some(i)
  {
    assert s[from..][i - from] == b;
  }

  lemma BracketFieldFound(line: seq<Byte>, from: nat, to: nat)
    requires IsBracketField(line, from, to)
    ensures BracketField(line) == Some(line[from..to])
  {
    FoundFirst(line, '[', 0, from - 1);
    FoundFirst(line, ']', from, to);
  }

  lemma BracketNumberIff(line: seq<Byte>, pid: nat)
    ensures FromBrackets(line) == Some(pid) <==> BracketNumber(line, pid)
  {
    if FromBrackets(line) == Some(pid) {
      var open := FindByte(line, '[', 0).value;
      var close := FindByte(line, ']', open + 1).value;
      ParseDecimalExact(line[open + 1..close], pid);
      assert IsBracketField(line, open + 1, close);
    }
    if BracketNumber(line, pid) {
      var from: nat, to: nat :| IsBracketField(line, from, to) && IsNumber(line[from..to], pid);
      BracketFieldFound(line, from, to);
      ParseDecimalExact(line[from..to], pid);
    }
  }

  lemma KeyFieldFound(line: seq<Byte>, from: nat, to: nat)
    requires IsKeyField(line, from, to)
    ensures FindKey(line, 0) == Some(from - 4)
    ensures line[from..][..DigitRun(line[from..])] == line[from..to]
  {
    assert line[from..] == line[from..to] + line[to..];
    forall k: nat ensures Spells(line, k) <==> KeyAt(line, k) {
      SpellsIff(line, k);
    }
    DigitRunOf(line[from..to], line[to..]);
  }

  lemma KeyNumberIff(line: seq<Byte>, pid: nat)
    ensures FromKey(line) == Some(pid) <==> KeyNumber(line, pid)
  {
    if FromKey(line) == Some(pid) {
      var from := FindKey(line, 0).value + 4;
      var n := DigitRun(line[from..]);
      ParseDecimalExact(line[from..][..n], pid);
      assert line[from..][..n] == line[from..from + n];
      forall k: nat ensures Spells(line, k) <==> KeyAt(line, k) {
        SpellsIff(line, k);
      }
      assert IsKeyField(line, from, from + n);
    }
    if KeyNumber(line, pid) {
      var from: nat, to: nat :| IsKeyField(line, from, to) && IsNumber(line[from..to], pid);
      KeyFieldFound(line, from, to);
      ParseDecimalExact(line[from..to], pid);
    }
  }

  /**
   * The bracketed number if there is one, else the keyed number if there is one, else 0.  A bracket
   * text that is no 32-bit numeral does not count, nor does a later bracket or key.
   */
  lemma ExtractPidIff(line: seq<Byte>, pid: nat)
    ensures ExtractPid(line) == pid <==> (
      || BracketNumber(line, pid)
      || ((forall p: nat :: !BracketNumber(line, p)) && KeyNumber(line, pid))
      || ((forall p: nat :: !BracketNumber(line, p) && !KeyNumber(line, p)) && pid == 0))
  {
    hide FromBrackets, FromKey, BracketNumber, KeyNumber;
    forall p: nat
      ensures FromBrackets(line) == Some(p) <==> BracketNumber(line, p)
      ensures FromKey(line) == Some(p) <==> KeyNumber(line, p)
    {
      BracketNumberIff(line, p);
      KeyNumberIff(line, p);
    }
  }
}
