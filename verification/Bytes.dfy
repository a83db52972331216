// Log bytes and the byte classes of the Rust standard library.
module Bytes {
  import opened Options

  /** A byte, written as the character of the same code, so that ASCII literals read as in the source. */
  type Byte = c: char | c as int < 256

  predicate IsUpper(b: Byte) { 'A' <= b <= 'Z' }

  predicate IsLower(b: Byte) { 'a' <= b <= 'z' }

  predicate IsDigit(b: Byte) { '0' <= b <= '9' }

  /** Space, tab, line feed, form feed or carriage return. */
  predicate IsSpace(b: Byte) { b in {' ', '\t', '\n', '\U{0C}', '\r'} }

  function ToLower(b: Byte): Byte {
    if IsUpper(b) then (b as int + 32) as char else b
  }

  /** The classes by code: ASCII letters, digits and white space; case differs by 32. */
  lemma ClassesByCode(b: Byte)
    ensures IsUpper(b) <==> 65 <= b as int <= 90
    ensures IsLower(b) <==> 97 <= b as int <= 122
    ensures IsDigit(b) <==> 48 <= b as int <= 57
    ensures IsSpace(b) <==> b as int in {9, 10, 12, 13, 32}
    ensures ToLower(b) as int == if 65 <= b as int <= 90 then b as int + 32 else b as int
  {
  }

  /** Index of the first `b` at or after `from`. */
  function FindByte(s: seq<Byte>, b: Byte, from: nat): (r: Option<nat>)
    requires from <= |s|
    ensures r.Some? ==> from <= r.value < |s| && s[r.value] == b && b !in s[from..r.value]
    ensures r.None? ==> b !in s[from..]
    decreases |s| - from
  {
    if from == |s| then None else if s[from] == b then Some(from) else FindByte(s, b, from + 1)
  }

  /** Index of the first byte that is not white space at or after `from`. */
  function FindNonSpace(s: seq<Byte>, from: nat): (r: Option<nat>)
    requires from <= |s|
    ensures r.Some? ==>
      && from <= r.value < |s| && !IsSpace(s[r.value])
      && forall i | from <= i < r.value :: IsSpace(s[i])
    ensures r.None? ==> forall i | from <= i < |s| :: IsSpace(s[i])
    decreases |s| - from
  {
    if from == |s| then None else if !IsSpace(s[from]) then Some(from) else FindNonSpace(s, from + 1)
  }

  /** Index of the first white-space byte at or after `from`. */
  function FindSpace(s: seq<Byte>, from: nat): (r: Option<nat>)
    requires from <= |s|
    ensures r.Some? ==>
      && from <= r.value < |s| && IsSpace(s[r.value])
      && forall i | from <= i < r.value :: !IsSpace(s[i])
    ensures r.None? ==> forall i | from <= i < |s| :: !IsSpace(s[i])
    decreases |s| - from
  {
    if from == |s| then None else if IsSpace(s[from]) then Some(from) else FindSpace(s, from + 1)
  }

  /** `needle` occurs at index `i`, letter case aside. */
  predicate OccursAt(s: seq<Byte>, needle: seq<Byte>, i: nat) {
    i + |needle| <= |s| && forall j | 0 <= j < |needle| :: ToLower(s[i + j]) == ToLower(needle[j])
  }

  predicate Occurs(s: seq<Byte>, needle: seq<Byte>) {
    exists i: nat | i <= |s| :: OccursAt(s, needle, i)
  }

  /** First occurrence at or after `from`, letter case aside; windows shorter than the needle do not exist. */
  function FindIgnoringCaseFrom(s: seq<Byte>, needle: seq<Byte>, from: nat): (r: Option<nat>)
    requires from <= |s|
    ensures r.Some? ==>
      && from <= r.value && OccursAt(s, needle, r.value)
      && forall i: nat | from <= i < r.value :: !OccursAt(s, needle, i)
    ensures r.None? ==> forall i: nat | from <= i :: !OccursAt(s, needle, i)
    decreases |s| - from
  {
    if from + |needle| > |s| then None
    else if OccursAt(s, needle, from) then Some(from)
    else if from == |s| then None
    else FindIgnoringCaseFrom(s, needle, from + 1)
  }

  function FindIgnoringCase(s: seq<Byte>, needle: seq<Byte>): (r: Option<nat>)
    ensures r.Some? <==> Occurs(s, needle)
    ensures r.Some? ==> OccursAt(s, needle, r.value) && forall i: nat | i < r.value :: !OccursAt(s, needle, i)
  {
    if needle == [] then (assert OccursAt(s, needle, 0); Some(0)) else FindIgnoringCaseFrom(s, needle, 0)
  }

  /** Adding bytes around a text loses no occurrence. */
  lemma OccursInside(before: seq<Byte>, s: seq<Byte>, after: seq<Byte>, needle: seq<Byte>)
    requires Occurs(s, needle)
    ensures Occurs(before + s + after, needle)
  {
    var i: nat :| i <= |s| && OccursAt(s, needle, i);
    var whole := before + s + after;
    forall j | 0 <= j < |needle| ensures ToLower(whole[|before| + i + j]) == ToLower(needle[j]) {
      assert whole[|before| + i + j] == s[i + j];
    }
    assert OccursAt(whole, needle, |before| + i);
  }

  predicate SameIgnoringCase(s: seq<Byte>, t: seq<Byte>) {
    |s| == |t| && forall i | 0 <= i < |s| :: ToLower(s[i]) == ToLower(t[i])
  }

  /** A needle occurs where some part of the text equals it apart from letter case. */
  lemma OccursIff(s: seq<Byte>, needle: seq<Byte>)
    ensures Occurs(s, needle) <==> exists before: seq<Byte>, part: seq<Byte>, after: seq<Byte> ::
      s == before + part + after && SameIgnoringCase(part, needle)
  {
    if i: nat :| i <= |s| && OccursAt(s, needle, i) {
      assert s == s[..i] + s[i..i + |needle|] + s[i + |needle|..];
      assert SameIgnoringCase(s[i..i + |needle|], needle);
    }
    if before: seq<Byte>, part: seq<Byte>, after: seq<Byte> :|
      s == before + part + after && SameIgnoringCase(part, needle)
    {
      assert forall j | 0 <= j < |needle| :: s[|before| + j] == part[j];
      assert OccursAt(s, needle, |before|);
    }
  }

  lemma OccursIgnoresCase(s: seq<Byte>, t: seq<Byte>, needle: seq<Byte>, i: nat)
    requires SameIgnoringCase(s, t)
    ensures OccursAt(s, needle, i) <==> OccursAt(t, needle, i)
  {
  }
}
