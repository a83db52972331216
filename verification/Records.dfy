// Record reading from a buffered stream.
module Records {
  import opened Options
  import opened Bytes

  const MAXIMUM_RECORD_BYTES: nat := 1024 * 1024

  datatype IoError = RecordTooLong

  /** n bytes that end with the only newline among them, or all bytes when there is no newline. */
  ghost predicate IsRecordEnd(s: seq<Byte>, n: nat) {
    || (0 < n <= |s| && s[n - 1] == '\n' && '\n' !in s[..n - 1])
    || (n == |s| && '\n' !in s)
  }

  /** First index past the first newline, or the length when there is none. */
  function RecordLength(s: seq<Byte>): (n: nat)
    ensures n <= |s| && (s != [] ==> n > 0)
    ensures IsRecordEnd(s, n)
  {
    assert s[0..] == s;
    match FindByte(s, '\n', 0) case None => |s| case Some(i) => i + 1
  }

  lemma RecordEndUnique(s: seq<Byte>, m: nat, n: nat)
    requires IsRecordEnd(s, m) && IsRecordEnd(s, n) && m <= n
    ensures m == n
  {
  }

  /** The stream cut after every newline; a last piece without one is kept. */
  function Split(s: seq<Byte>): seq<seq<Byte>> {
    if s == [] then [] else [s[..RecordLength(s)]] + Split(s[RecordLength(s)..])
  }

  function Concat(pieces: seq<seq<Byte>>): seq<Byte> {
    if pieces == [] then [] else pieces[0] + Concat(pieces[1..])
  }

  /** Exactly one newline per record, at its end; the last record alone may lack it. */
  lemma {:induction false} SplitShape(s: seq<Byte>)
    ensures Concat(Split(s)) == s
    ensures forall k | 0 <= k < |Split(s)| :: Split(s)[k] != [] && '\n' !in Split(s)[k][..|Split(s)[k]| - 1]
    ensures forall k | 0 <= k < |Split(s)| - 1 :: Split(s)[k][|Split(s)[k]| - 1] == '\n'
  {
    hide RecordLength, FindByte;
    if s != [] {
      var n := RecordLength(s);
      SplitShape(s[n..]);
      FirstRecordShape(s, n);
      assert Split(s) == [s[..n]] + Split(s[n..]);
      assert Concat(Split(s)) == s[..n] + Concat(Split(s[n..])) by { assert Split(s)[1..] == Split(s[n..]); }
      if n == |s| { assert Split(s[n..]) == []; }
    }
  }

  lemma FirstRecordShape(s: seq<Byte>, n: nat)
    requires s != [] && 0 < n <= |s| && IsRecordEnd(s, n)
    ensures '\n' !in s[..n][..n - 1] && (n < |s| ==> s[..n][n - 1] == '\n')
    ensures s == s[..n] + s[n..]
  {
    assert s[..n][..n - 1] == s[..n - 1];
  }

  /** A buffered reader: each request exposes some nonempty part of what is left, as the device pleases. */
  class BufferedInput {
    var remaining: seq<Byte>

    constructor (data: seq<Byte>)
      ensures remaining == data
    {
      remaining := data;
    }

    method FillBuf() returns (available: seq<Byte>)
      ensures available <= remaining
      ensures available == [] <==> remaining == []
    {
      if remaining == [] {
        return [];
      }
      var n: nat :| 1 <= n <= |remaining|;
      available := remaining[..n];
    }

    method Consume(length: nat)
      requires length <= |remaining|
      modifies this
      ensures remaining == old(remaining)[length..]
    {
      remaining := remaining[length..];
    }
  }

  /** What a scan of the first n bytes says about the record: its end, or that it goes on. */
  lemma RecordLengthOfPrefix(s: seq<Byte>, n: nat)
    requires n <= |s|
    ensures RecordLength(s) <= n ==> RecordLength(s[..n]) == RecordLength(s)
    ensures RecordLength(s) > n ==> RecordLength(s[..n]) == n && '\n' !in s[..n]
  {
    hide FindByte, RecordLength;
    var m := RecordLength(s);
    if m <= n {
      assert m > 0 ==> s[..n][..m - 1] == s[..m - 1];
      assert IsRecordEnd(s[..n], m);
      SameRecordEnd(s[..n], m, RecordLength(s[..n]));
    } else {
      assert s[..n] == s[..m - 1][..n];
      SameRecordEnd(s[..n], n, RecordLength(s[..n]));
    }
  }

  lemma SameRecordEnd(s: seq<Byte>, m: nat, n: nat)
    requires IsRecordEnd(s, m) && IsRecordEnd(s, n)
    ensures m == n
  {
    if m <= n { RecordEndUnique(s, m, n); } else { RecordEndUnique(s, n, m); }
  }

  lemma RecordLengthAfter(s: seq<Byte>, n: nat)
    requires n <= |s| && '\n' !in s[..n]
    ensures RecordLength(s) == n + RecordLength(s[n..])
  {
    hide FindByte, RecordLength;
    var m := RecordLength(s[n..]);
    assert s == s[..n] + s[n..];
    if m > 0 { assert s[..n + m - 1] == s[..n] + s[n..][..m - 1]; }
    assert IsRecordEnd(s, n + m);
    SameRecordEnd(s, n + m, RecordLength(s));
  }

  /**
   * However the buffer is filled, the record read is the next one of the stream, and reading fails
   * exactly when that record, newline included, is longer than the limit.
   */
  method ReadRecord(input: BufferedInput) returns (r: Result<nat, IoError>, line: seq<Byte>)
    modifies input
    ensures line + input.remaining == old(input.remaining) && |line| <= MAXIMUM_RECORD_BYTES
    ensures r.Ok? <==> RecordLength(old(input.remaining)) <= 1048576
    ensures r.Ok? ==> r.value == |line| && line == old(input.remaining)[..RecordLength(old(input.remaining))]
  {
    hide RecordLength, FindByte;
    line := [];
    ghost var all := input.remaining;
    while true
      invariant line + input.remaining == all && |line| <= MAXIMUM_RECORD_BYTES
      invariant '\n' !in line
      invariant RecordLength(all) == |line| + RecordLength(input.remaining)
      decreases |input.remaining|
    {
      var available := input.FillBuf();
      if available == [] {
        assert all[..|line|] == line;
        return Ok(|line|), line;
      }
      ghost var left, before := input.remaining, line;
      assert available == left[..|available|];
      ScanStep(left, |available|);
      var length := RecordLength(available);
      if |line| + length > MAXIMUM_RECORD_BYTES {
        return Err(RecordTooLong), line;
      }
      line := line + available[..length];
      var complete := available[length - 1] == '\n';
      input.Consume(length);
      TakePiece(all, before, left, length);
      if complete {
        return Ok(|line|), line;
      }
      NoNewlineInConcat(before, left[..length]);
    }
  }

  lemma TakePiece(all: seq<Byte>, line: seq<Byte>, left: seq<Byte>, n: nat)
    requires n <= |left| && all == line + left
    ensures line + left[..n] + left[n..] == all
    ensures all[..|line| + n] == line + left[..n]
  {
    assert left[..n] + left[n..] == left;
  }

  lemma NoNewlineInConcat(one: seq<Byte>, two: seq<Byte>)
    requires '\n' !in one && '\n' !in two
    ensures '\n' !in one + two
  {
  }

  /** Scanning n bytes of what is left either finds the end of the record or takes all n. */
  lemma ScanStep(left: seq<Byte>, n: nat)
    requires 0 < n <= |left|
    ensures var m := RecordLength(left[..n]);
      && 0 < m <= n && m <= RecordLength(left)
      && left[..n][..m] == left[..m]
      && left[..n][m - 1] == left[m - 1]
      && (left[m - 1] == '\n' ==> RecordLength(left) == m)
      && (left[m - 1] != '\n' ==> '\n' !in left[..m] && RecordLength(left) == m + RecordLength(left[m..]))
  {
    hide RecordLength, FindByte;
    var m := RecordLength(left[..n]);
    RecordLengthOfPrefix(left, n);
    assert left[..n][..m] == left[..m];
    if left[m - 1] == '\n' {
      assert left[..n][m - 1] in left[..n];
    } else {
      assert IsRecordEnd(left[..n], m);
      RecordLengthAfter(left, m);
    }
  }
}
