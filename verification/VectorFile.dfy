// The vector file: a versioned header and fixed 64-byte little-endian records, read strictly.
module VectorFile {
  import opened Options
  import opened Vectors
  import opened Ieee754

  type Octet = x: int | 0 <= x < 256

  /** "CCZEVEC" and format version 1. */
  const HEADER: seq<Octet> := [67, 67, 90, 69, 86, 69, 67, 1]

  const VEC_SIZE: nat := 64

  type StateVector = Vector<Bits64>

  datatype ReadError = UnexpectedEof | UnsupportedHeader | InvalidFeature

  // ----- Little-endian words -----

  function Power256(n: nat): (p: nat)
    ensures p > 0
  {
    if n == 0 then 1 else 256 * Power256(n - 1)
  }

  function ToLittleEndian(x: nat, n: nat): (r: seq<Octet>)
    ensures |r| == n
  {
    if n == 0 then [] else [x % 256] + ToLittleEndian(x / 256, n - 1)
  }

  function FromLittleEndian(s: seq<Octet>): nat {
    if s == [] then 0 else s[0] + 256 * FromLittleEndian(s[1..])
  }

  lemma {:induction false} WordRoundTrip(x: nat, n: nat)
    requires x < Power256(n)
    ensures FromLittleEndian(ToLittleEndian(x, n)) == x
  {
    if n > 0 { WordRoundTrip(x / 256, n - 1); }
  }

  lemma {:induction false} BytesRoundTrip(s: seq<Octet>)
    ensures FromLittleEndian(s) < Power256(|s|)
    ensures ToLittleEndian(FromLittleEndian(s), |s|) == s
  {
    if s != [] {
      BytesRoundTrip(s[1..]);
      LowByte(s[0], FromLittleEndian(s[1..]));
    }
  }

  lemma LowByte(b: Octet, high: nat)
    ensures (b + 256 * high) % 256 == b && (b + 256 * high) / 256 == high
  {
  }

  lemma EightBytes()
    ensures Power256(8) == TWO_64
  {
    assert Power256(4) == 0x1_0000_0000;
  }

  function DecodeComponent(buffer: seq<Octet>, offset: nat): Bits64
    requires offset + 8 <= |buffer|
  {
    BytesRoundTrip(buffer[offset..offset + 8]);
    EightBytes();
    FromLittleEndian(buffer[offset..offset + 8])
  }

  function ToBinary(v: StateVector): (r: seq<Octet>)
    ensures |r| == VEC_SIZE
  {
    ToLittleEndian(v.length, 8) + ToLittleEndian(v.severity, 8) + ToLittleEndian(v.frequency, 8)
    + ToLittleEndian(v.timestamp, 8) + ToLittleEndian(v.processId, 8) + ToLittleEndian(v.entropy, 8)
    + ToLittleEndian(v.zscore, 8) + ToLittleEndian(v.protocol, 8)
  }

  function FromBinary(buffer: seq<Octet>): StateVector
    requires |buffer| == VEC_SIZE
  {
    Vector(
      DecodeComponent(buffer, 0), DecodeComponent(buffer, 8), DecodeComponent(buffer, 16),
      DecodeComponent(buffer, 24), DecodeComponent(buffer, 32), DecodeComponent(buffer, 40),
      DecodeComponent(buffer, 48), DecodeComponent(buffer, 56))
  }

  lemma ComponentAt(before: seq<Octet>, x: Bits64, after: seq<Octet>)
    ensures DecodeComponent(before + ToLittleEndian(x, 8) + after, |before|) == x
  {
    var s := before + ToLittleEndian(x, 8) + after;
    assert s[|before|..|before| + 8] == ToLittleEndian(x, 8);
    EightBytes();
    WordRoundTrip(x, 8);
  }

  /** Every bit of every feature survives serialization. */
  lemma BinaryRoundTrip(v: StateVector)
    ensures FromBinary(ToBinary(v)) == v
  {
    hide ToLittleEndian, FromLittleEndian, DecodeComponent;
    var a, b := ToLittleEndian(v.length, 8), ToLittleEndian(v.severity, 8);
    var c, d := ToLittleEndian(v.frequency, 8), ToLittleEndian(v.timestamp, 8);
    var e, f := ToLittleEndian(v.processId, 8), ToLittleEndian(v.entropy, 8);
    var g, h := ToLittleEndian(v.zscore, 8), ToLittleEndian(v.protocol, 8);
    var s := ToBinary(v);
    assert s == [] + a + (b + c + d + e + f + g + h);
    assert s == a + b + (c + d + e + f + g + h);
    assert s == (a + b) + c + (d + e + f + g + h);
    assert s == (a + b + c) + d + (e + f + g + h);
    assert s == (a + b + c + d) + e + (f + g + h);
    assert s == (a + b + c + d + e) + f + (g + h);
    assert s == (a + b + c + d + e + f) + g + h;
    assert s == (a + b + c + d + e + f + g) + h + [];
    ComponentAt([], v.length, b + c + d + e + f + g + h);
    ComponentAt(a, v.severity, c + d + e + f + g + h);
    ComponentAt(a + b, v.frequency, d + e + f + g + h);
    ComponentAt(a + b + c, v.timestamp, e + f + g + h);
    ComponentAt(a + b + c + d, v.processId, f + g + h);
    ComponentAt(a + b + c + d + e, v.entropy, g + h);
    ComponentAt(a + b + c + d + e + f, v.zscore, h);
    ComponentAt(a + b + c + d + e + f + g, v.protocol, []);
  }

  lemma ComponentBytes(s: seq<Octet>, offset: nat)
    requires offset + 8 <= |s|
    ensures ToLittleEndian(DecodeComponent(s, offset), 8) == s[offset..offset + 8]
  {
    BytesRoundTrip(s[offset..offset + 8]);
  }

  /** Every 64-byte record is the serialization of what it decodes to. */
  lemma RecordRoundTrip(s: seq<Octet>)
    requires |s| == VEC_SIZE
    ensures ToBinary(FromBinary(s)) == s
  {
    hide ToLittleEndian, FromLittleEndian, DecodeComponent;
    ComponentBytes(s, 0);
    ComponentBytes(s, 8);
    ComponentBytes(s, 16);
    ComponentBytes(s, 24);
    ComponentBytes(s, 32);
    ComponentBytes(s, 40);
    ComponentBytes(s, 48);
    ComponentBytes(s, 56);
    assert s == s[0..8] + s[8..16] + s[16..24] + s[24..32] + s[32..40] + s[40..48] + s[48..56] + s[56..64];
  }

  /** The value of eight bytes, the least significant first. */
  ghost function WordOf(b0: int, b1: int, b2: int, b3: int, b4: int, b5: int, b6: int, b7: int): int {
    b0 + 256 * b1 + 65536 * b2 + 16777216 * b3 + 4294967296 * b4
    + 1099511627776 * b5 + 281474976710656 * b6 + 72057594037927936 * b7
  }

  ghost function WordAt(s: seq<Octet>, from: nat): int
    requires from + 8 <= |s|
  {
    WordOf(
      s[from], s[from + 1], s[from + 2], s[from + 3], s[from + 4], s[from + 5], s[from + 6], s[from + 7])
  }

  lemma WordByBytes(x: Bits64)
    ensures WordAt(ToLittleEndian(x, 8), 0) == x
  {
    var b := ToLittleEndian(x, 8);
    EightBytes();
    WordRoundTrip(x, 8);
    hide ToLittleEndian, FromLittleEndian;
    NextByte(b, 0);
    NextByte(b, 1);
    NextByte(b, 2);
    NextByte(b, 3);
    NextByte(b, 4);
    NextByte(b, 5);
    NextByte(b, 6);
    NextByte(b, 7);
    NoBytes(b[8..]);
    assert b[0..] == b;
  }

  lemma NoBytes(b: seq<Octet>)
    requires b == []
    ensures FromLittleEndian(b) == 0
  {
  }

  lemma NextByte(b: seq<Octet>, k: nat)
    requires k < |b|
    ensures FromLittleEndian(b[k..]) == b[k] as int + 256 * FromLittleEndian(b[k + 1..])
  {
    assert b[k..][1..] == b[k + 1..];
  }

  /** Where each feature stands in a record. */
  lemma RecordLayout(v: StateVector)
    ensures var s := ToBinary(v);
      && WordAt(s, 0) == v.length && WordAt(s, 8) == v.severity && WordAt(s, 16) == v.frequency
      && WordAt(s, 24) == v.timestamp && WordAt(s, 32) == v.processId && WordAt(s, 40) == v.entropy
      && WordAt(s, 48) == v.zscore && WordAt(s, 56) == v.protocol
  {
    hide ToLittleEndian;
    WordByBytes(v.length);
    WordByBytes(v.severity);
    WordByBytes(v.frequency);
    WordByBytes(v.timestamp);
    WordByBytes(v.processId);
    WordByBytes(v.entropy);
    WordByBytes(v.zscore);
    WordByBytes(v.protocol);
  }

  // ----- Validity -----

  predicate IsValid(v: StateVector) {
    forall k | 0 <= k < VEC_DIM :: UnitBits(Components(v)[k])
  }

  /** Validity as the source words it: every feature is finite and between 0 and 1. */
  lemma ValidMeansNormalized(v: StateVector)
    ensures IsValid(v) <==> forall k | 0 <= k < VEC_DIM :: InUnitInterval(Components(v)[k])
  {
    forall k | 0 <= k < VEC_DIM ensures InUnitInterval(Components(v)[k]) <==> UnitBits(Components(v)[k]) {
      UnitIntervalBits(Components(v)[k]);
    }
  }

  // ----- Files -----

  function EncodedRecords(vs: seq<StateVector>): seq<Octet> {
    if vs == [] then [] else ToBinary(vs[0]) + EncodedRecords(vs[1..])
  }

  /** The file a writer produces for these vectors. */
  function Encoded(vs: seq<StateVector>): seq<Octet> { HEADER + EncodedRecords(vs) }

  /** A file opens with the magic text and version 1, and holds 64 bytes a vector. */
  lemma {:induction false} FileLayout(vs: seq<StateVector>)
    ensures |Encoded(vs)| == 8 + 64 * |vs|
    ensures var magic := "CCZEVEC";
      (forall i | 0 <= i < 7 :: Encoded(vs)[i] == magic[i] as int) && Encoded(vs)[7] == 1
    ensures forall k | 0 <= k < |vs| :: Encoded(vs)[8 + 64 * k..72 + 64 * k] == ToBinary(vs[k])
  {
    hide ToBinary;
    if vs != [] {
      var n := |vs| - 1;
      FileLayout(vs[..n]);
      EncodedRecordsAppend(vs[..n], vs[n]);
      assert vs[..n] + [vs[n]] == vs;
      assert Encoded(vs) == Encoded(vs[..n]) + ToBinary(vs[n]);
    }
  }

  lemma {:induction false} EncodedRecordsAppend(vs: seq<StateVector>, v: StateVector)
    ensures EncodedRecords(vs + [v]) == EncodedRecords(vs) + ToBinary(v)
  {
    hide ToBinary;
    if vs == [] {
      assert vs + [v] == [v];
      assert [v][1..] == [];
      assert EncodedRecords([v]) == ToBinary(v) + EncodedRecords([]);
    } else {
      EncodedRecordsAppend(vs[1..], v);
      assert (vs + [v])[1..] == vs[1..] + [v];
      assert (vs + [v])[0] == vs[0];
    }
  }

  /** All records up to the end of file, or the first defect. */
  function DecodeRecords(s: seq<Octet>): Result<seq<StateVector>, ReadError> {
    if s == [] then Ok([])
    else if |s| < VEC_SIZE then Err(UnexpectedEof)
    else
      var v := FromBinary(s[..VEC_SIZE]);
      if !IsValid(v) then Err(InvalidFeature)
      else match DecodeRecords(s[VEC_SIZE..])
        case Err(e) => Err(e)
        case Ok(vs) => Ok([v] + vs)
  }

  function Decode(file: seq<Octet>): Result<seq<StateVector>, ReadError> {
    if |file| < |HEADER| then Err(UnexpectedEof)
    else if file[..|HEADER|] != HEADER then Err(UnsupportedHeader)
    else DecodeRecords(file[|HEADER|..])
  }

  ghost predicate AllValid(vs: seq<StateVector>) { forall k | 0 <= k < |vs| :: IsValid(vs[k]) }

  lemma {:induction false} DecodeRecordsExact(s: seq<Octet>, vs: seq<StateVector>)
    ensures DecodeRecords(s) == Ok(vs) <==> AllValid(vs) && s == EncodedRecords(vs)
    decreases |vs|
  {
    hide FromBinary, ToBinary, IsValid;
    if vs == [] {
      if |s| >= VEC_SIZE { DecodeRecordsNonempty(s); }
    } else {
      var v, rest := vs[0], vs[1..];
      if |s| >= VEC_SIZE {
        DecodeRecordsExact(s[VEC_SIZE..], rest);
        RecordRoundTrip(s[..VEC_SIZE]);
        BinaryRoundTrip(v);
        assert s == s[..VEC_SIZE] + s[VEC_SIZE..];
        assert vs == [v] + rest;
        DecodeFirst(s, vs);
      }
    }
  }

  lemma DecodeRecordsNonempty(s: seq<Octet>)
    requires |s| >= VEC_SIZE
    ensures DecodeRecords(s) != Ok([])
  {
    hide FromBinary, IsValid;
  }

  lemma DecodeFirst(s: seq<Octet>, vs: seq<StateVector>)
    requires |s| >= VEC_SIZE && vs != []
    ensures DecodeRecords(s) == Ok(vs)
      <==> IsValid(vs[0]) && FromBinary(s[..VEC_SIZE]) == vs[0] && DecodeRecords(s[VEC_SIZE..]) == Ok(vs[1..])
    ensures EncodedRecords(vs) == s <==> ToBinary(vs[0]) == s[..VEC_SIZE] && EncodedRecords(vs[1..]) == s[VEC_SIZE..]
  {
    hide FromBinary, ToBinary, IsValid;
    assert vs == [vs[0]] + vs[1..];
    assert s == s[..VEC_SIZE] + s[VEC_SIZE..];
  }

  /**
   * A file is read to its end, yielding vs, exactly when it is the file written for vs and every
   * feature is valid: nothing else is accepted, and nothing is lost or altered on the way.
   */
  lemma FileAcceptedIff(file: seq<Octet>, vs: seq<StateVector>)
    ensures Decode(file) == Ok(vs) <==> AllValid(vs) && file == Encoded(vs)
  {
    hide EncodedRecords, DecodeRecords, AllValid;
    if |file| >= |HEADER| {
      DecodeRecordsExact(file[|HEADER|..], vs);
      assert file == file[..|HEADER|] + file[|HEADER|..];
    }
  }

  // ----- The writer and the reader -----

  class VectorWriter {
    var file: seq<Octet>
    var vectorsWritten: nat
    ghost var written: seq<StateVector>

    ghost predicate Valid()
      reads this
    {
      file == Encoded(written) && vectorsWritten == |written|
    }

    constructor Create()
      ensures Valid() && written == [] && file == Encoded([])
    {
      file := HEADER;
      vectorsWritten := 0;
      written := [];
    }

    method Write(v: StateVector)
      requires Valid()
      modifies this
      ensures Valid() && written == old(written) + [v] && file == Encoded(written) && vectorsWritten == |written|
    {
      EncodedRecordsAppend(written, v);
      file := file + ToBinary(v);
      vectorsWritten := vectorsWritten + 1;
      written := written + [v];
    }
  }

  class VectorReader {
    const file: seq<Octet>
    var position: nat
    var vectorsRead: nat

    ghost predicate Valid()
      reads this
    {
      position <= |file|
    }

    constructor At(file: seq<Octet>, position: nat)
      requires position <= |file|
      ensures Valid() && this.file == file && this.position == position && vectorsRead == 0
    {
      this.file := file;
      this.position := position;
      vectorsRead := 0;
    }

    static method Open(file: seq<Octet>) returns (r: Result<VectorReader, ReadError>)
      ensures |file| < |HEADER| ==> r == Err(UnexpectedEof)
      ensures |file| >= |HEADER| && file[..|HEADER|] != HEADER ==> r == Err(UnsupportedHeader)
      ensures |file| >= |HEADER| && file[..|HEADER|] == HEADER ==>
        r.Ok? && fresh(r.value) && r.value.Valid() && r.value.file == file && r.value.position == |HEADER|
    {
      if |file| < |HEADER| {
        return Err(UnexpectedEof);
      }
      if file[..|HEADER|] != HEADER {
        return Err(UnsupportedHeader);
      }
      var reader := new VectorReader.At(file, |HEADER|);
      r := Ok(reader);
    }

    /** A record that parses but is invalid has still been consumed and counted. */
    method Read() returns (r: Result<Option<StateVector>, ReadError>)
      requires Valid()
      modifies this
      ensures Valid()
      ensures var rest := file[old(position)..];
        if rest == [] then r == Ok(None) && position == old(position) && vectorsRead == old(vectorsRead)
        else if |rest| < VEC_SIZE then r == Err(UnexpectedEof) && position == |file| && vectorsRead == old(vectorsRead)
        else
          && position == old(position) + VEC_SIZE && vectorsRead == old(vectorsRead) + 1
          && var v := FromBinary(rest[..VEC_SIZE]);
            r == if IsValid(v) then Ok(Some(v)) else Err(InvalidFeature)
    {
      if position == |file| {
        return Ok(None);
      }
      if |file| - position < VEC_SIZE {
        position := |file|;
        return Err(UnexpectedEof);
      }
      var buffer := file[position..position + VEC_SIZE];
      assert buffer == file[position..][..VEC_SIZE];
      position := position + VEC_SIZE;
      vectorsRead := vectorsRead + 1;
      var vector := FromBinary(buffer);
      if !IsValid(vector) {
        return Err(InvalidFeature);
      }
      r := Ok(Some(vector));
    }
  }

  // ----- The decoding loop -----

  /** The vectors before the end of file or the first defect, and which of them ended the reading. */
  function Leading(s: seq<Octet>): (seq<StateVector>, Result<(), ReadError>) {
    if s == [] then ([], Ok(()))
    else if |s| < VEC_SIZE then ([], Err(UnexpectedEof))
    else
      var v := FromBinary(s[..VEC_SIZE]);
      if !IsValid(v) then ([], Err(InvalidFeature))
      else
        var (vs, end) := Leading(s[VEC_SIZE..]);
        ([v] + vs, end)
  }

  /** What is left after the leading vectors: nothing, part of a record, or an invalid record. */
  ghost predicate EndsWith(rest: seq<Octet>, end: Result<(), ReadError>) {
    match end
    case Ok(_) => rest == []
    case Err(UnexpectedEof) => 0 < |rest| < VEC_SIZE
    case Err(InvalidFeature) => |rest| >= VEC_SIZE && !IsValid(FromBinary(rest[..VEC_SIZE]))
    case Err(UnsupportedHeader) => false
  }

  lemma {:induction false} LeadingShape(s: seq<Octet>)
    ensures var (vs, end) := Leading(s);
      && AllValid(vs)
      && EncodedRecords(vs) <= s && EndsWith(s[|EncodedRecords(vs)|..], end)
      && DecodeRecords(s) == (if end.Ok? then Ok(vs) else Err(end.error))
  {
    hide FromBinary, ToBinary, IsValid;
    if |s| >= VEC_SIZE && IsValid(FromBinary(s[..VEC_SIZE])) {
      var v, rest := FromBinary(s[..VEC_SIZE]), s[VEC_SIZE..];
      var vs := Leading(rest).0;
      LeadingShape(rest);
      RecordRoundTrip(s[..VEC_SIZE]);
      assert ([v] + vs)[0] == v && ([v] + vs)[1..] == vs;
      assert EncodedRecords([v] + vs) == s[..VEC_SIZE] + EncodedRecords(vs);
      assert s[VEC_SIZE + |EncodedRecords(vs)|..] == rest[|EncodedRecords(vs)|..];
    }
  }

  lemma LeadingStep(s: seq<Octet>)
    ensures s == [] ==> Leading(s) == ([], Ok(()))
    ensures 0 < |s| < VEC_SIZE ==> Leading(s) == ([], Err(UnexpectedEof))
    ensures |s| >= VEC_SIZE ==>
      var v := FromBinary(s[..VEC_SIZE]);
      Leading(s) ==
        if IsValid(v) then ([v] + Leading(s[VEC_SIZE..]).0, Leading(s[VEC_SIZE..]).1) else ([], Err(InvalidFeature))
  {
    hide FromBinary, IsValid;
  }

  /** The decoding loop: shows every vector up to the end of file or the first defect. */
  method ShowAll(reader: VectorReader) returns (end: Result<(), ReadError>, shown: seq<StateVector>)
    requires reader.Valid()
    modifies reader
    ensures (shown, end) == Leading(reader.file[old(reader.position)..])
  {
    hide FromBinary, IsValid, Leading;
    ghost var all := Leading(reader.file[reader.position..]);
    shown := [];
    assert [] + all.0 == all.0;
    while true
      invariant reader.Valid()
      invariant shown + Leading(reader.file[reader.position..]).0 == all.0
      invariant Leading(reader.file[reader.position..]).1 == all.1
      decreases |reader.file| - reader.position
    {
      ghost var rest := reader.file[reader.position..];
      LeadingStep(rest);
      assert shown + [] == shown;
      var next := reader.Read();
      if next.Err? {
        return Err(next.error), shown;
      }
      if next.value.None? {
        return Ok(()), shown;
      }
      ghost var later := Leading(rest[VEC_SIZE..]).0;
      assert reader.file[reader.position..] == rest[VEC_SIZE..];
      assert shown + ([next.value.value] + later) == shown + [next.value.value] + later;
      shown := shown + [next.value.value];
    }
  }

  /**
   * Decoding a file.  What has been shown before a defect is valid and is all there is before it;
   * without a defect the whole file has been read.
   */
  method ReadAll(file: seq<Octet>) returns (end: Result<(), ReadError>, shown: seq<StateVector>)
    ensures |file| < |HEADER| ==> end == Err(UnexpectedEof) && shown == []
    ensures |file| >= |HEADER| && file[..|HEADER|] != HEADER ==> end == Err(UnsupportedHeader) && shown == []
    ensures |file| >= |HEADER| && file[..|HEADER|] == HEADER ==>
      AllValid(shown) && Encoded(shown) <= file && EndsWith(file[|Encoded(shown)|..], end)
    ensures Decode(file) == if end.Ok? then Ok(shown) else Err(end.error)
    ensures forall vs :: end.Ok? && shown == vs <==> AllValid(vs) && file == Encoded(vs)
  {
    hide FromBinary, IsValid, AllValid, EncodedRecords, DecodeRecords, EndsWith, Leading;
    forall vs ensures Decode(file) == Ok(vs) <==> AllValid(vs) && file == Encoded(vs) {
      FileAcceptedIff(file, vs);
    }
    var start := VectorReader.Open(file);
    if start.Err? {
      return Err(start.error), [];
    }
    end, shown := ShowAll(start.value);
    ghost var body := file[|HEADER|..];
    LeadingShape(body);
    assert file == HEADER + body;
    assert file[|Encoded(shown)|..] == body[|EncodedRecords(shown)|..];
  }
}
