// The eight-feature state vector, over bit patterns in files and over reals in computations.
module Vectors {
  datatype Vector<T> = Vector(
    length: T, severity: T, frequency: T, timestamp: T, processId: T, entropy: T, zscore: T, protocol: T)

  const VEC_DIM: nat := 8

  function Components<T>(v: Vector<T>): (r: seq<T>)
    ensures |r| == VEC_DIM
  {
    [v.length, v.severity, v.frequency, v.timestamp, v.processId, v.entropy, v.zscore, v.protocol]
  }

  function FromComponents<T>(s: seq<T>): (v: Vector<T>)
    requires |s| == VEC_DIM
    ensures Components(v) == s
  {
    Vector(s[0], s[1], s[2], s[3], s[4], s[5], s[6], s[7])
  }

  lemma ComponentsInjective<T>(v: Vector<T>, w: Vector<T>)
    requires Components(v) == Components(w)
    ensures v == w
  {
    var s, t := Components(v), Components(w);
    assert s[0] == t[0] && s[1] == t[1] && s[2] == t[2] && s[3] == t[3];
    assert s[4] == t[4] && s[5] == t[5] && s[6] == t[6] && s[7] == t[7];
  }
}
