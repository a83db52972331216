// The standard library's stable sort, ordering by descending key.  The scheduler sorts
// process indices by entropy with it, and the policy engine sorts rules by priority.
module StableSort {

  predicate DescendingBy<T>(s: seq<T>, key: T -> real) {
    forall i, j | 0 <= i < j < |s| :: key(s[i]) >= key(s[j])
  }

  /** The elements of `s` with key `k`, in their order of appearance. */
  function WithKey<T>(s: seq<T>, key: T -> real, k: real): seq<T> {
    if s == [] then [] else (if key(s[0]) == k then [s[0]] else []) + WithKey(s[1..], key, k)
  }

  /** `t` is `s` rearranged so that keys descend and elements of equal key keep their order. */
  ghost predicate IsStableSort<T(!new)>(s: seq<T>, t: seq<T>, key: T -> real) {
    && multiset(s) == multiset(t)
    && DescendingBy(t, key)
    && forall k: real :: WithKey(t, key, k) == WithKey(s, key, k)
  }

  function InsertDescending<T>(x: T, s: seq<T>, key: T -> real): seq<T> {
    if s == [] || key(s[0]) <= key(x) then [x] + s
    else [s[0]] + InsertDescending(x, s[1..], key)
  }

  function SortDescending<T>(s: seq<T>, key: T -> real): seq<T> {
    if s == [] then [] else InsertDescending(s[0], SortDescending(s[1..], key), key)
  }

  lemma {:induction false} InsertKeepsElements<T>(x: T, s: seq<T>, key: T -> real)
    ensures multiset(InsertDescending(x, s, key)) == multiset([x] + s)
  {
    if s != [] && key(s[0]) > key(x) {
      InsertKeepsElements(x, s[1..], key);
      assert s == [s[0]] + s[1..];
    }
  }

  lemma {:induction false} InsertKeepsOrder<T>(x: T, s: seq<T>, key: T -> real)
    requires DescendingBy(s, key)
    ensures DescendingBy(InsertDescending(x, s, key), key)
  {
    if s != [] && key(s[0]) > key(x) {
      var rest := InsertDescending(x, s[1..], key);
      assert InsertDescending(x, s, key) == [s[0]] + rest;
      hide InsertDescending;
      InsertKeepsOrder(x, s[1..], key);
      InsertKeepsElements(x, s[1..], key);
      forall j | 0 <= j < |rest| ensures key(s[0]) >= key(rest[j]) {
        assert rest[j] in multiset(rest);
        assert rest[j] in [x] + s[1..];
      }
    }
  }

  lemma {:induction false} InsertKeepsTies<T>(x: T, s: seq<T>, key: T -> real, k: real)
    requires DescendingBy(s, key)
    ensures WithKey(InsertDescending(x, s, key), key, k) == WithKey([x] + s, key, k)
  {
    assert ([x] + s)[1..] == s;
    if s != [] && key(s[0]) > key(x) {
      InsertKeepsTies(x, s[1..], key, k);
      var rest := InsertDescending(x, s[1..], key);
      assert ([s[0]] + rest)[1..] == rest;
      assert ([x] + s[1..])[1..] == s[1..];
    }
  }

  lemma {:induction false} SortIsStable<T(!new)>(s: seq<T>, key: T -> real)
    ensures IsStableSort(s, SortDescending(s, key), key)
  {
    if s != [] {
      var rest := SortDescending(s[1..], key);
      SortIsStable(s[1..], key);
      InsertKeepsElements(s[0], rest, key);
      InsertKeepsOrder(s[0], rest, key);
      assert s == [s[0]] + s[1..];
      forall k: real ensures WithKey(SortDescending(s, key), key, k) == WithKey(s, key, k) {
        InsertKeepsTies(s[0], rest, key, k);
        assert ([s[0]] + rest)[1..] == rest;
      }
    }
  }

  lemma {:induction false} WithKeyMember<T>(s: seq<T>, key: T -> real, x: T)
    requires x in s
    ensures x in WithKey(s, key, key(x))
  {
    if s[0] != x { WithKeyMember(s[1..], key, x); }
  }

  /** The head of a descending arrangement is the first element carrying the largest key. */
  lemma StableSortHead<T(!new)>(s: seq<T>, t: seq<T>, key: T -> real)
    requires IsStableSort(s, t, key) && s != []
    ensures t != [] && t[0] in s
    ensures forall x | x in s :: key(x) <= key(t[0])
    ensures WithKey(s, key, key(t[0])) != [] && WithKey(s, key, key(t[0]))[0] == t[0]
  {
    assert |multiset(t)| == |multiset(s)|;
    assert t[0] in multiset(t);
    forall x | x in s ensures key(x) <= key(t[0]) {
      assert x in multiset(s);
      assert x in t;
    }
    assert WithKey(t, key, key(t[0]))[0] == t[0];
  }

  lemma WithKeyTail<T>(t: seq<T>, u: seq<T>, key: T -> real, k: real)
    requires t != [] && u != [] && t[0] == u[0]
    requires WithKey(t, key, k) == WithKey(u, key, k)
    ensures WithKey(t[1..], key, k) == WithKey(u[1..], key, k)
  {
    var n := if key(t[0]) == k then 1 else 0;
    assert WithKey(t[1..], key, k) == WithKey(t, key, k)[n..];
    assert WithKey(u[1..], key, k) == WithKey(u, key, k)[n..];
  }

  /** Two stable sorts with the same head have tails that are stable sorts of each other. */
  lemma StableSortTail<T(!new)>(t: seq<T>, u: seq<T>, key: T -> real)
    requires IsStableSort(t, u, key) && t != [] && u != [] && t[0] == u[0]
    ensures IsStableSort(t[1..], u[1..], key)
  {
    forall k: real ensures WithKey(u[1..], key, k) == WithKey(t[1..], key, k) {
      WithKeyTail(t, u, key, k);
    }
    assert multiset(t[1..]) == multiset(u[1..]) by {
      MultisetTail(t);
      MultisetTail(u);
    }
  }

  lemma MultisetTail<T>(t: seq<T>)
    requires t != []
    ensures multiset(t[1..]) == multiset(t) - multiset{t[0]}
  {
    assert t == [t[0]] + t[1..];
  }

  lemma {:induction false} StableSortOfSorted<T(!new)>(t: seq<T>, u: seq<T>, key: T -> real)
    requires IsStableSort(t, u, key) && DescendingBy(t, key)
    ensures t == u
  {
    assert |multiset(t)| == |multiset(u)|;
    if t != [] {
      assert IsStableSort(t, t, key);
      StableSortHead(t, t, key);
      StableSortHead(t, u, key);
      StableSortTail(t, u, key);
      StableSortOfSorted(t[1..], u[1..], key);
      assert t == [t[0]] + t[1..] && u == [t[0]] + u[1..];
    }
  }

  /** A stable sort has one possible result, so any stable algorithm gives the same order. */
  lemma StableSortUnique<T(!new)>(s: seq<T>, t: seq<T>, u: seq<T>, key: T -> real)
    requires IsStableSort(s, t, key) && IsStableSort(s, u, key)
    ensures t == u
  {
    StableSortOfSorted(t, u, key);
  }

  lemma {:induction false} WithKeyConcat<T>(s: seq<T>, t: seq<T>, key: T -> real, k: real)
    ensures WithKey(s + t, key, k) == WithKey(s, key, k) + WithKey(t, key, k)
  {
    if s == [] {
      assert s + t == t;
    } else {
      hide WithKey;
      var whole := s + t;
      assert whole[1..] == s[1..] + t;
      WithKeyHead(whole, key, k);
      WithKeyHead(s, key, k);
      WithKeyConcat(s[1..], t, key, k);
    }
  }

  lemma WithKeyHead<T>(s: seq<T>, key: T -> real, k: real)
    requires s != []
    ensures WithKey(s, key, k) == (if key(s[0]) == k then [s[0]] else []) + WithKey(s[1..], key, k)
  {
  }

  /** Elements of one key appear among those of that key in the order they have in the list. */
  lemma WithKeyPair<T>(s: seq<T>, key: T -> real, j: nat, k: nat) returns (p: nat, q: nat)
    requires j < k < |s| && key(s[j]) == key(s[k])
    ensures var t := WithKey(s, key, key(s[j])); p < q < |t| && t[p] == s[j] && t[q] == s[k]
  {
    var x := key(s[j]);
    assert s == s[..j] + s[j..] && s[j..] == s[j..k] + s[k..];
    WithKeyConcat(s[..j], s[j..], key, x);
    WithKeyConcat(s[j..k], s[k..], key, x);
    WithKeyHead(s[j..k], key, x);
    WithKeyHead(s[k..], key, x);
    p := |WithKey(s[..j], key, x)|;
    q := p + |WithKey(s[j..k], key, x)|;
  }

  predicate Distinct<T(==)>(s: seq<T>) {
    forall i, j | 0 <= i < j < |s| :: s[i] != s[j]
  }

  lemma {:induction false} DistinctMultiplicity<T>(s: seq<T>, x: T)
    requires Distinct(s)
    ensures multiset(s)[x] <= 1
  {
    if s != [] {
      DistinctMultiplicity(s[1..], x);
      assert s == [s[0]] + s[1..];
      if x == s[0] { assert x !in s[1..]; }
    }
  }

  lemma RepeatMultiplicity<T>(s: seq<T>, i: nat, j: nat)
    requires i < j < |s| && s[i] == s[j]
    ensures multiset(s)[s[i]] >= 2
  {
    assert s == s[..i] + [s[i]] + s[i+1..j] + [s[j]] + s[j+1..];
  }

  lemma PermutationKeepsDistinct<T>(s: seq<T>, t: seq<T>)
    requires Distinct(s) && multiset(s) == multiset(t)
    ensures Distinct(t)
  {
    forall i, j | 0 <= i < j < |t| ensures t[i] != t[j] {
      if t[i] == t[j] {
        RepeatMultiplicity(t, i, j);
        DistinctMultiplicity(s, t[i]);
      }
    }
  }
}
