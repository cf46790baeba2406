/**
 * Counting and summing over the values of a map. The pages walk
 * `Object.values(...)` of a month bucket, whose order the model does not
 * fix: a month bucket is read through an enumeration of its keys, and every
 * count or total is shown to be the same for every enumeration.
 */
module Tally {

  /** Number of elements of `s` satisfying `p`. */
  function Count<T>(s: seq<T>, p: T -> bool): (n: nat)
    ensures n <= |s|
  {
    if s == [] then 0 else (if p(s[0]) then 1 else 0) + Count(s[1..], p)
  }

  /** Sum of `w` over the elements of `s`. */
  function Total<T>(s: seq<T>, w: T -> real): real {
    if s == [] then 0.0 else w(s[0]) + Total(s[1..], w)
  }

  lemma {:induction false} CountAppend<T>(a: seq<T>, b: seq<T>, p: T -> bool)
    ensures Count(a + b, p) == Count(a, p) + Count(b, p)
  {
    if a == [] {
      assert a + b == b;
    } else {
      assert (a + b)[1..] == a[1..] + b;
      CountAppend(a[1..], b, p);
    }
  }

  lemma {:induction false} TotalAppend<T>(a: seq<T>, b: seq<T>, w: T -> real)
    ensures Total(a + b, w) == Total(a, w) + Total(b, w)
  {
    if a == [] {
      assert a + b == b;
    } else {
      assert (a + b)[1..] == a[1..] + b;
      TotalAppend(a[1..], b, w);
    }
  }

  /** Removing matching elements from two permutations of each other leaves permutations. */
  lemma RemoveMatching<T>(a: seq<T>, b: seq<T>, j: int)
    requires multiset(a) == multiset(b) && a != [] && 0 <= j < |b| && b[j] == a[0]
    ensures multiset(a[1..]) == multiset(b[..j] + b[j + 1..])
  {
    assert b == b[..j] + [b[j]] + b[j + 1..];
    assert a == [a[0]] + a[1..];
    assert multiset(a[1..]) == multiset(a) - multiset{a[0]};
  }

  lemma CountRemove<T>(b: seq<T>, j: int, p: T -> bool)
    requires 0 <= j < |b|
    ensures Count(b, p) == (if p(b[j]) then 1 else 0) + Count(b[..j] + b[j + 1..], p)
  {
    var left, x, right := b[..j], b[j], b[j + 1..];
    var tail := [x] + right;
    assert b == left + tail;
    CountCons(x, right, p);
    CountAppend(left, tail, p);
    CountAppend(left, right, p);
  }

  /** Counting over a sequence with one element in front. */
  /** A one-element sequence counts 1 exactly when its element satisfies `p`. */
  lemma CountSingle<T>(x: T, p: T -> bool)
    ensures Count([x], p) == if p(x) then 1 else 0
  {
    assert [x][1..] == [];
  }

  lemma CountCons<T>(x: T, right: seq<T>, p: T -> bool)
    ensures Count([x] + right, p) == (if p(x) then 1 else 0) + Count(right, p)
  {
    var tail := [x] + right;
    assert tail[0] == x && tail[1..] == right;
  }

  lemma TotalRemove<T>(b: seq<T>, j: int, w: T -> real)
    requires 0 <= j < |b|
    ensures Total(b, w) == w(b[j]) + Total(b[..j] + b[j + 1..], w)
  {
    var left, x, right := b[..j], b[j], b[j + 1..];
    var tail := [x] + right;
    assert b == left + tail;
    TotalCons(x, right, w);
    TotalAppend(left, tail, w);
    TotalAppend(left, right, w);
  }

  /** Summing over a sequence with one element in front. */
  lemma TotalCons<T>(x: T, right: seq<T>, w: T -> real)
    ensures Total([x] + right, w) == w(x) + Total(right, w)
  {
    var tail := [x] + right;
    assert tail[0] == x && tail[1..] == right;
  }

  /** Counting does not depend on the order of the elements. */
  lemma {:induction false} CountPermutation<T>(a: seq<T>, b: seq<T>, p: T -> bool)
    requires multiset(a) == multiset(b)
    ensures Count(a, p) == Count(b, p)
  {
    if a != [] {
      assert a[0] in multiset(b);
      var j :| 0 <= j < |b| && b[j] == a[0];
      RemoveMatching(a, b, j);
      CountPermutation(a[1..], b[..j] + b[j + 1..], p);
      CountRemove(b, j, p);
    } else {
      assert |b| == |multiset(b)| == 0;
    }
  }

  /** Summing does not depend on the order of the elements. */
  lemma {:induction false} TotalPermutation<T>(a: seq<T>, b: seq<T>, w: T -> real)
    requires multiset(a) == multiset(b)
    ensures Total(a, w) == Total(b, w)
  {
    if a != [] {
      assert a[0] in multiset(b);
      var j :| 0 <= j < |b| && b[j] == a[0];
      RemoveMatching(a, b, j);
      TotalPermutation(a[1..], b[..j] + b[j + 1..], w);
      TotalRemove(b, j, w);
    } else {
      assert |b| == |multiset(b)| == 0;
    }
  }

  predicate NoDup<T(==)>(s: seq<T>) {
    forall i, j :: 0 <= i < j < |s| ==> s[i] != s[j]
  }

  /** `keys` lists every key of `m` exactly once, in some order. */
  predicate Enumerates<K, V>(m: map<K, V>, keys: seq<K>) {
    NoDup(keys) && (forall i | 0 <= i < |keys| :: keys[i] in m) && (forall k | k in m :: k in keys)
  }

  /** The values of `m` in the order of `keys`. */
  function ValuesOf<K, V>(m: map<K, V>, keys: seq<K>): (vs: seq<V>)
    requires forall i :: 0 <= i < |keys| ==> keys[i] in m
    ensures |vs| == |keys|
    ensures forall i :: 0 <= i < |keys| ==> vs[i] == m[keys[i]]
  {
    if keys == [] then [] else [m[keys[0]]] + ValuesOf(m, keys[1..])
  }

  /** Dropping one key from an enumeration enumerates the map without that key. */
  lemma EnumeratesRemove<K, V>(m: map<K, V>, keys: seq<K>, j: int)
    requires Enumerates(m, keys) && 0 <= j < |keys|
    ensures Enumerates(m - {keys[j]}, keys[..j] + keys[j + 1..])
  {
    var x := keys[j];
    var r := keys[..j] + keys[j + 1..];
    DropIndex(keys, j, r);
    forall k | k in m - {x} ensures k in r {
      var i :| 0 <= i < |keys| && keys[i] == k;
      if i < j {
        assert r[i] == k;
      } else {
        assert r[i - 1] == k;
      }
    }
    forall a, b | 0 <= a < b < |r| ensures r[a] != r[b] {
      var a' := if a < j then a else a + 1;
      var b' := if b < j then b else b + 1;
      assert r[a] == keys[a'] && r[b] == keys[b'];
    }
  }

  /** Where the elements of a sequence with one position dropped come from. */
  lemma DropIndex<T>(s: seq<T>, j: int, r: seq<T>)
    requires 0 <= j < |s| && r == s[..j] + s[j + 1..]
    ensures |r| == |s| - 1
    ensures forall i :: 0 <= i < j ==> r[i] == s[i]
    ensures forall i :: j <= i < |r| ==> r[i] == s[i + 1]
  {
  }

  /** Taking one element out of a sequence takes it out of its multiset. */
  lemma MultisetDrop<T>(s: seq<T>, j: int)
    requires 0 <= j < |s|
    ensures multiset(s) == multiset{s[j]} + multiset(s[..j] + s[j + 1..])
  {
    assert s == s[..j] + ([s[j]] + s[j + 1..]);
  }

  /** The values through the shortened enumeration are the values with the j-th one dropped. */
  lemma ValuesOfDrop<K, V>(m: map<K, V>, keys: seq<K>, j: int)
    requires Enumerates(m, keys) && 0 <= j < |keys|
    ensures Enumerates(m - {keys[j]}, keys[..j] + keys[j + 1..])
    ensures ValuesOf(m - {keys[j]}, keys[..j] + keys[j + 1..]) == ValuesOf(m, keys)[..j] + ValuesOf(m, keys)[j + 1..]
  {
    EnumeratesRemove(m, keys, j);
    var vs := ValuesOf(m, keys);
    var r := keys[..j] + keys[j + 1..];
    var ws := ValuesOf(m - {keys[j]}, r);
    var ds := vs[..j] + vs[j + 1..];
    DropIndex(keys, j, r);
    DropIndex(vs, j, ds);
    assert |ws| == |ds|;
    forall i | 0 <= i < |ws| ensures ws[i] == ds[i] {
      var k := if i < j then i else i + 1;
      assert r[i] == keys[k] && ds[i] == vs[k];
    }
  }

  /** Dropping a key drops its value from the multiset of values. */
  lemma ValuesOfRemove<K, V>(m: map<K, V>, keys: seq<K>, j: int)
    requires Enumerates(m, keys) && 0 <= j < |keys|
    ensures multiset(ValuesOf(m, keys)) ==
              multiset{m[keys[j]]} + multiset(ValuesOf(m - {keys[j]}, keys[..j] + keys[j + 1..]))
  {
    ValuesOfDrop(m, keys, j);
    MultisetDrop(ValuesOf(m, keys), j);
  }

  /** Any two enumerations of a map yield the same values, up to order. */
  lemma {:induction false} EnumerationsAgree<K, V>(m: map<K, V>, k1: seq<K>, k2: seq<K>)
    requires Enumerates(m, k1) && Enumerates(m, k2)
    ensures multiset(ValuesOf(m, k1)) == multiset(ValuesOf(m, k2))
    decreases |k1|
  {
    if k1 != [] {
      var x := k1[0];
      assert x in m;
      assert x in k2;
      var j :| 0 <= j < |k2| && k2[j] == x;
      var m' := m - {x};
      var r1 := k1[..0] + k1[1..];
      var r2 := k2[..j] + k2[j + 1..];
      ValuesOfRemove(m, k1, 0);
      ValuesOfRemove(m, k2, j);
      EnumeratesRemove(m, k1, 0);
      EnumeratesRemove(m, k2, j);
      EnumerationsAgree(m', r1, r2);
      assert multiset(ValuesOf(m, k1)) == multiset{m[x]} + multiset(ValuesOf(m', r1));
    }
  }

  /** A count over the values of a map is the same for every enumeration. */
  lemma CountOverValues<K, V>(m: map<K, V>, k1: seq<K>, k2: seq<K>, p: V -> bool)
    requires Enumerates(m, k1) && Enumerates(m, k2)
    ensures Count(ValuesOf(m, k1), p) == Count(ValuesOf(m, k2), p)
  {
    EnumerationsAgree(m, k1, k2);
    CountPermutation(ValuesOf(m, k1), ValuesOf(m, k2), p);
  }

  /** A total over the values of a map is the same for every enumeration. */
  lemma TotalOverValues<K, V>(m: map<K, V>, k1: seq<K>, k2: seq<K>, w: V -> real)
    requires Enumerates(m, k1) && Enumerates(m, k2)
    ensures Total(ValuesOf(m, k1), w) == Total(ValuesOf(m, k2), w)
  {
    EnumerationsAgree(m, k1, k2);
    TotalPermutation(ValuesOf(m, k1), ValuesOf(m, k2), w);
  }
}
