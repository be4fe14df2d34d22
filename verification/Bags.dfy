/** Facts about sequences that do not depend on the order of their elements. */
module Bags {

  /** The sum of f over a sequence. */
  ghost function Bag<A(!new), B(!new)>(f: A -> multiset<B>, s: seq<A>): multiset<B> {
    if |s| == 0 then multiset{} else Bag(f, s[..|s| - 1]) + f(s[|s| - 1])
  }

  function Without<A>(s: seq<A>, i: nat): seq<A>
    requires i < |s|
  {
    s[..i] + s[i + 1..]
  }

  lemma WithoutBag<A>(s: seq<A>, i: nat)
    requires i < |s|
    ensures multiset(Without(s, i)) == multiset(s) - multiset{s[i]}
  {
    assert s == s[..i] + [s[i]] + s[i + 1..];
  }

  lemma {:induction false} BagWithout<A(!new), B(!new)>(f: A -> multiset<B>, s: seq<A>, i: nat)
    requires i < |s|
    ensures Bag(f, s) == Bag(f, Without(s, i)) + f(s[i])
  {
    var n := |s| - 1;
    if i < n {
      BagWithout(f, s[..n], i);
      assert Without(s, i)[..n - 1] == Without(s[..n], i) && Without(s, i)[n - 1] == s[n];
    } else {
      assert Without(s, i) == s[..n];
    }
  }

  /** Permutations have the same sum. */
  lemma {:induction false} BagPermutes<A(!new), B(!new)>(f: A -> multiset<B>, s: seq<A>, t: seq<A>)
    requires multiset(s) == multiset(t)
    ensures Bag(f, s) == Bag(f, t)
  {
    assert |multiset(s)| == |s| && |multiset(t)| == |t|;
    if |s| > 0 {
      var n := |s| - 1;
      assert s[n] in multiset(t);
      var i :| 0 <= i < |t| && t[i] == s[n];
      WithoutBag(t, i);
      WithoutBag(s, n);
      assert Without(s, n) == s[..n];
      BagPermutes(f, s[..n], Without(t, i));
      BagWithout(f, t, i);
    }
  }

  /** A pair of places whose elements are related has a counterpart in every permutation. */
  lemma PairPermutes<A>(bad: (A, A) -> bool, s: seq<A>, t: seq<A>, i: nat, j: nat) returns (k: nat, l: nat)
    requires multiset(s) == multiset(t) && i < j < |s| && bad(s[i], s[j])
    requires (forall x, y :: x in s && y in s ==> bad(x, y) == bad(y, x))
    ensures k < l < |t| && bad(t[k], t[l])
  {
    assert s[i] in multiset(t);
    var a :| 0 <= a < |t| && t[a] == s[i];
    var c := OtherPlace(s, t, i, j, a);
    k, l := if a < c then a else c, if a < c then c else a;
  }

  lemma OtherPlace<A>(s: seq<A>, t: seq<A>, i: nat, j: nat, a: nat) returns (c: nat)
    requires multiset(s) == multiset(t) && i < j < |s| && a < |t| && t[a] == s[i]
    ensures c < |t| && c != a && t[c] == s[j]
  {
    WithoutBag(t, a);
    WithoutBag(s, i);
    assert Without(s, i)[j - 1] == s[j];
    assert s[j] in multiset(Without(t, a));
    var b :| 0 <= b < |Without(t, a)| && Without(t, a)[b] == s[j];
    c := if b < a then b else b + 1;
  }

  ghost function Single<A(!new), B(!new)>(f: A -> B): A -> multiset<B> {
    (x: A) => multiset{f(x)}
  }

  lemma {:induction false} MapBag<A(!new), B(!new)>(f: A -> B, s: seq<A>, fs: seq<B>)
    requires |fs| == |s| && forall i :: 0 <= i < |s| ==> fs[i] == f(s[i])
    ensures multiset(fs) == Bag(Single(f), s)
  {
    if |s| > 0 {
      var n := |s| - 1;
      MapBag(f, s[..n], fs[..n]);
      assert fs == fs[..n] + [fs[n]];
    }
  }

  /** Images of permutations are permutations. */
  lemma MapPermutes<A(!new), B(!new)>(f: A -> B, s: seq<A>, t: seq<A>, fs: seq<B>, ft: seq<B>)
    requires multiset(s) == multiset(t)
    requires |fs| == |s| && forall i :: 0 <= i < |s| ==> fs[i] == f(s[i])
    requires |ft| == |t| && forall i :: 0 <= i < |t| ==> ft[i] == f(t[i])
    ensures multiset(fs) == multiset(ft) && |s| == |t|
  {
    assert |multiset(s)| == |s| && |multiset(t)| == |t|;
    MapBag(f, s, fs);
    MapBag(f, t, ft);
    BagPermutes(Single(f), s, t);
  }

  lemma PairBag<A>(x: A, y: A, rest: seq<A>)
    ensures multiset([x, y] + rest) == multiset{x, y} + multiset(rest)
  {
  }

  /** Any two elements can be brought to the front. */
  lemma Fronted<A>(s: seq<A>, i: nat, j: nat) returns (rest: seq<A>)
    requires i < |s| && j < |s| && i != j
    ensures multiset(s) == multiset{s[i], s[j]} + multiset(rest)
  {
    var once := Without(s, i);
    var k := if j < i then j else j - 1;
    assert once[k] == s[j];
    rest := Without(once, k);
    WithoutBag(s, i);
    WithoutBag(once, k);
    assert s[i] in multiset(s) && s[j] in multiset(once);
  }
}
