/** Go's string order, and sorting.  The repository sorts map keys, composite descriptors and
    child outcomes; what it relies on each time is that sorting has only one possible result. */
module Order {

  /** Go's `<` on strings: byte-wise lexicographic. */
  predicate Less(a: string, b: string) {
    if |b| == 0 then false
    else if |a| == 0 then true
    else a[0] < b[0] || (a[0] == b[0] && Less(a[1..], b[1..]))
  }

  /** One string comes before another when it is a proper prefix, or smaller in the first byte that differs. */
  lemma {:induction false} LessExact(a: string, b: string)
    ensures Less(a, b) <==>
      || (a <= b && a != b)
      || exists i :: 0 <= i < |a| && i < |b| && a[..i] == b[..i] && a[i] < b[i]
  {
    if |a| > 0 && |b| > 0 && a[0] == b[0] {
      LessExact(a[1..], b[1..]);
      PrefixTail(a, b);
      if i :| 0 <= i < |a| - 1 && i < |b| - 1 && a[1..][..i] == b[1..][..i] && a[1..][i] < b[1..][i] {
        assert a[..i + 1] == [a[0]] + a[1..][..i] && b[..i + 1] == [b[0]] + b[1..][..i];
      }
      if i :| 0 <= i < |a| && i < |b| && a[..i] == b[..i] && a[i] < b[i] {
        assert a[1..][..i - 1] == a[..i][1..] && b[1..][..i - 1] == b[..i][1..];
        assert a[1..][i - 1] < b[1..][i - 1];
      }
    } else if |a| > 0 && |b| > 0 {
      assert a[..0] == b[..0];
      forall i | 0 < i < |a| && i < |b| ensures a[..i] != b[..i] { assert a[..i][0] != b[..i][0]; }
    }
  }

  lemma PrefixTail(a: string, b: string)
    requires |a| > 0 && |b| > 0 && a[0] == b[0]
    ensures a <= b <==> a[1..] <= b[1..]
    ensures a == b <==> a[1..] == b[1..]
  {
    assert a == [a[0]] + a[1..] && b == [b[0]] + b[1..];
    if a[1..] <= b[1..] { assert b == a + b[1..][|a| - 1..]; }
    if a <= b { assert b[1..] == a[1..] + b[|a|..]; }
  }

  predicate LessEq(a: string, b: string) {
    !Less(b, a)
  }

  lemma {:induction false} LessTrichotomy(a: string, b: string)
    ensures Less(a, b) || a == b || Less(b, a)
    ensures !(Less(a, b) && Less(b, a))
    ensures !Less(a, a)
  {
    if |a| > 0 {
      LessTrichotomy(a[1..], a[1..]);
      if |b| > 0 {
        LessTrichotomy(a[1..], b[1..]);
        assert a == [a[0]] + a[1..] && b == [b[0]] + b[1..];
      }
    }
  }

  lemma LessAsymmetric()
    ensures forall a, b :: Less(a, b) ==> !Less(b, a)
  {
    forall a, b | Less(a, b) ensures !Less(b, a) {
      LessTrichotomy(a, b);
    }
  }

  lemma {:induction false} LessTransitive(a: string, b: string, c: string)
    requires Less(a, b) && Less(b, c)
    ensures Less(a, c)
  {
    if |a| > 0 && a[0] == b[0] == c[0] {
      LessTransitive(a[1..], b[1..], c[1..]);
    }
  }

  lemma LessEqTotalOrder()
    ensures TotalPreorder(LessEq)
    ensures forall a, b :: LessEq(a, b) && LessEq(b, a) ==> a == b
  {
    forall a: string, b: string
      ensures LessEq(a, b) || LessEq(b, a)
      ensures LessEq(a, b) && LessEq(b, a) ==> a == b
    {
      LessTrichotomy(a, b);
    }
    forall a: string, b: string, c: string | LessEq(a, b) && LessEq(b, c) ensures LessEq(a, c) {
      LessTrichotomy(a, b);
      LessTrichotomy(b, c);
      LessTrichotomy(a, c);
      if Less(c, a) {
        if a != b { LessTransitive(c, a, b); LessTrichotomy(b, c); }
      }
    }
  }

  ghost predicate TotalPreorder<T(!new)>(le: (T, T) -> bool) {
    && (forall a, b :: le(a, b) || le(b, a))
    && (forall a, b, c :: le(a, b) && le(b, c) ==> le(a, c))
  }

  ghost predicate Sorted<T>(le: (T, T) -> bool, s: seq<T>) {
    forall i, j :: 0 <= i < j < |s| ==> le(s[i], s[j])
  }

  /** Places x after every element that is at most x: the step of a stable sort. */
  function Insert<T>(le: (T, T) -> bool, s: seq<T>, x: T): (r: seq<T>) {
    if |s| == 0 || le(s[|s| - 1], x) then s + [x]
    else Insert(le, s[..|s| - 1], x) + [s[|s| - 1]]
  }

  /** Go's `sort.SliceStable`. */
  function StableSort<T>(le: (T, T) -> bool, s: seq<T>): (r: seq<T>) {
    if |s| == 0 then [] else Insert(le, StableSort(le, s[..|s| - 1]), s[|s| - 1])
  }

  lemma {:induction false} InsertBag<T>(le: (T, T) -> bool, s: seq<T>, x: T)
    ensures multiset(Insert(le, s, x)) == multiset(s) + multiset{x}
  {
    if |s| == 0 || le(s[|s| - 1], x) {
    } else {
      InsertBag(le, s[..|s| - 1], x);
      assert s == s[..|s| - 1] + [s[|s| - 1]];
    }
  }

  lemma {:induction false} InsertSorts<T(!new)>(le: (T, T) -> bool, s: seq<T>, x: T)
    requires TotalPreorder(le) && Sorted(le, s)
    ensures Sorted(le, Insert(le, s, x))
    ensures multiset(Insert(le, s, x)) == multiset(s) + multiset{x}
  {
    InsertBag(le, s, x);
    if |s| == 0 || le(s[|s| - 1], x) {
    } else {
      var front, last := s[..|s| - 1], s[|s| - 1];
      InsertSorts(le, front, x);
      forall y | y in Insert(le, front, x) ensures le(y, last) {
        assert y in multiset(front) + multiset{x};
      }
    }
  }

  lemma {:induction false} StableSortSorts<T(!new)>(le: (T, T) -> bool, s: seq<T>)
    requires TotalPreorder(le)
    ensures Sorted(le, StableSort(le, s))
    ensures multiset(StableSort(le, s)) == multiset(s)
  {
    if |s| > 0 {
      StableSortSorts(le, s[..|s| - 1]);
      InsertSorts(le, StableSort(le, s[..|s| - 1]), s[|s| - 1]);
      assert s == s[..|s| - 1] + [s[|s| - 1]];
    }
  }

  ghost predicate TiesEqual<T>(le: (T, T) -> bool, s: seq<T>) {
    forall i, j :: 0 <= i < |s| && 0 <= j < |s| && le(s[i], s[j]) && le(s[j], s[i]) ==> s[i] == s[j]
  }

  lemma HeadsEqual<T>(le: (T, T) -> bool, a: seq<T>, b: seq<T>)
    requires Sorted(le, a) && Sorted(le, b) && multiset(a) == multiset(b) && |a| > 0 && |b| > 0
    requires TiesEqual(le, a)
    ensures a[0] == b[0]
  {
    assert a[0] in multiset(b) && b[0] in multiset(a);
    var i :| 0 <= i < |b| && b[i] == a[0];
    var j :| 0 <= j < |a| && a[j] == b[0];
    if i > 0 && j > 0 {
      assert le(b[0], b[i]) && le(a[0], a[j]);
    }
  }

  /** Sorting has one result once ties are equalities.  This is what makes the repository's
      uses of Go's unstable `sort.Slice` deterministic. */
  lemma {:induction false} SortedUnique<T>(le: (T, T) -> bool, a: seq<T>, b: seq<T>)
    requires Sorted(le, a) && Sorted(le, b) && multiset(a) == multiset(b)
    requires TiesEqual(le, a)
    ensures a == b
  {
    assert |multiset(a)| == |a| && |multiset(b)| == |b|;
    if |a| > 0 {
      HeadsEqual(le, a, b);
      RestAlike(a, b);
      SortedUnique(le, a[1..], b[1..]);
      assert a == [a[0]] + a[1..] && b == [b[0]] + b[1..];
    }
  }

  lemma RestAlike<T>(a: seq<T>, b: seq<T>)
    requires |a| > 0 && |b| > 0 && a[0] == b[0] && multiset(a) == multiset(b)
    ensures multiset(a[1..]) == multiset(b[1..])
  {
    assert a == [a[0]] + a[1..] && b == [b[0]] + b[1..];
    assert multiset(a[1..]) == multiset(a) - multiset{a[0]} && multiset(b[1..]) == multiset(b) - multiset{b[0]};
  }

  /** The keys of a map in sorted order. */
  function SortedKeys(keys: set<string>): (r: seq<string>)
    ensures |r| == |keys|
    ensures forall k :: k in r <==> k in keys
  {
    if keys == {} then []
    else
      LeastExists(keys);
      LeastUnique(keys);
      var least :| IsLeast(keys, least);
      [least] + SortedKeys(keys - {least})
  }

  lemma LeastUnique(keys: set<string>)
    ensures forall a, b :: IsLeast(keys, a) && IsLeast(keys, b) ==> a == b
  {
    LessAsymmetric();
  }

  lemma {:induction false} KeysAscend(keys: set<string>)
    ensures forall i, j :: 0 <= i < j < |SortedKeys(keys)| ==> Less(SortedKeys(keys)[i], SortedKeys(keys)[j])
  {
    if keys != {} {
      LeastExists(keys);
      LeastUnique(keys);
      var least :| IsLeast(keys, least);
      var rest := SortedKeys(keys - {least});
      assert SortedKeys(keys) == [least] + rest;
      KeysAscend(keys - {least});
      forall j | 0 <= j < |rest| ensures Less(least, rest[j]) {
        assert rest[j] in rest;
      }
    }
  }

  lemma {:induction false} LeastExists(keys: set<string>)
    requires keys != {}
    ensures exists least :: IsLeast(keys, least)
  {
    var any :| any in keys;
    if keys == {any} {
      assert IsLeast(keys, any);
    } else {
      LeastExists(keys - {any});
      var m :| IsLeast(keys - {any}, m);
      LessTrichotomy(any, m);
      if Less(any, m) {
        forall k | k in keys && k != any ensures Less(any, k) {
          if k != m { LessTransitive(any, m, k); }
        }
        assert IsLeast(keys, any);
      } else {
        assert IsLeast(keys, m);
      }
    }
  }

  predicate IsLeast(keys: set<string>, least: string) {
    least in keys && forall k :: k in keys ==> k == least || Less(least, k)
  }

  /** Whatever order a map iterator yields the keys in, sorting them gives `SortedKeys`. */
  lemma SortedKeysUnique(keys: set<string>, order: seq<string>)
    requires multiset(order) == multiset(keys)
    ensures StableSort(LessEq, order) == SortedKeys(keys)
  {
    LessEqTotalOrder();
    StableSortSorts(LessEq, order);
    var sorted := SortedKeys(keys);
    KeysAscend(keys);
    forall i, j | 0 <= i < j < |sorted| ensures LessEq(sorted[i], sorted[j]) {
      LessTrichotomy(sorted[i], sorted[j]);
    }
    DistinctMultiset(sorted, keys);
    SortedUnique(LessEq, StableSort(LessEq, order), sorted);
  }

  lemma {:induction false} DistinctMultiset(s: seq<string>, keys: set<string>)
    requires |s| == |keys| && forall k :: k in s <==> k in keys
    requires forall i, j :: 0 <= i < j < |s| ==> Less(s[i], s[j])
    ensures multiset(s) == multiset(keys)
  {
    if |s| > 0 {
      var rest := s[1..];
      assert s == [s[0]] + rest;
      LessTrichotomy(s[0], s[0]);
      assert s[0] !in rest;
      DistinctMultiset(rest, keys - {s[0]});
    }
  }
}
