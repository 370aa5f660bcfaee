/** Stable sorting, as the standard libraries of the modelled code do it: the result is fixed by
    being an ordered and stable rearrangement, so the algorithm does not matter. */
module StableSort {

  ghost predicate TotalPreorder<T(!new)>(leq: (T, T) -> bool) {
    && (forall x, y :: leq(x, y) || leq(y, x))
    && (forall x, y, z :: leq(x, y) && leq(y, z) ==> leq(x, z))
  }

  ghost predicate Ordered<T>(leq: (T, T) -> bool, s: seq<T>) {
    forall i, j :: 0 <= i < j < |s| ==> leq(s[i], s[j])
  }

  /** The elements that rank like x, in the order they come in. */
  function Peers<T>(leq: (T, T) -> bool, s: seq<T>, x: T): seq<T> {
    if s == [] then []
    else (if leq(s[0], x) && leq(x, s[0]) then [s[0]] else []) + Peers(leq, s[1..], x)
  }

  function Insert<T>(leq: (T, T) -> bool, x: T, s: seq<T>): seq<T> {
    if s == [] || leq(x, s[0]) then [x] + s else [s[0]] + Insert(leq, x, s[1..])
  }

  function Sort<T>(leq: (T, T) -> bool, s: seq<T>): seq<T> {
    if s == [] then [] else Insert(leq, s[0], Sort(leq, s[1..]))
  }

  lemma {:induction false} InsertPermutes<T>(leq: (T, T) -> bool, x: T, s: seq<T>)
    ensures multiset(Insert(leq, x, s)) == multiset{x} + multiset(s)
  {
    if s != [] {
      InsertPermutes(leq, x, s[1..]);
      assert s == [s[0]] + s[1..];
    }
  }

  lemma {:induction false} SortPermutes<T>(leq: (T, T) -> bool, s: seq<T>)
    ensures multiset(Sort(leq, s)) == multiset(s)
    ensures forall x :: x in Sort(leq, s) <==> x in s
    ensures |Sort(leq, s)| == |s|
  {
    if s != [] {
      SortPermutes(leq, s[1..]);
      InsertPermutes(leq, s[0], Sort(leq, s[1..]));
      assert s == [s[0]] + s[1..];
    }
    assert forall x :: x in Sort(leq, s) <==> x in multiset(Sort(leq, s));
    assert |multiset(Sort(leq, s))| == |multiset(s)|;
  }

  lemma {:induction false} InsertKeepsOrder<T(!new)>(leq: (T, T) -> bool, x: T, s: seq<T>)
    requires TotalPreorder(leq) && Ordered(leq, s)
    ensures Ordered(leq, Insert(leq, x, s))
  {
    if s != [] && !leq(x, s[0]) {
      InsertKeepsOrder(leq, x, s[1..]);
      InsertPermutes(leq, x, s[1..]);
      forall y | y in Insert(leq, x, s[1..])
        ensures leq(s[0], y)
      {
        assert y in multiset(Insert(leq, x, s[1..]));
      }
    }
  }

  lemma {:induction false} SortOrders<T(!new)>(leq: (T, T) -> bool, s: seq<T>)
    requires TotalPreorder(leq)
    ensures Ordered(leq, Sort(leq, s))
  {
    if s != [] {
      SortOrders(leq, s[1..]);
      InsertKeepsOrder(leq, s[0], Sort(leq, s[1..]));
    }
  }

  lemma {:induction false} InsertIsStable<T(!new)>(leq: (T, T) -> bool, x: T, s: seq<T>, y: T)
    requires TotalPreorder(leq)
    ensures Peers(leq, Insert(leq, x, s), y) == Peers(leq, [x] + s, y)
  {
    if s != [] && !leq(x, s[0]) {
      InsertIsStable(leq, x, s[1..], y);
      assert ([x] + s)[1..] == s && ([x] + s[1..])[1..] == s[1..];
    }
  }

  lemma {:induction false} SortIsStable<T(!new)>(leq: (T, T) -> bool, s: seq<T>, y: T)
    requires TotalPreorder(leq)
    ensures Peers(leq, Sort(leq, s), y) == Peers(leq, s, y)
  {
    if s != [] {
      SortIsStable(leq, s[1..], y);
      InsertIsStable(leq, s[0], Sort(leq, s[1..]), y);
    }
  }

  lemma {:induction false} PeersOf<T>(leq: (T, T) -> bool, s: seq<T>, y: T)
    ensures forall x :: x in Peers(leq, s, y) ==> x in s && leq(x, y) && leq(y, x)
    ensures forall x :: x in s && leq(x, y) && leq(y, x) ==> x in Peers(leq, s, y)
  {
    if s != [] {
      PeersOf(leq, s[1..], y);
    }
  }

  lemma FirstHasPeers<T(!new)>(leq: (T, T) -> bool, s: seq<T>)
    requires TotalPreorder(leq)
    ensures s != [] ==> Peers(leq, s, s[0]) != []
  {
    if s != [] {
      assert leq(s[0], s[0]);
    }
  }

  /** An ordered rearrangement that keeps peers in order is the stable sort. */
  lemma {:induction false} StableSortIsUnique<T(!new)>(leq: (T, T) -> bool, s: seq<T>, t: seq<T>)
    requires TotalPreorder(leq) && Ordered(leq, s) && Ordered(leq, t)
    requires forall y :: Peers(leq, s, y) == Peers(leq, t, y)
    ensures s == t
    decreases |s|
  {
    FirstHasPeers(leq, s);
    FirstHasPeers(leq, t);
    if s != [] {
      PeersOf(leq, s, s[0]);
      PeersOf(leq, t, s[0]);
      assert leq(s[0], s[0]) && s[0] in t;
      PeersOf(leq, s, t[0]);
      PeersOf(leq, t, t[0]);
      assert leq(t[0], t[0]) && t[0] in s;
      assert leq(s[0], t[0]) && leq(t[0], s[0]);
      assert Peers(leq, s, s[0])[0] == s[0] && Peers(leq, t, s[0])[0] == t[0];
      forall y
        ensures Peers(leq, s[1..], y) == Peers(leq, t[1..], y)
      {
        var head := if leq(s[0], y) && leq(y, s[0]) then [s[0]] else [];
        assert Peers(leq, s, y) == head + Peers(leq, s[1..], y);
        assert Peers(leq, t, y) == head + Peers(leq, t[1..], y);
        assert Peers(leq, s, y)[|head|..] == Peers(leq, s[1..], y);
      }
      StableSortIsUnique(leq, s[1..], t[1..]);
    }
  }

  lemma {:induction false} SortOfOrdered<T(!new)>(leq: (T, T) -> bool, s: seq<T>)
    requires TotalPreorder(leq) && Ordered(leq, s)
    ensures Sort(leq, s) == s
  {
    if s != [] {
      SortOfOrdered(leq, s[1..]);
    }
  }

  lemma FirstIsLeast<T(!new)>(leq: (T, T) -> bool, s: seq<T>, x: T)
    requires TotalPreorder(leq) && Ordered(leq, s) && s != []
    ensures x in multiset(s) ==> x in s && leq(s[0], x)
    ensures s[0] in multiset(s)
  {
    assert leq(x, x);
  }

  /** Where no two different elements rank alike, sorting forgets the order of the input. */
  lemma {:induction false} OrderedIsUnique<T(!new)>(leq: (T, T) -> bool, s: seq<T>, t: seq<T>)
    requires TotalPreorder(leq) && Ordered(leq, s) && Ordered(leq, t) && multiset(s) == multiset(t)
    requires forall x, y :: x in s && y in s && leq(x, y) && leq(y, x) ==> x == y
    ensures s == t
    decreases |s|
  {
    assert |multiset(s)| == |multiset(t)|;
    if s != [] {
      FirstIsLeast(leq, s, t[0]);
      FirstIsLeast(leq, t, s[0]);
      assert s == [s[0]] + s[1..] && t == [t[0]] + t[1..];
      assert multiset(s[1..]) == multiset(s) - multiset{s[0]};
      OrderedIsUnique(leq, s[1..], t[1..]);
    }
  }

  // ----- Strings, by code point -----

  predicate LexLeq(a: string, b: string) {
    a == "" || (b != "" && (a[0] < b[0] || (a[0] == b[0] && LexLeq(a[1..], b[1..]))))
  }

  lemma {:induction false} LexTotal(a: string, b: string)
    ensures LexLeq(a, b) || LexLeq(b, a)
    ensures LexLeq(a, b) && LexLeq(b, a) ==> a == b
  {
    if a != "" && b != "" {
      LexTotal(a[1..], b[1..]);
      assert a == [a[0]] + a[1..] && b == [b[0]] + b[1..];
    }
  }

  /** The strings agree before i and the first one has the smaller character there. */
  predicate SmallerAt(a: string, b: string, i: nat) {
    i < |a| && i < |b| && a[..i] == b[..i] && a[i] < b[i]
  }

  lemma SmallerBehind(c: char, a: string, b: string, i: nat)
    ensures SmallerAt([c] + a, [c] + b, i + 1) <==> SmallerAt(a, b, i)
  {
    if i <= |a| && i <= |b| {
      assert ([c] + a)[..i + 1] == [c] + a[..i] && ([c] + b)[..i + 1] == [c] + b[..i];
      assert ([c] + a[..i])[1..] == a[..i] && ([c] + b[..i])[1..] == b[..i];
    }
  }

  /** By code point at the first difference, a prefix first. */
  lemma {:induction false} LexExactly(a: string, b: string)
    ensures LexLeq(a, b) <==> a <= b || exists i: nat :: SmallerAt(a, b, i)
  {
    if a != "" && b != "" {
      var s, t := a[1..], b[1..];
      assert a == [a[0]] + s && b == [b[0]] + t;
      if a[0] == b[0] {
        LexExactly(s, t);
        forall i: nat
          ensures SmallerAt(a, b, i + 1) <==> SmallerAt(s, t, i)
        {
          SmallerBehind(a[0], s, t, i);
        }
        if i: nat :| SmallerAt(a, b, i) {
          assert SmallerAt(s, t, i - 1);
        }
      } else {
        assert SmallerAt(a, b, 0) <==> a[0] < b[0];
        assert forall i: nat :: SmallerAt(a, b, i) && i > 0 ==> a[..i][0] == b[..i][0];
      }
    }
  }

  lemma {:induction false} LexTransitive(a: string, b: string, c: string)
    requires LexLeq(a, b) && LexLeq(b, c)
    ensures LexLeq(a, c)
  {
    if a != "" && a[0] == b[0] == c[0] {
      LexTransitive(a[1..], b[1..], c[1..]);
    }
  }

  lemma LexIsTotalOrder()
    ensures TotalPreorder(LexLeq)
    ensures forall a, b :: LexLeq(a, b) && LexLeq(b, a) ==> a == b
  {
    forall a, b ensures LexLeq(a, b) || LexLeq(b, a) { LexTotal(a, b); }
    forall a, b | LexLeq(a, b) && LexLeq(b, a) ensures a == b { LexTotal(a, b); }
    forall a, b, c | LexLeq(a, b) && LexLeq(b, c) ensures LexLeq(a, c) { LexTransitive(a, b, c); }
  }
}
