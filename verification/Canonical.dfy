/** `normalise` of `compare_parity_schemas.py`: the canonical form in which schemas are compared.
    Python's `str` is a parameter: everything holds for any rendering of values as text. */
module Canonical {
  import opened StableSort

  datatype Kind = Array | Object

  /** A JSON value as `json.load` gives it. An object is a node of members in insertion order. */
  datatype Json =
    | Null
    | Bool(b: bool)
    | Int(n: int)
    | Float(literal: string)
    | Str(s: string)
    | Member(key: string, value: Json)
    | Node(kind: Kind, children: seq<Json>)

  type Renderer = Json -> string

  /** Members occur in objects and nowhere else, and an object has no key twice. */
  predicate Valid(j: Json) {
    match j
    case Member(_, v) => !v.Member? && Valid(v)
    case Node(kind, children) =>
      && (forall i :: 0 <= i < |children| ==> Valid(children[i]))
      && (forall i :: 0 <= i < |children| ==> (children[i].Member? <==> kind.Object?))
      && (kind.Object? ==> forall i, j :: 0 <= i < j < |children| && children[i].Member? && children[j].Member? ==>
            children[i].key != children[j].key)
    case _ => true
  }

  /** What siblings are sorted by: `sorted(obj.items())` looks at keys, `key=str` at the text. */
  function SortKey(str: Renderer, kind: Kind, j: Json): string {
    if kind.Object? && j.Member? then j.key else str(j)
  }

  function Leq(str: Renderer, kind: Kind): (Json, Json) -> bool {
    (a, b) => LexLeq(SortKey(str, kind, a), SortKey(str, kind, b))
  }

  function Normalise(str: Renderer, j: Json): Json {
    match j
    case Member(k, v) => Member(k, Normalise(str, v))
    case Node(kind, children) => Node(kind, Sort(Leq(str, kind), NormaliseAll(str, children)))
    case _ => j
  }

  function NormaliseAll(str: Renderer, js: seq<Json>): (r: seq<Json>)
    ensures |r| == |js|
    ensures forall i {:trigger r[i]} :: 0 <= i < |js| ==> r[i] == Normalise(str, js[i])
  {
    if js == [] then [] else [Normalise(str, js[0])] + NormaliseAll(str, js[1..])
  }

  /** Equal up to reordering the children of every node, at every depth. */
  ghost predicate Same(a: Json, b: Json) {
    match a
    case Member(k, v) => b.Member? && b.key == k && Same(v, b.value)
    case Node(kind, children) => b.Node? && b.kind == kind && Matched(children, b.children)
    case _ => a == b
  }

  /** The two sequences can be paired off, one to one. */
  ghost predicate Matched(xs: seq<Json>, ys: seq<Json>) {
    if xs == [] then ys == []
    else exists j :: 0 <= j < |ys| && Same(xs[0], ys[j]) && Matched(xs[1..], Dropped(ys, j))
  }

  function Dropped(ys: seq<Json>, j: nat): seq<Json>
    requires j < |ys|
  {
    ys[..j] + ys[j + 1..]
  }

  lemma {:induction false} LeqIsPreorder(str: Renderer, kind: Kind)
    ensures TotalPreorder(Leq(str, kind))
  {
    LexIsTotalOrder();
  }

  lemma DroppedMultiset(ys: seq<Json>, j: nat)
    requires j < |ys|
    ensures multiset(Dropped(ys, j)) == multiset(ys) - multiset{ys[j]}
    ensures forall y :: y in Dropped(ys, j) ==> y in ys
  {
    assert ys == ys[..j] + [ys[j]] + ys[j + 1..];
  }

  lemma HeadMatches(ns: seq<Json>, ms: seq<Json>, j: nat)
    requires ns != [] && j < |ms| && ms[j] == ns[0]
    ensures multiset(ns) == multiset(ms) <==> multiset(ns[1..]) == multiset(Dropped(ms, j))
  {
    DroppedMultiset(ms, j);
    assert ns == [ns[0]] + ns[1..];
    assert multiset(ms) == multiset(Dropped(ms, j)) + multiset{ms[j]};
  }

  lemma {:induction false} NormaliseAllDropped(str: Renderer, ys: seq<Json>, j: nat)
    requires j < |ys|
    ensures NormaliseAll(str, Dropped(ys, j)) == Dropped(NormaliseAll(str, ys), j)
    decreases |ys|
  {
    if j == 0 {
      assert Dropped(ys, j) == ys[1..];
    } else {
      assert Dropped(ys, j)[1..] == Dropped(ys[1..], j - 1);
      NormaliseAllDropped(str, ys[1..], j - 1);
    }
  }

  /** The script sorts an object's items and then normalises their values; keys do not change,
      so this is the other way round said. */
  lemma {:induction false} SortThenNormaliseMembers(str: Renderer, ms: seq<Json>)
    requires forall m :: m in ms ==> m.Member?
    ensures NormaliseAll(str, Sort(Leq(str, Object), ms)) == Sort(Leq(str, Object), NormaliseAll(str, ms))
    decreases |ms|
  {
    if ms != [] {
      assert forall m :: m in ms[1..] ==> m in ms;
      SortThenNormaliseMembers(str, ms[1..]);
      SortPermutes(Leq(str, Object), ms[1..]);
      InsertThenNormaliseMembers(str, ms[0], Sort(Leq(str, Object), ms[1..]));
    }
  }

  lemma {:induction false} InsertThenNormaliseMembers(str: Renderer, m: Json, ms: seq<Json>)
    requires m.Member? && forall other :: other in ms ==> other.Member?
    ensures NormaliseAll(str, Insert(Leq(str, Object), m, ms)) ==
            Insert(Leq(str, Object), Normalise(str, m), NormaliseAll(str, ms))
    decreases |ms|
  {
    if ms == [] {
      assert Insert(Leq(str, Object), m, ms) == [m];
    } else if Leq(str, Object)(m, ms[0]) {
      assert ([m] + ms)[1..] == ms;
    } else {
      assert forall other :: other in ms[1..] ==> other in ms;
      InsertThenNormaliseMembers(str, m, ms[1..]);
      var rest := Insert(Leq(str, Object), m, ms[1..]);
      assert ([ms[0]] + rest)[1..] == rest;
    }
  }

  // ----- The canonical form determines the value up to order -----

  lemma {:induction false} EqualNormalsAreSame(str: Renderer, a: Json, b: Json)
    requires Normalise(str, a) == Normalise(str, b)
    ensures Same(a, b)
    decreases a
  {
    match a
    case Member(_, v) => EqualNormalsAreSame(str, v, b.value);
    case Node(kind, children) =>
      var ns, ms := NormaliseAll(str, children), NormaliseAll(str, b.children);
      SortPermutes(Leq(str, kind), ns);
      SortPermutes(Leq(str, kind), ms);
      EqualNormalsAreMatched(str, children, b.children);
    case _ =>
  }

  lemma {:induction false} EqualNormalsAreMatched(str: Renderer, xs: seq<Json>, ys: seq<Json>)
    requires multiset(NormaliseAll(str, xs)) == multiset(NormaliseAll(str, ys))
    ensures Matched(xs, ys)
    decreases xs
  {
    var ns, ms := NormaliseAll(str, xs), NormaliseAll(str, ys);
    assert |multiset(ns)| == |multiset(ms)|;
    if xs != [] {
      assert ns[0] in multiset(ms);
      var j :| 0 <= j < |ms| && ms[j] == ns[0];
      EqualNormalsAreSame(str, xs[0], ys[j]);
      NormaliseAllDropped(str, ys, j);
      HeadMatches(ns, ms, j);
      EqualNormalsAreMatched(str, xs[1..], Dropped(ys, j));
    }
  }

  // ----- Idempotence -----

  lemma {:induction false} NormalsAreFixed(str: Renderer, ns: seq<Json>)
    requires forall n :: n in ns ==> Normalise(str, n) == n
    ensures NormaliseAll(str, ns) == ns
    decreases |ns|
  {
    if ns != [] {
      assert ns == [ns[0]] + ns[1..];
      NormalsAreFixed(str, ns[1..]);
    }
  }

  lemma {:induction false} NormaliseIsIdempotent(str: Renderer, j: Json)
    ensures Normalise(str, Normalise(str, j)) == Normalise(str, j)
  {
    match j
    case Member(_, v) => NormaliseIsIdempotent(str, v);
    case Node(kind, children) =>
      var ns := NormaliseAll(str, children);
      var sorted := Sort(Leq(str, kind), ns);
      SortPermutes(Leq(str, kind), ns);
      forall n | n in sorted
        ensures Normalise(str, n) == n
      {
        var i :| 0 <= i < |children| && ns[i] == n;
        NormaliseIsIdempotent(str, children[i]);
      }
      NormalsAreFixed(str, sorted);
      LeqIsPreorder(str, kind);
      SortOrders(Leq(str, kind), ns);
      SortOfOrdered(Leq(str, kind), sorted);
    case _ =>
  }

  // ----- When order is forgotten -----

  /** In every array, the text tells different normalised siblings apart. */
  ghost predicate Discriminating(str: Renderer, j: Json) {
    match j
    case Member(_, v) => Discriminating(str, v)
    case Node(kind, children) =>
      && (forall i :: 0 <= i < |children| ==> Discriminating(str, children[i]))
      && (kind.Array? ==> ToldApart(str, NormaliseAll(str, children)))
    case _ => true
  }

  ghost predicate ToldApart(str: Renderer, ns: seq<Json>) {
    forall i, j :: 0 <= i < j < |ns| && str(ns[i]) == str(ns[j]) ==> ns[i] == ns[j]
  }

  /** In a valid, discriminated node different normalised siblings never rank alike. */
  lemma {:induction false} SiblingsRankApart(str: Renderer, kind: Kind, children: seq<Json>, i: nat, j: nat)
    requires Valid(Node(kind, children)) && Discriminating(str, Node(kind, children))
    requires i < |children| && j < |children|
    requires var ns := NormaliseAll(str, children);
             Leq(str, kind)(ns[i], ns[j]) && Leq(str, kind)(ns[j], ns[i])
    ensures NormaliseAll(str, children)[i] == NormaliseAll(str, children)[j]
  {
    var ns := NormaliseAll(str, children);
    LexTotal(SortKey(str, kind, ns[i]), SortKey(str, kind, ns[j]));
  }

  lemma {:induction false} SortedSiblingsRankApart(str: Renderer, kind: Kind, children: seq<Json>, x: Json, y: Json)
    requires Valid(Node(kind, children)) && Discriminating(str, Node(kind, children))
    requires var ns := NormaliseAll(str, children); x in ns && y in ns
    requires Leq(str, kind)(x, y) && Leq(str, kind)(y, x)
    ensures x == y
  {
    var ns := NormaliseAll(str, children);
    var i :| 0 <= i < |ns| && ns[i] == x;
    var j :| 0 <= j < |ns| && ns[j] == y;
    SiblingsRankApart(str, kind, children, i, j);
  }

  /** Where no two different elements rank alike, sorting forgets the order. */
  lemma {:induction false} SortForgetsOrder(leq: (Json, Json) -> bool, ns: seq<Json>, ms: seq<Json>)
    requires TotalPreorder(leq) && multiset(ns) == multiset(ms)
    requires forall x, y :: x in ns && y in ns && leq(x, y) && leq(y, x) ==> x == y
    ensures Sort(leq, ns) == Sort(leq, ms)
  {
    SortPermutes(leq, ns);
    SortPermutes(leq, ms);
    SortOrders(leq, ns);
    SortOrders(leq, ms);
    OrderedIsUnique(leq, Sort(leq, ns), Sort(leq, ms));
  }

  lemma {:induction false} NodeForgetsOrder(str: Renderer, kind: Kind, children: seq<Json>, ms: seq<Json>)
    requires Valid(Node(kind, children)) && Discriminating(str, Node(kind, children))
    requires multiset(NormaliseAll(str, children)) == multiset(ms)
    ensures Sort(Leq(str, kind), NormaliseAll(str, children)) == Sort(Leq(str, kind), ms)
  {
    var leq, ns := Leq(str, kind), NormaliseAll(str, children);
    LeqIsPreorder(str, kind);
    forall x, y | x in ns && y in ns && leq(x, y) && leq(y, x)
      ensures x == y
    {
      SortedSiblingsRankApart(str, kind, children, x, y);
    }
    SortForgetsOrder(leq, ns, ms);
  }

  lemma {:induction false} SameHaveEqualNormals(str: Renderer, a: Json, b: Json)
    requires Valid(a) && Discriminating(str, a) && Same(a, b)
    ensures Normalise(str, a) == Normalise(str, b)
    decreases a
  {
    match a
    case Member(_, v) => SameHaveEqualNormals(str, v, b.value);
    case Node(kind, children) =>
      MatchedHaveEqualNormals(str, children, b.children);
      NodeForgetsOrder(str, kind, children, NormaliseAll(str, b.children));
    case _ =>
  }

  lemma {:induction false} MatchedHaveEqualNormals(str: Renderer, xs: seq<Json>, ys: seq<Json>)
    requires Matched(xs, ys)
    requires forall i :: 0 <= i < |xs| ==> Valid(xs[i]) && Discriminating(str, xs[i])
    ensures multiset(NormaliseAll(str, xs)) == multiset(NormaliseAll(str, ys))
    decreases xs
  {
    if xs != [] {
      var j :| 0 <= j < |ys| && Same(xs[0], ys[j]) && Matched(xs[1..], Dropped(ys, j));
      SameHaveEqualNormals(str, xs[0], ys[j]);
      MatchedHaveEqualNormals(str, xs[1..], Dropped(ys, j));
      NormaliseAllDropped(str, ys, j);
      HeadMatches(NormaliseAll(str, xs), NormaliseAll(str, ys), j);
    }
  }

  // ----- Where the text does not tell siblings apart, order shows -----

  lemma {:induction false} SameReflexive(a: Json)
    ensures Same(a, a)
    decreases a, 0
  {
    match a
    case Member(_, v) => SameReflexive(v);
    case Node(_, children) => RearrangedAreMatched(children, children);
    case _ =>
  }

  lemma {:induction false} RearrangedAreMatched(xs: seq<Json>, ys: seq<Json>)
    requires multiset(xs) == multiset(ys)
    ensures Matched(xs, ys)
    decreases xs, 1
  {
    assert |multiset(xs)| == |multiset(ys)|;
    if xs != [] {
      assert xs[0] in multiset(ys);
      var j :| 0 <= j < |ys| && ys[j] == xs[0];
      SameReflexive(xs[0]);
      DroppedMultiset(ys, j);
      assert xs == [xs[0]] + xs[1..];
      RearrangedAreMatched(xs[1..], Dropped(ys, j));
    }
  }

  /** Replacing one child by one that is the same up to order. */
  lemma {:induction false} ReplacedIsMatched(xs: seq<Json>, i: nat, y: Json)
    requires i < |xs| && Same(xs[i], y)
    ensures Matched(xs, xs[i := y])
    decreases xs
  {
    var ys := xs[i := y];
    assert Dropped(ys, 0) == if i == 0 then xs[1..] else xs[1..][i - 1 := y];
    if i == 0 {
      RearrangedAreMatched(xs[1..], xs[1..]);
    } else {
      SameReflexive(xs[0]);
      ReplacedIsMatched(xs[1..], i - 1, y);
    }
  }

  lemma ReplacedMultisetDiffers(ns: seq<Json>, i: nat, n: Json)
    requires i < |ns| && ns[i] != n
    ensures multiset(ns[i := n]) != multiset(ns)
  {
    assert multiset(ns[i := n])[n] == multiset(ns)[n] + 1;
  }

  lemma {:induction false} NormaliseAllUpdated(str: Renderer, xs: seq<Json>, i: nat, y: Json)
    requires i < |xs|
    ensures NormaliseAll(str, xs[i := y]) == NormaliseAll(str, xs)[i := Normalise(str, y)]
    decreases |xs|
  {
    if i > 0 {
      assert xs[i := y][1..] == xs[1..][i - 1 := y];
      NormaliseAllUpdated(str, xs[1..], i - 1, y);
    } else {
      assert xs[i := y][1..] == xs[1..];
    }
  }

  lemma {:induction false} NodesDiffer(str: Renderer, kind: Kind, xs: seq<Json>, ys: seq<Json>)
    requires multiset(NormaliseAll(str, xs)) != multiset(NormaliseAll(str, ys))
    ensures Normalise(str, Node(kind, xs)) != Normalise(str, Node(kind, ys))
  {
    SortPermutes(Leq(str, kind), NormaliseAll(str, xs));
    SortPermutes(Leq(str, kind), NormaliseAll(str, ys));
  }

  lemma ReplacedNormalsDiffer(str: Renderer, kind: Kind, xs: seq<Json>, i: nat, y: Json)
    requires i < |xs| && Normalise(str, y) != Normalise(str, xs[i])
    ensures Normalise(str, Node(kind, xs[i := y])) != Normalise(str, Node(kind, xs))
  {
    NormaliseAllUpdated(str, xs, i, y);
    ReplacedMultisetDiffers(NormaliseAll(str, xs), i, Normalise(str, y));
    NodesDiffer(str, kind, xs[i := y], xs);
  }

  lemma {:induction false} PeersOfAppend(leq: (Json, Json) -> bool, s: seq<Json>, t: seq<Json>, x: Json)
    ensures Peers(leq, s + t, x) == Peers(leq, s, x) + Peers(leq, t, x)
    decreases |s|
  {
    if s == [] {
      assert s + t == t;
    } else {
      assert (s + t)[1..] == s[1..] + t;
      PeersOfAppend(leq, s[1..], t, x);
    }
  }

  function Swapped(xs: seq<Json>, i: nat, j: nat): seq<Json>
    requires i < j < |xs|
  {
    xs[i := xs[j]][j := xs[i]]
  }

  lemma PeersStartWith(leq: (Json, Json) -> bool, a: seq<Json>, y: Json, rest: seq<Json>, x: Json)
    requires leq(y, x) && leq(x, y)
    ensures |Peers(leq, a + ([y] + rest), x)| > |Peers(leq, a, x)|
    ensures Peers(leq, a + ([y] + rest), x)[|Peers(leq, a, x)|] == y
  {
    PeersOfAppend(leq, a, [y] + rest, x);
  }

  /** A stable sort keeps the order of two elements that rank alike. */
  lemma SortsDiffer(leq: (Json, Json) -> bool, a: seq<Json>, x: Json, u: seq<Json>, y: Json, v: seq<Json>)
    requires TotalPreorder(leq) && x != y && leq(x, y) && leq(y, x)
    ensures Sort(leq, a + ([x] + u)) != Sort(leq, a + ([y] + v))
  {
    assert leq(x, x);
    PeersStartWith(leq, a, x, u, x);
    PeersStartWith(leq, a, y, v, x);
    SortIsStable(leq, a + ([x] + u), x);
    SortIsStable(leq, a + ([y] + v), x);
  }

  lemma SwappedShape(s: seq<Json>, i: nat, j: nat)
    requires i < j < |s|
    ensures s == s[..i] + ([s[i]] + s[i + 1..])
    ensures Swapped(s, i, j) == s[..i] + ([s[j]] + Swapped(s, i, j)[i + 1..])
  {
  }

  lemma SwappedSortsDiffer(leq: (Json, Json) -> bool, s: seq<Json>, i: nat, j: nat)
    requires TotalPreorder(leq) && i < j < |s| && s[i] != s[j] && leq(s[i], s[j]) && leq(s[j], s[i])
    ensures Sort(leq, s) != Sort(leq, Swapped(s, i, j))
  {
    var t := Swapped(s, i, j);
    SwappedShape(s, i, j);
    SortsDiffer(leq, s[..i], s[i], s[i + 1..], s[j], t[i + 1..]);
  }

  lemma SwappedNormals(str: Renderer, xs: seq<Json>, i: nat, j: nat)
    requires i < j < |xs|
    ensures NormaliseAll(str, Swapped(xs, i, j)) == Swapped(NormaliseAll(str, xs), i, j)
  {
    NormaliseAllUpdated(str, xs, i, xs[j]);
    NormaliseAllUpdated(str, xs[i := xs[j]], j, xs[i]);
  }

  lemma {:induction false} SwappedAreMatched(xs: seq<Json>, i: nat, j: nat)
    requires i < j < |xs|
    ensures Matched(xs, Swapped(xs, i, j))
  {
    assert multiset(Swapped(xs, i, j)) == multiset(xs);
    RearrangedAreMatched(xs, Swapped(xs, i, j));
  }

  lemma SwappedNormalsDiffer(str: Renderer, xs: seq<Json>, i: nat, j: nat)
    requires i < j < |xs|
    requires str(Normalise(str, xs[i])) == str(Normalise(str, xs[j])) && Normalise(str, xs[i]) != Normalise(str, xs[j])
    ensures Normalise(str, Node(Array, Swapped(xs, i, j))) != Normalise(str, Node(Array, xs))
    ensures Same(Node(Array, xs), Node(Array, Swapped(xs, i, j)))
  {
    var ns := NormaliseAll(str, xs);
    LeqIsPreorder(str, Array);
    LexTotal(str(ns[i]), str(ns[i]));
    SwappedSortsDiffer(Leq(str, Array), ns, i, j);
    SwappedNormals(str, xs, i, j);
    SwappedAreMatched(xs, i, j);
  }

  /** A value that is not discriminated has a reordering with another normal form. */
  lemma {:induction false} ReorderingShows(str: Renderer, a: Json) returns (b: Json)
    requires !Discriminating(str, a)
    ensures Same(a, b) && Normalise(str, a) != Normalise(str, b)
    decreases a
  {
    if a.Member? {
      var v := ReorderingShows(str, a.value);
      b := Member(a.key, v);
    } else if i :| 0 <= i < |a.children| && !Discriminating(str, a.children[i]) {
      var y := ReorderingShows(str, a.children[i]);
      b := Node(a.kind, a.children[i := y]);
      ReplacedIsMatched(a.children, i, y);
      ReplacedNormalsDiffer(str, a.kind, a.children, i, y);
    } else {
      var ns := NormaliseAll(str, a.children);
      var i, j :| 0 <= i < j < |ns| && str(ns[i]) == str(ns[j]) && ns[i] != ns[j];
      b := Node(Array, Swapped(a.children, i, j));
      SwappedNormalsDiffer(str, a.children, i, j);
    }
  }

  /** Two values with equal normal forms are always the same up to order; all reorderings of a
      value have its normal form exactly when the text tells its array siblings apart. */
  lemma {:induction false} CanonicalExactly(str: Renderer, a: Json)
    requires Valid(a)
    ensures forall b :: Normalise(str, a) == Normalise(str, b) ==> Same(a, b)
    ensures (forall b :: Same(a, b) ==> Normalise(str, a) == Normalise(str, b)) <==> Discriminating(str, a)
  {
    forall b | Normalise(str, a) == Normalise(str, b)
      ensures Same(a, b)
    {
      EqualNormalsAreSame(str, a, b);
    }
    if Discriminating(str, a) {
      forall b | Same(a, b)
        ensures Normalise(str, a) == Normalise(str, b)
      {
        SameHaveEqualNormals(str, a, b);
      }
    } else {
      var b := ReorderingShows(str, a);
    }
  }

  /** Python renders 1 and "1" alike, so the order of these two siblings shows. */
  lemma NumberAndItsText(str: Renderer)
    requires str(Int(1)) == str(Str("1"))
    ensures var a, b := Node(Array, [Int(1), Str("1")]), Node(Array, [Str("1"), Int(1)]);
            Same(a, b) && Normalise(str, a) != Normalise(str, b)
  {
    var xs := [Int(1), Str("1")];
    assert Swapped(xs, 0, 1) == [Str("1"), Int(1)];
    SwappedNormalsDiffer(str, xs, 0, 1);
  }
}
