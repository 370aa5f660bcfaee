/** The TTL query cache of `cache.rs`, against the history of its operations. */
module QueryCache {
  import opened Wrappers
  import opened Strings
  import opened GlobMatch

  datatype Entry<V> = Entry(result: V, expiresAt: nat)

  datatype Op<V> =
    | Put(query: string, result: V, at: nat)
    | Clear
    | InvalidateViews(names: seq<string>)
    | InvalidatePattern(pattern: string)

  predicate MentionsAny(query: string, names: seq<string>) {
    exists i :: 0 <= i < |names| && Contains(query, names[i])
  }

  /** The queries an operation drops. */
  predicate Hits<V>(op: Op<V>, query: string) {
    match op
    case Put(_, _, _) => false
    case Clear => true
    case InvalidateViews(names) => MentionsAny(query, names)
    case InvalidatePattern(pattern) => Matches(query, pattern)
  }

  /** The operation, which is not a put, has nothing to do with the query. */
  ghost predicate Spares<V>(op: Op<V>, query: string) {
    match op
    case Put(_, _, _) => true
    case Clear => false
    case InvalidateViews(names) => forall i, at: nat :: 0 <= i < |names| ==> !OccursAt(query, names[i], at)
    case InvalidatePattern(pattern) => !Accepted(query, pattern)
  }

  lemma HitsOrSpares<V>(op: Op<V>, query: string)
    ensures Hits(op, query) <==> !Spares(op, query)
  {
    match op
    case InvalidatePattern(pattern) => MatchesIsAccepted(query, pattern);
    case InvalidateViews(names) =>
      if i, at: nat :| 0 <= i < |names| && OccursAt(query, names[i], at) {
        assert Contains(query, names[i]);
      }
    case _ =>
  }

  function Apply<V>(ttl: nat, m: map<string, Entry<V>>, op: Op<V>): map<string, Entry<V>> {
    if op.Put? then m[op.query := Entry(op.result, op.at + ttl)]
    else map q | q in m && !Hits(op, q) :: m[q]
  }

  function Keeping<V>(m: map<string, Entry<V>>, removed: seq<string>): map<string, Entry<V>> {
    map q | q in m && q !in removed :: m[q]
  }

  lemma KeepingOneLess<V>(m: map<string, Entry<V>>, removed: seq<string>, query: string)
    ensures Keeping(m, removed + [query]) == Keeping(m, removed) - {query}
    ensures |Keeping(m, removed + [query])| ==
            |Keeping(m, removed)| - if query in Keeping(m, removed) then 1 else 0
  {
    var before, after := Keeping(m, removed), Keeping(m, removed + [query]);
    assert after.Keys == before.Keys - {query};
  }

  class Cache<V> {
    const ttl: nat
    var entries: map<string, Entry<V>>

    constructor (ttl: nat)
      ensures this.ttl == ttl && entries == map[]
    {
      this.ttl, entries := ttl, map[];
    }

    method Get(query: string, now: nat) returns (r: Option<V>)
      ensures r == Fresh(entries, query, now)
    {
      if query in entries {
        if now < entries[query].expiresAt {
          return Some(entries[query].result);
        }
      }
      return None;
    }

    method Put(query: string, result: V, now: nat)
      modifies this
      ensures entries == Apply(ttl, old(entries), Op.Put(query, result, now))
      ensures entries == old(entries)[query := Entry(result, now + ttl)]
    {
      var expiresAt := now + ttl;
      entries := entries[query := Entry(result, expiresAt)];
    }

    method Clear()
      modifies this
      ensures entries == Apply(ttl, old(entries), Op.Clear) == map[]
    {
      entries := map[];
    }

    /** The removal loop shared by both invalidations. */
    method RemoveAll(toRemove: seq<string>) returns (removed: nat)
      modifies this
      ensures entries == Keeping(old(entries), toRemove)
      ensures removed == |old(entries)| - |entries|
    {
      removed := 0;
      ghost var before := entries;
      for i := 0 to |toRemove|
        invariant entries == Keeping(before, toRemove[..i])
        invariant removed == |before| - |entries|
      {
        var query := toRemove[i];
        KeepingOneLess(before, toRemove[..i], query);
        assert toRemove[..i + 1] == toRemove[..i] + [query];
        if query in entries {
          removed := removed + 1;
        }
        entries := entries - {query};
      }
      assert toRemove[..|toRemove|] == toRemove;
    }

    /** The inner loop of `invalidate_views`. */
    method Mentions(query: string, names: seq<string>) returns (found: bool)
      ensures found == MentionsAny(query, names)
    {
      found := false;
      for i := 0 to |names|
        invariant !found && forall j :: 0 <= j < i ==> !Contains(query, names[j])
      {
        if Contains(query, names[i]) {
          found := true;
          break;
        }
      }
    }

    method InvalidateViews(names: seq<string>) returns (removed: nat)
      modifies this
      ensures entries == Apply(ttl, old(entries), Op.InvalidateViews(names))
      ensures forall q :: q in entries <==>
                q in old(entries) && forall i, at: nat :: 0 <= i < |names| ==> !OccursAt(q, names[i], at)
      ensures forall q :: q in entries ==> entries[q] == old(entries)[q]
      ensures removed == |old(entries)| - |entries|
    {
      var toRemove := [];
      var rest := entries.Keys;
      while rest != {}
        invariant rest <= entries.Keys && entries == old(entries)
        invariant forall q :: q in toRemove <==> q in entries && q !in rest && MentionsAny(q, names)
        decreases rest
      {
        var query :| query in rest;
        rest := rest - {query};
        var mentioned := Mentions(query, names);
        if mentioned {
          toRemove := toRemove + [query];
        }
      }
      removed := RemoveAll(toRemove);
      forall q
        ensures Hits(Op<V>.InvalidateViews(names), q) <==> !Spares(Op<V>.InvalidateViews(names), q)
      {
        HitsOrSpares(Op<V>.InvalidateViews(names), q);
      }
    }

    method InvalidatePattern(pattern: string) returns (removed: nat)
      modifies this
      ensures entries == Apply(ttl, old(entries), Op.InvalidatePattern(pattern))
      ensures forall q :: q in entries <==> q in old(entries) && !Accepted(q, pattern)
      ensures forall q :: q in entries ==> entries[q] == old(entries)[q]
      ensures removed == |old(entries)| - |entries|
    {
      var toRemove := [];
      var rest := entries.Keys;
      while rest != {}
        invariant rest <= entries.Keys && entries == old(entries)
        invariant forall q :: q in toRemove <==> q in entries && q !in rest && Matches(q, pattern)
        decreases rest
      {
        var query :| query in rest;
        rest := rest - {query};
        var matched := MatchesPattern(query, pattern);
        if matched {
          toRemove := toRemove + [query];
        }
      }
      removed := RemoveAll(toRemove);
      forall q
        ensures Hits(Op<V>.InvalidatePattern(pattern), q) <==> !Spares(Op<V>.InvalidatePattern(pattern), q)
      {
        HitsOrSpares(Op<V>.InvalidatePattern(pattern), q);
      }
    }
  }

  // ----- Histories -----

  function Fresh<V>(m: map<string, Entry<V>>, query: string, now: nat): Option<V> {
    if query in m && now < m[query].expiresAt then Some(m[query].result) else None
  }

  /** The entries after a sequence of operations on a new cache. */
  function Replay<V>(ttl: nat, ops: seq<Op<V>>): map<string, Entry<V>> {
    if ops == [] then map[]
    else Apply(ttl, Replay(ttl, ops[..|ops| - 1]), ops[|ops| - 1])
  }

  predicate Overwrites<V>(op: Op<V>, query: string) {
    op.Put? && op.query == query
  }

  /** Operation i put the query, and nothing since has overwritten or dropped it. */
  ghost predicate LastPut<V>(ops: seq<Op<V>>, i: nat, query: string) {
    && i < |ops| && Overwrites(ops[i], query)
    && forall j :: i < j < |ops| ==> !Overwrites(ops[j], query) && Spares(ops[j], query)
  }

  lemma {:induction false} StoredExactly<V>(ttl: nat, ops: seq<Op<V>>, query: string)
    ensures query in Replay(ttl, ops) <==> exists i: nat :: LastPut(ops, i, query)
    ensures forall i: nat :: LastPut(ops, i, query) && query in Replay(ttl, ops) ==>
              Replay(ttl, ops)[query] == Entry(ops[i].result, ops[i].at + ttl)
    decreases |ops|
  {
    if ops != [] {
      var n := |ops| - 1;
      var before, op := ops[..n], ops[n];
      StoredExactly(ttl, before, query);
      HitsOrSpares(op, query);
      if Overwrites(op, query) {
        assert LastPut(ops, n, query);
      } else if !Hits(op, query) {
        forall i: nat | i < n
          ensures LastPut(ops, i, query) <==> LastPut(before, i, query)
        {
        }
      }
    }
  }

  /** `get` agrees with the history: it returns v exactly when the last put of the query that
      nothing has overwritten or invalidated stored v and is younger than the TTL. */
  lemma {:induction false} GetAgreesWithHistory<V>(ttl: nat, ops: seq<Op<V>>, query: string, now: nat, v: V)
    ensures Fresh(Replay(ttl, ops), query, now) == Some(v) <==>
            exists i: nat :: LastPut(ops, i, query) && ops[i].result == v && now < ops[i].at + ttl
  {
    StoredExactly(ttl, ops, query);
  }
}
