/** The one-shot PKCE state stores of `pkce.rs`, in memory and in Redis, over whole runs.
    Random keys and verifiers, the nonce of the cipher and the clock are inputs of each call. */
module PkceStore {
  import opened Wrappers

  datatype Entry = Entry(verifier: string, redirectUri: string, createdAt: nat)

  /** State tokens go out as the internal key itself, or encrypted. */
  datatype Cipher = Plain | Sealed(encrypt: (string, nat) -> string, decrypt: string -> Option<string>)

  /** Decryption undoes encryption, whatever the nonce. */
  ghost predicate Sound(cipher: Cipher) {
    cipher.Sealed? ==> forall k: string, n: nat :: cipher.decrypt(cipher.encrypt(k, n)) == Some(k)
  }

  function Outbound(cipher: Cipher, key: string, nonce: nat): string {
    match cipher
    case Plain => key
    case Sealed(encrypt, _) => encrypt(key, nonce)
  }

  function Inbound(cipher: Cipher, token: string): Option<string> {
    match cipher
    case Plain => Some(token)
    case Sealed(_, decrypt) => decrypt(token)
  }

  datatype Op =
    | Create(key: string, verifier: string, redirectUri: string, nonce: nat, now: nat)
    | Consume(token: string, now: nat)
    | Cleanup(now: nat)

  datatype Outcome =
    | Issued(token: string, verifier: string)
    | Consumed(verifier: string, redirectUri: string)
    | StateNotFound
    | StateExpired
    | Done

  predicate Alive(ttl: nat, e: Entry, now: nat) {
    now - e.createdAt <= ttl
  }

  function Memory(ttl: nat, cipher: Cipher, m: map<string, Entry>, op: Op): (map<string, Entry>, Outcome) {
    match op
    case Create(key, verifier, uri, nonce, now) =>
      (m[key := Entry(verifier, uri, now)], Issued(Outbound(cipher, key, nonce), verifier))
    case Consume(token, now) =>
      var key := Inbound(cipher, token);
      if key.None? || key.value !in m then (m, StateNotFound)
      else if !Alive(ttl, m[key.value], now) then (m - {key.value}, StateExpired)
      else (m - {key.value}, Consumed(m[key.value].verifier, m[key.value].redirectUri))
    case Cleanup(now) =>
      (map k | k in m && Alive(ttl, m[k], now) :: m[k], Done)
  }

  /** `SET EX` and `GETDEL`: an entry past its time is absent, whether or not it was purged. */
  function Redis(ttl: nat, cipher: Cipher, m: map<string, Entry>, op: Op): (map<string, Entry>, Outcome) {
    match op
    case Create(key, verifier, uri, nonce, now) =>
      (m[key := Entry(verifier, uri, now)], Issued(Outbound(cipher, key, nonce), verifier))
    case Consume(token, now) =>
      var key := Inbound(cipher, token);
      if key.None? || key.value !in m then (m, StateNotFound)
      else if !Alive(ttl, m[key.value], now) then (m - {key.value}, StateNotFound)
      else (m - {key.value}, Consumed(m[key.value].verifier, m[key.value].redirectUri))
    case Cleanup(_) => (m, Done)
  }

  class InMemoryPkceStateStore {
    const ttl: nat
    const cipher: Cipher
    var entries: map<string, Entry>

    constructor (ttl: nat, cipher: Cipher)
      ensures this.ttl == ttl && this.cipher == cipher && entries == map[]
    {
      this.ttl, this.cipher, entries := ttl, cipher, map[];
    }

    method CreateState(redirectUri: string, key: string, verifier: string, nonce: nat, now: nat)
      returns (token: string, v: string)
      modifies this
      ensures (entries, Issued(token, v)) ==
              Memory(ttl, cipher, old(entries), Create(key, verifier, redirectUri, nonce, now))
    {
      token := Outbound(cipher, key, nonce);
      v := verifier;
      entries := entries[key := Entry(verifier, redirectUri, now)];
    }

    method ConsumeState(token: string, now: nat) returns (r: Outcome)
      modifies this
      ensures (entries, r) == Memory(ttl, cipher, old(entries), Consume(token, now))
    {
      var key := Inbound(cipher, token);
      if key.None? {
        return StateNotFound;
      }
      if key.value !in entries {
        return StateNotFound;
      }
      var entry := entries[key.value];
      entries := entries - {key.value};
      if now - entry.createdAt > ttl {
        return StateExpired;
      }
      return Consumed(entry.verifier, entry.redirectUri);
    }

    method CleanupExpired(now: nat)
      modifies this
      ensures entries == Memory(ttl, cipher, old(entries), Cleanup(now)).0
      ensures forall key :: key in entries <==> key in old(entries) && now - old(entries)[key].createdAt <= ttl
      ensures forall key :: key in entries ==> entries[key] == old(entries)[key]
    {
      entries := map k | k in entries && now - entries[k].createdAt <= ttl :: entries[k];
    }
  }

  class RedisPkceStateStore {
    const ttl: nat
    const cipher: Cipher
    var db: map<string, Entry>

    constructor (ttl: nat, cipher: Cipher)
      ensures this.ttl == ttl && this.cipher == cipher && db == map[]
    {
      this.ttl, this.cipher, db := ttl, cipher, map[];
    }

    /** The server's GETDEL: what was there is gone, and it is returned unless its time was over. */
    method GetDel(key: string, now: nat) returns (raw: Option<Entry>)
      modifies this
      ensures db == old(db) - {key}
      ensures raw == if key in old(db) && Alive(ttl, old(db)[key], now) then Some(old(db)[key]) else None
    {
      raw := if key in db && Alive(ttl, db[key], now) then Some(db[key]) else None;
      db := db - {key};
    }

    method CreateState(redirectUri: string, key: string, verifier: string, nonce: nat, now: nat)
      returns (token: string, v: string)
      modifies this
      ensures (db, Issued(token, v)) ==
              Redis(ttl, cipher, old(db), Create(key, verifier, redirectUri, nonce, now))
    {
      token := Outbound(cipher, key, nonce);
      v := verifier;
      db := db[key := Entry(verifier, redirectUri, now)];
    }

    method ConsumeState(token: string, now: nat) returns (r: Outcome)
      modifies this
      ensures db == Redis(ttl, cipher, old(db), Consume(token, now)).0
      ensures r == Redis(ttl, cipher, old(db), Consume(token, now)).1
    {
      var key := Inbound(cipher, token);
      if key.None? {
        return StateNotFound;
      }
      var raw := GetDel(key.value, now);
      if raw.None? {
        return StateNotFound;
      }
      return Consumed(raw.value.verifier, raw.value.redirectUri);
    }
  }

  // ----- Runs -----

  function MemoryRun(ttl: nat, cipher: Cipher, ops: seq<Op>): (map<string, Entry>, seq<Outcome>) {
    if ops == [] then (map[], [])
    else
      var before := MemoryRun(ttl, cipher, ops[..|ops| - 1]);
      var step := Memory(ttl, cipher, before.0, ops[|ops| - 1]);
      (step.0, before.1 + if ops[|ops| - 1].Cleanup? then [] else [step.1])
  }

  function RedisRun(ttl: nat, cipher: Cipher, ops: seq<Op>): (map<string, Entry>, seq<Outcome>) {
    if ops == [] then (map[], [])
    else
      var before := RedisRun(ttl, cipher, ops[..|ops| - 1]);
      var step := Redis(ttl, cipher, before.0, ops[|ops| - 1]);
      (step.0, before.1 + if ops[|ops| - 1].Cleanup? then [] else [step.1])
  }

  /** The operations a client asked for. */
  function Requests(ops: seq<Op>): seq<Op> {
    if ops == [] then []
    else Requests(ops[..|ops| - 1]) + if ops[|ops| - 1].Cleanup? then [] else [ops[|ops| - 1]]
  }

  ghost predicate Ordered(ops: seq<Op>) {
    forall i, j :: 0 <= i < j < |ops| ==> ops[i].now <= ops[j].now
  }

  /** A client of the Redis store cannot tell an expired state from an unknown one. */
  function Blur(outcomes: seq<Outcome>): (r: seq<Outcome>)
    ensures |r| == |outcomes|
    ensures forall i :: 0 <= i < |r| ==> r[i] == if outcomes[i].StateExpired? then StateNotFound else outcomes[i]
  {
    seq(|outcomes|, i requires 0 <= i < |outcomes| => if outcomes[i].StateExpired? then StateNotFound else outcomes[i])
  }

  function Live(ttl: nat, m: map<string, Entry>, key: string, now: nat): Option<Entry> {
    if key in m && Alive(ttl, m[key], now) then Some(m[key]) else None
  }

  ghost predicate SameLive(ttl: nat, a: map<string, Entry>, b: map<string, Entry>, now: nat) {
    forall key :: Live(ttl, a, key, now) == Live(ttl, b, key, now)
  }

  lemma RequestKeepsAgreement(ttl: nat, cipher: Cipher, a: map<string, Entry>, b: map<string, Entry>, op: Op)
    requires SameLive(ttl, a, b, op.now) && !op.Cleanup?
    ensures SameLive(ttl, Memory(ttl, cipher, a, op).0, Redis(ttl, cipher, b, op).0, op.now)
    ensures var x := Memory(ttl, cipher, a, op).1;
            (if x.StateExpired? then StateNotFound else x) == Redis(ttl, cipher, b, op).1
  {
    var a', b' := Memory(ttl, cipher, a, op).0, Redis(ttl, cipher, b, op).0;
    if op.Consume? && Inbound(cipher, op.token).Some? {
      assert Live(ttl, a, Inbound(cipher, op.token).value, op.now) == Live(ttl, b, Inbound(cipher, op.token).value, op.now);
    }
    forall key
      ensures Live(ttl, a', key, op.now) == Live(ttl, b', key, op.now)
    {
      assert Live(ttl, a, key, op.now) == Live(ttl, b, key, op.now);
    }
  }

  lemma LaterSameLive(ttl: nat, a: map<string, Entry>, b: map<string, Entry>, t: nat, now: nat)
    requires SameLive(ttl, a, b, t) && t <= now
    ensures SameLive(ttl, a, b, now)
  {
    forall key
      ensures Live(ttl, a, key, now) == Live(ttl, b, key, now)
    {
      assert Live(ttl, a, key, t) == Live(ttl, b, key, t);
    }
  }

  lemma CleanupKeepsAgreement(ttl: nat, cipher: Cipher, a: map<string, Entry>, b: map<string, Entry>, now: nat)
    requires SameLive(ttl, a, b, now)
    ensures SameLive(ttl, Memory(ttl, cipher, a, Cleanup(now)).0, b, now)
  {
    var a' := Memory(ttl, cipher, a, Cleanup(now)).0;
    forall key
      ensures Live(ttl, a', key, now) == Live(ttl, b, key, now)
    {
      assert Live(ttl, a, key, now) == Live(ttl, b, key, now);
    }
  }

  lemma BlurAppends(x: seq<Outcome>, o: Outcome)
    ensures Blur(x + [o]) == Blur(x) + [if o.StateExpired? then StateNotFound else o]
  {
  }

  lemma RedisRunAppends(ttl: nat, cipher: Cipher, ops: seq<Op>, op: Op)
    ensures var before, after := RedisRun(ttl, cipher, ops), RedisRun(ttl, cipher, ops + [op]);
            var step := Redis(ttl, cipher, before.0, op);
            after == (step.0, before.1 + if op.Cleanup? then [] else [step.1])
  {
    assert (ops + [op])[..|ops|] == ops;
  }

  /** The simulation: the memory store, cleaned up at any moments, against Redis without. */
  lemma {:induction false} RunsAgree(ttl: nat, cipher: Cipher, ops: seq<Op>, now: nat)
    requires Ordered(ops) && forall i :: 0 <= i < |ops| ==> ops[i].now <= now
    ensures SameLive(ttl, MemoryRun(ttl, cipher, ops).0, RedisRun(ttl, cipher, Requests(ops)).0, now)
    ensures Blur(MemoryRun(ttl, cipher, ops).1) == RedisRun(ttl, cipher, Requests(ops)).1
    decreases |ops|
  {
    if ops != [] {
      var op, before := ops[|ops| - 1], ops[..|ops| - 1];
      RunsAgree(ttl, cipher, before, op.now);
      var a, b := MemoryRun(ttl, cipher, before), RedisRun(ttl, cipher, Requests(before));
      if op.Cleanup? {
        CleanupKeepsAgreement(ttl, cipher, a.0, b.0, op.now);
        assert Requests(ops) == Requests(before);
      } else {
        RedisRunAppends(ttl, cipher, Requests(before), op);
        RequestKeepsAgreement(ttl, cipher, a.0, b.0, op);
        BlurAppends(a.1, Memory(ttl, cipher, a.0, op).1);
      }
      LaterSameLive(ttl, MemoryRun(ttl, cipher, ops).0, RedisRun(ttl, cipher, Requests(ops)).0, op.now, now);
    }
  }

  /** Both backends, driven by the same requests, answer alike up to the name of the failure;
      and so does the memory store with itself, wherever `cleanup_expired` is called. */
  lemma BackendsAgree(ttl: nat, cipher: Cipher, ops: seq<Op>, ops': seq<Op>)
    requires Ordered(ops) && Ordered(ops') && Requests(ops) == Requests(ops')
    ensures Blur(MemoryRun(ttl, cipher, ops).1) == RedisRun(ttl, cipher, Requests(ops)).1
    ensures Blur(MemoryRun(ttl, cipher, ops).1) == Blur(MemoryRun(ttl, cipher, ops').1)
  {
    RunsAgree(ttl, cipher, ops, if ops == [] then 0 else ops[|ops| - 1].now);
    RunsAgree(ttl, cipher, ops', if ops' == [] then 0 else ops'[|ops'| - 1].now);
  }

  // ----- What a consumption returns -----

  predicate Touches(cipher: Cipher, op: Op, key: string) {
    match op
    case Create(k, _, _, _, _) => k == key
    case Consume(token, _) => Inbound(cipher, token) == Some(key)
    case Cleanup(_) => false
  }

  /** Request i created the state, and nothing since has used its key. */
  ghost predicate Pending(cipher: Cipher, ops: seq<Op>, i: nat, key: string) {
    && i < |ops| && ops[i].Create? && ops[i].key == key
    && forall j :: i < j < |ops| ==> !Touches(cipher, ops[j], key)
  }

  lemma {:induction false} StoredExactly(ttl: nat, cipher: Cipher, ops: seq<Op>, key: string)
    ensures key in RedisRun(ttl, cipher, ops).0 <==> exists i: nat :: Pending(cipher, ops, i, key)
    ensures forall i: nat :: Pending(cipher, ops, i, key) && key in RedisRun(ttl, cipher, ops).0 ==>
              RedisRun(ttl, cipher, ops).0[key] == Entry(ops[i].verifier, ops[i].redirectUri, ops[i].now)
    decreases |ops|
  {
    if ops != [] {
      var n := |ops| - 1;
      var before, op := ops[..n], ops[n];
      StoredExactly(ttl, cipher, before, key);
      if op.Create? && op.key == key {
        assert Pending(cipher, ops, n, key);
      } else if !Touches(cipher, op, key) {
        forall i: nat | i < n
          ensures Pending(cipher, ops, i, key) <==> Pending(cipher, before, i, key)
        {
        }
      }
    }
  }

  /** The last answer of the memory store to a run that ends with a consumption. */
  function Answer(ttl: nat, cipher: Cipher, ops: seq<Op>, token: string, now: nat): Outcome {
    Memory(ttl, cipher, MemoryRun(ttl, cipher, ops).0, Consume(token, now)).1
  }

  /** A token is honoured exactly when the state it names was created at most a TTL ago and its
      key has not been used since; it then yields the verifier and URI of that creation. */
  lemma ConsumeExactly(ttl: nat, cipher: Cipher, ops: seq<Op>, token: string, now: nat, v: string, uri: string)
    requires Ordered(ops + [Consume(token, now)])
    ensures Answer(ttl, cipher, ops, token, now) == Consumed(v, uri) <==>
            Inbound(cipher, token).Some? &&
            exists i: nat :: Pending(cipher, Requests(ops), i, Inbound(cipher, token).value) &&
              Requests(ops)[i].verifier == v && Requests(ops)[i].redirectUri == uri &&
              now - Requests(ops)[i].now <= ttl
  {
    var all := ops + [Consume(token, now)];
    assert forall i :: 0 <= i < |ops| ==> ops[i] == all[i] && all[i].now <= all[|ops|].now;
    RunsAgree(ttl, cipher, ops, now);
    var a, b := MemoryRun(ttl, cipher, ops).0, RedisRun(ttl, cipher, Requests(ops)).0;
    if Inbound(cipher, token).Some? {
      var key := Inbound(cipher, token).value;
      assert Live(ttl, a, key, now) == Live(ttl, b, key, now);
      StoredExactly(ttl, cipher, Requests(ops), key);
    }
  }

  /** One shot: a key that is created once is honoured at most once, whatever tokens name it
      and wherever cleanups fall. */
  lemma OneShot(ttl: nat, cipher: Cipher, ops: seq<Op>, more: seq<Op>,
      first: string, t: nat, second: string, t': nat, key: string)
    requires Inbound(cipher, first) == Some(key) == Inbound(cipher, second)
    requires var run := ops + [Consume(first, t)] + more; Ordered(run + [Consume(second, t')])
    requires forall op :: op in more && op.Create? ==> op.key != key
    ensures !Answer(ttl, cipher, ops + [Consume(first, t)] + more, second, t').Consumed?
  {
    var run := ops + [Consume(first, t)] + more;
    var r := Answer(ttl, cipher, run, second, t');
    if r.Consumed? {
      ConsumeExactly(ttl, cipher, run, second, t', r.verifier, r.redirectUri);
      RequestsAround(ops, Consume(first, t), more);
      RequestsAreOps(more);
      NotPendingAfterUse(cipher, Requests(ops), Consume(first, t), Requests(more), key);
    }
  }

  lemma NotPendingAfterUse(cipher: Cipher, before: seq<Op>, use: Op, after: seq<Op>, key: string)
    requires use.Consume? && Touches(cipher, use, key)
    requires forall op :: op in after && op.Create? ==> op.key != key
    ensures !exists i: nat :: Pending(cipher, before + [use] + after, i, key)
  {
    var all, n := before + [use] + after, |before|;
    assert all[n] == use;
    assert forall i :: n < i < |all| ==> all[i] in after;
  }

  lemma RequestsAround(before: seq<Op>, op: Op, after: seq<Op>)
    requires !op.Cleanup?
    ensures Requests(before + [op] + after) == Requests(before) + [op] + Requests(after)
  {
    RequestsAppend(before + [op], after);
    RequestsAppend(before, [op]);
    assert Requests([op]) == [op];
  }

  lemma {:induction false} RequestsAppend(a: seq<Op>, b: seq<Op>)
    ensures Requests(a + b) == Requests(a) + Requests(b)
    decreases |b|
  {
    if b == [] {
      assert a + b == a;
    } else {
      assert (a + b)[..|a + b| - 1] == a + b[..|b| - 1];
      RequestsAppend(a, b[..|b| - 1]);
    }
  }

  lemma {:induction false} RequestsAreOps(ops: seq<Op>)
    ensures forall op :: op in Requests(ops) ==> op in ops
    decreases |ops|
  {
    if ops != [] {
      RequestsAreOps(ops[..|ops| - 1]);
    }
  }

  /** The round trip: the token just issued is honoured until its time is over. */
  lemma CreateThenConsume(ttl: nat, cipher: Cipher, ops: seq<Op>, c: Op, now: nat)
    requires Sound(cipher) && c.Create?
    ensures var m := Memory(ttl, cipher, MemoryRun(ttl, cipher, ops).0, c);
            var r := Memory(ttl, cipher, m.0, Consume(m.1.token, now)).1;
            r == if now - c.now <= ttl then Consumed(c.verifier, c.redirectUri) else StateExpired
  {
  }
}
