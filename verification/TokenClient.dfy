/** The single-flight token refresh of the native auth client (`client.ts`): every piece of code
    between two awaits is one step, and steps of all callers interleave freely. */
module TokenClient {
  import opened Wrappers

  datatype Tokens = Tokens(access: string, refresh: Option<string>)

  /** What decoding the stored access token says at the time of a call. */
  datatype Access = Good | Expiring | Unreadable

  datatype Status = Pending | Fulfilled(tokens: Tokens) | Rejected

  /** A promise made by `_performTokenRefresh`, and the refresh token it sent, if it sent one. */
  datatype Attempt = Attempt(sent: Option<string>, status: Status)

  /** Where a call of `getValidTokens` stands. `guarded`: inside the `try`, so that a rejection
      is caught and the refresh is tried once more. */
  datatype Caller =
    | Owner(attempt: nat, guarded: bool)
    | Joiner(attempt: nat, guarded: bool)
    | Retrying(failed: nat)
    | Returned(tokens: Tokens, from: Option<nat>)
    | Threw(from: Option<nat>)

  /** `slot` is `refreshPromise`, as an index into the attempts made so far; `notices` counts
      the calls of `onTokenExpired`. */
  datatype State = State(
    stored: Option<Tokens>,
    user: Option<string>,
    slot: Option<nat>,
    attempts: seq<Attempt>,
    callers: map<nat, Caller>,
    notices: nat)

  datatype Event =
    | Call(caller: nat, access: Access)
    | Respond(attempt: nat, answer: Option<Tokens>)
    | Resume(caller: nat)
    | Retry(caller: nat)
    | LogIn(tokens: Tokens, user: string)
    | ClearAuth

  /** `refreshTokens` up to its first await, with `_performTokenRefresh` up to its own. */
  function StartRefresh(s: State, c: nat, guarded: bool): State {
    if s.slot.Some? then
      s.(callers := s.callers[c := Joiner(s.slot.value, guarded)])
    else
      var sent := if s.stored.Some? then s.stored.value.refresh else None;
      var attempt := Attempt(sent, if sent.Some? then Pending else Rejected);
      s.(slot := Some(|s.attempts|),
         attempts := s.attempts + [attempt],
         callers := s.callers[c := Owner(|s.attempts|, guarded)])
  }

  function Failed(p: nat, guarded: bool): Caller {
    if guarded then Retrying(p) else Threw(Some(p))
  }

  predicate Enabled(s: State, e: Event) {
    match e
    case Call(c, _) => c !in s.callers
    case Respond(p, _) => p < |s.attempts| && s.attempts[p].status.Pending?
    case Resume(c) =>
      && c in s.callers
      && (s.callers[c].Owner? || s.callers[c].Joiner?)
      && s.callers[c].attempt < |s.attempts|
      && !s.attempts[s.callers[c].attempt].status.Pending?
    case Retry(c) => c in s.callers && s.callers[c].Retrying?
    case LogIn(_, _) => true
    case ClearAuth => true
  }

  function Next(s: State, e: Event): State
    requires Enabled(s, e)
  {
    match e
    case Call(c, access) =>
      if s.stored.None? then s.(callers := s.callers[c := Threw(None)])
      else if access.Good? then s.(callers := s.callers[c := Returned(s.stored.value, None)])
      else StartRefresh(s, c, access.Expiring?)
    case Respond(p, answer) =>
      var status := if answer.Some? then Fulfilled(answer.value) else Rejected;
      s.(attempts := s.attempts[p := s.attempts[p].(status := status)])
    case Resume(c) =>
      var p, guarded := s.callers[c].attempt, s.callers[c].guarded;
      var status := s.attempts[p].status;
      if s.callers[c].Joiner? then
        s.(callers := s.callers[c := if status.Fulfilled? then Returned(status.tokens, Some(p)) else Failed(p, guarded)])
      else if status.Fulfilled? then
        s.(stored := Some(status.tokens), slot := None,
           callers := s.callers[c := Returned(status.tokens, Some(p))])
      else
        s.(stored := None, user := None, notices := s.notices + 1, slot := None,
           callers := s.callers[c := Failed(p, guarded)])
    case Retry(c) => StartRefresh(s, c, false)
    case LogIn(tokens, user) => s.(stored := Some(tokens), user := Some(user))
    case ClearAuth => s.(stored := None, user := None)
  }

  /** The client object. The promises made so far and the suspended calls are the runtime's;
      they are fields here so that a step can be stated. */
  class AuthClient {
    var stored: Option<Tokens>
    var user: Option<string>
    var refreshPromise: Option<nat>
    var attempts: seq<Attempt>
    var callers: map<nat, Caller>
    var notices: nat

    function Abs(): State
      reads this
    {
      State(stored, user, refreshPromise, attempts, callers, notices)
    }

    constructor (stored: Option<Tokens>, user: Option<string>)
      ensures Abs() == Start(stored, user)
    {
      this.stored, this.user, refreshPromise := stored, user, None;
      attempts, callers, notices := [], map[], 0;
    }

    method GetValidTokens(c: nat, access: Access)
      requires Enabled(Abs(), Call(c, access))
      modifies this
      ensures Abs() == Next(old(Abs()), Call(c, access))
      ensures stored == old(stored) && user == old(user) && notices == old(notices)
      ensures stored.None? ==> callers == old(callers)[c := Threw(None)] && attempts == old(attempts)
      ensures stored.Some? && access.Good? ==>
                callers == old(callers)[c := Returned(stored.value, None)] && attempts == old(attempts)
      ensures stored.Some? && !access.Good? ==> refreshPromise.Some?
    {
      if stored.None? {
        callers := callers[c := Threw(None)];
        return;
      }
      match access {
        case Expiring => RefreshTokens(c, true);
        case Unreadable => RefreshTokens(c, false);
        case Good => callers := callers[c := Returned(stored.value, None)];
      }
    }

    method RefreshTokens(c: nat, guarded: bool)
      modifies this
      ensures Abs() == StartRefresh(old(Abs()), c, guarded)
      ensures stored == old(stored) && user == old(user) && notices == old(notices)
      ensures old(refreshPromise).Some? ==>
                refreshPromise == old(refreshPromise) && attempts == old(attempts) &&
                callers == old(callers)[c := Joiner(refreshPromise.value, guarded)]
      ensures old(refreshPromise).None? ==>
                refreshPromise == Some(|old(attempts)|) && callers == old(callers)[c := Owner(|old(attempts)|, guarded)]
    {
      if refreshPromise.Some? {
        callers := callers[c := Joiner(refreshPromise.value, guarded)];
        return;
      }
      var promise := PerformTokenRefresh();
      refreshPromise := Some(promise);
      callers := callers[c := Owner(promise, guarded)];
    }

    method PerformTokenRefresh() returns (promise: nat)
      modifies this`attempts
      ensures promise == |old(attempts)|
      ensures var sent := if stored.Some? then stored.value.refresh else None;
              attempts == old(attempts) + [Attempt(sent, if sent.Some? then Pending else Rejected)]
    {
      promise := |attempts|;
      if stored.None? || stored.value.refresh.None? {
        attempts := attempts + [Attempt(None, Rejected)];
      } else {
        attempts := attempts + [Attempt(stored.value.refresh, Pending)];
      }
    }

    /** The server's answer reaches the attempt's promise. */
    method Deliver(p: nat, answer: Option<Tokens>)
      requires Enabled(Abs(), Respond(p, answer))
      modifies this`attempts
      ensures Abs() == Next(old(Abs()), Respond(p, answer))
    {
      var status := if answer.Some? then Fulfilled(answer.value) else Rejected;
      attempts := attempts[p := attempts[p].(status := status)];
    }

    method ClearAuth()
      modifies this`stored, this`user
      ensures Abs() == Next(old(Abs()), Event.ClearAuth)
      ensures stored == None && user == None
    {
      stored := None;
      user := None;
    }

    /** A suspended call goes on after the promise it awaits has settled. */
    method Resume(c: nat)
      requires Enabled(Abs(), Event.Resume(c))
      modifies this
      ensures Abs() == Next(old(Abs()), Event.Resume(c))
    {
      var p, guarded, owner := callers[c].attempt, callers[c].guarded, callers[c].Owner?;
      match attempts[p].status {
        case Fulfilled(tokens) =>
          if owner {
            stored := Some(tokens);
            refreshPromise := None;
          }
          callers := callers[c := Returned(tokens, Some(p))];
        case Rejected =>
          if owner {
            ClearAuth();
            notices := notices + 1;
            refreshPromise := None;
          }
          callers := callers[c := Failed(p, guarded)];
      }
    }

    /** The `catch` branch of `getValidTokens`. */
    method RetryAfterFailure(c: nat)
      requires Enabled(Abs(), Retry(c))
      modifies this
      ensures Abs() == Next(old(Abs()), Retry(c))
    {
      RefreshTokens(c, false);
    }

    /** `login` and `register` once the server has answered. */
    method LogIn(tokens: Tokens, user: string)
      modifies this`stored, this`user
      ensures Abs() == Next(old(Abs()), Event.LogIn(tokens, user))
      ensures stored == Some(tokens) && this.user == Some(user)
    {
      stored := Some(tokens);
      this.user := Some(user);
    }
  }

  /** A new client over what an earlier session left in the storage. */
  function Start(stored: Option<Tokens>, user: Option<string>): State {
    State(stored, user, None, [], map[], 0)
  }

  ghost predicate Run(stored: Option<Tokens>, events: seq<Event>, states: seq<State>) {
    && |states| == |events| + 1
    && states[0] == Start(stored, states[0].user)
    && forall i :: 0 <= i < |events| ==> Enabled(states[i], events[i]) && states[i + 1] == Next(states[i], events[i])
  }

  // ----- What every step keeps -----

  /** Only the attempt in the slot can be unsettled or have an owner; the slot has one owner;
      whoever finished with an attempt finished with its outcome. */
  ghost predicate Inv(s: State) {
    && (s.slot.Some? ==> s.slot.value < |s.attempts| && exists c :: c in s.callers && s.callers[c].Owner?)
    && (forall p :: 0 <= p < |s.attempts| && s.attempts[p].status.Pending? ==> s.slot == Some(p) && s.attempts[p].sent.Some?)
    && (forall c :: c in s.callers && s.callers[c].Owner? ==> s.slot == Some(s.callers[c].attempt))
    && (forall c, d :: c in s.callers && d in s.callers && s.callers[c].Owner? && s.callers[d].Owner? ==> c == d)
    && (forall c :: c in s.callers ==> Consistent(s, s.callers[c]))
  }

  predicate Consistent(s: State, k: Caller) {
    match k
    case Owner(p, _) => p < |s.attempts|
    case Joiner(p, _) => p < |s.attempts|
    case Retrying(p) => p < |s.attempts| && s.attempts[p].status.Rejected?
    case Returned(t, from) => from.Some? ==> from.value < |s.attempts| && s.attempts[from.value].status == Fulfilled(t)
    case Threw(from) => from.Some? ==> from.value < |s.attempts| && s.attempts[from.value].status.Rejected?
  }

  lemma StartRefreshKeepsInv(s: State, c: nat, guarded: bool)
    requires Inv(s) && (c in s.callers ==> s.callers[c].Retrying?)
    ensures Inv(StartRefresh(s, c, guarded))
  {
    var s' := StartRefresh(s, c, guarded);
    if s.slot.Some? {
      var owner :| owner in s.callers && s.callers[owner].Owner?;
      assert s'.callers[owner].Owner?;
    } else {
      assert s'.callers[c].Owner?;
      forall d | d in s'.callers ensures Consistent(s', s'.callers[d]) {
        assert d != c ==> Consistent(s, s.callers[d]);
      }
    }
  }

  /** A caller that does not own the slot moves on. */
  lemma MovingOnKeepsInv(s: State, c: nat, k: Caller)
    requires Inv(s) && Consistent(s, k) && !k.Owner?
    requires c in s.callers ==> !s.callers[c].Owner?
    ensures Inv(s.(callers := s.callers[c := k]))
  {
    var s' := s.(callers := s.callers[c := k]);
    if s.slot.Some? {
      var owner :| owner in s.callers && s.callers[owner].Owner?;
      assert s'.callers[owner].Owner?;
    }
    forall d | d in s'.callers ensures Consistent(s', s'.callers[d]) {
      assert d != c ==> Consistent(s, s.callers[d]);
    }
  }

  lemma RespondKeepsInv(s: State, e: Event)
    requires Inv(s) && e.Respond? && Enabled(s, e)
    ensures Inv(Next(s, e))
  {
    var s' := Next(s, e);
    forall d | d in s'.callers ensures Consistent(s', s'.callers[d]) {
      assert Consistent(s, s.callers[d]);
    }
  }

  lemma OwnerResumeKeepsInv(s: State, e: Event)
    requires Inv(s) && e.Resume? && Enabled(s, e) && s.callers[e.caller].Owner?
    ensures Inv(Next(s, e))
  {
    var s' := Next(s, e);
    forall d | d in s'.callers ensures Consistent(s', s'.callers[d]) {
      assert Consistent(s, s.callers[d]);
    }
  }

  lemma StepKeepsInv(s: State, e: Event)
    requires Inv(s) && Enabled(s, e)
    ensures Inv(Next(s, e))
  {
    match e
    case Call(c, access) =>
      if s.stored.None? {
        MovingOnKeepsInv(s, c, Threw(None));
      } else if access.Good? {
        MovingOnKeepsInv(s, c, Returned(s.stored.value, None));
      } else {
        StartRefreshKeepsInv(s, c, access.Expiring?);
      }
    case Respond(_, _) => RespondKeepsInv(s, e);
    case Resume(c) =>
      if s.callers[c].Owner? {
        OwnerResumeKeepsInv(s, e);
      } else {
        MovingOnKeepsInv(s, c, Next(s, e).callers[c]);
      }
    case Retry(c) => StartRefreshKeepsInv(s, c, false);
    case LogIn(_, _) => ClientDataIsIrrelevant(s, Next(s, e));
    case ClearAuth => ClientDataIsIrrelevant(s, Next(s, e));
  }

  lemma ClientDataIsIrrelevant(s: State, s': State)
    requires Inv(s) && s' == s.(stored := s'.stored, user := s'.user)
    ensures Inv(s')
  {
    forall d | d in s'.callers ensures Consistent(s', s'.callers[d]) {
      assert Consistent(s, s.callers[d]);
    }
  }

  lemma {:induction false} RunKeepsInv(stored: Option<Tokens>, events: seq<Event>, states: seq<State>, n: nat)
    requires Run(stored, events, states) && n <= |events|
    ensures Inv(states[n])
  {
    if n > 0 {
      RunKeepsInv(stored, events, states, n - 1);
      StepKeepsInv(states[n - 1], events[n - 1]);
    }
  }

  // ----- What holds in every interleaving -----

  predicate InFlight(s: State, p: nat) {
    p < |s.attempts| && s.attempts[p].status.Pending?
  }

  /** At most one refresh request is in flight, and the slot always has someone to reopen it. */
  lemma OneInFlight(stored: Option<Tokens>, events: seq<Event>, states: seq<State>, n: nat)
    requires Run(stored, events, states) && n <= |events|
    ensures forall p, q :: InFlight(states[n], p) && InFlight(states[n], q) ==> p == q
    ensures states[n].slot.Some? ==>
              exists c :: c in states[n].callers && states[n].callers[c].Owner? &&
                          states[n].callers[c].attempt == states[n].slot.value
  {
    RunKeepsInv(stored, events, states, n);
  }

  /** The attempt a finished caller waited for last, if any. */
  function From(k: Caller): Option<nat> {
    match k
    case Returned(_, from) => from
    case Threw(from) => from
    case Retrying(p) => Some(p)
    case _ => None
  }

  /** All callers that finished waiting for one attempt, the initiator among them, got the same:
      its tokens, or its failure. */
  lemma JoinersShareTheOutcome(stored: Option<Tokens>, events: seq<Event>, states: seq<State>, n: nat, c: nat, d: nat)
    requires Run(stored, events, states) && n <= |events|
    requires c in states[n].callers && d in states[n].callers
    requires From(states[n].callers[c]).Some? && From(states[n].callers[c]) == From(states[n].callers[d])
    ensures states[n].callers[c].Returned? ==> states[n].callers[d] == states[n].callers[c]
    ensures states[n].callers[c].Threw? || states[n].callers[c].Retrying? ==> !states[n].callers[d].Returned?
  {
    RunKeepsInv(stored, events, states, n);
    assert Consistent(states[n], states[n].callers[c]) && Consistent(states[n], states[n].callers[d]);
  }

  // ----- Where tokens come from -----

  /** An answer reached attempt p before the n-th event. */
  ghost predicate Answered(events: seq<Event>, n: nat, p: nat, answer: Option<Tokens>) {
    exists i :: 0 <= i < n <= |events| && events[i] == Respond(p, answer)
  }

  /** An attempt is fulfilled exactly with the tokens that the server answered to it. */
  lemma {:induction false} FulfilledIsAnswered(stored: Option<Tokens>, events: seq<Event>, states: seq<State>,
      n: nat, p: nat, t: Tokens)
    requires Run(stored, events, states) && n <= |events|
    ensures p < |states[n].attempts| && states[n].attempts[p].status == Fulfilled(t) <==>
            Answered(events, n, p, Some(t))
    ensures Answered(events, n, p, Some(t)) ==> p < |states[n].attempts| && !states[n].attempts[p].status.Pending?
  {
    if n > 0 {
      FulfilledIsAnswered(stored, events, states, n - 1, p, t);
      assert Enabled(states[n - 1], events[n - 1]) && states[n] == Next(states[n - 1], events[n - 1]);
      assert Answered(events, n, p, Some(t)) <==>
             Answered(events, n - 1, p, Some(t)) || events[n - 1] == Respond(p, Some(t));
    }
  }

  /** Event i of the run overwrites the stored tokens: a login, a logout, or the end of a refresh
      for the call that started it. */
  ghost predicate Overwrites(events: seq<Event>, states: seq<State>, i: nat)
    requires |states| == |events| + 1 && i < |events|
  {
    match events[i]
    case LogIn(_, _) => true
    case ClearAuth => true
    case Resume(c) => c in states[i].callers && states[i].callers[c].Owner?
    case _ => false
  }

  /** Event i stores these tokens: those of the login, or the server's answer to the refresh. */
  ghost predicate Brings(events: seq<Event>, states: seq<State>, i: nat, t: Tokens)
    requires |states| == |events| + 1 && i < |events|
  {
    match events[i]
    case LogIn(tokens, _) => tokens == t
    case Resume(c) =>
      && c in states[i].callers && states[i].callers[c].Owner?
      && Answered(events, i, states[i].callers[c].attempt, Some(t))
    case _ => false
  }

  /** Nothing overwrites the tokens from event i up to the n-th. */
  ghost predicate Untouched(events: seq<Event>, states: seq<State>, i: nat, n: nat)
    requires |states| == |events| + 1 && n <= |events|
  {
    forall j: nat :: i <= j < n ==> !Overwrites(events, states, j)
  }

  /** The last event that overwrote the tokens brought t; or none did, and t was there before. */
  ghost predicate LastBrought(stored: Option<Tokens>, events: seq<Event>, states: seq<State>, n: nat, t: Tokens)
    requires |states| == |events| + 1 && n <= |events|
  {
    || (stored == Some(t) && Untouched(events, states, 0, n))
    || exists i :: 0 <= i < n && Brings(events, states, i, t) && Untouched(events, states, i + 1, n)
  }

  lemma StepBrings(stored: Option<Tokens>, events: seq<Event>, states: seq<State>, n: nat, t: Tokens)
    requires Run(stored, events, states) && n < |events|
    ensures !Overwrites(events, states, n) ==> states[n + 1].stored == states[n].stored
    ensures Overwrites(events, states, n) ==> (states[n + 1].stored == Some(t) <==> Brings(events, states, n, t))
    ensures Brings(events, states, n, t) ==> Overwrites(events, states, n)
  {
    assert Enabled(states[n], events[n]) && states[n + 1] == Next(states[n], events[n]);
    match events[n]
    case Resume(c) => FulfilledIsAnswered(stored, events, states, n, states[n].callers[c].attempt, t);
    case _ =>
  }

  lemma LastBroughtGoesOn(stored: Option<Tokens>, events: seq<Event>, states: seq<State>, n: nat, t: Tokens)
    requires Run(stored, events, states) && n < |events|
    ensures LastBrought(stored, events, states, n + 1, t) <==>
            Brings(events, states, n, t) ||
            (!Overwrites(events, states, n) && LastBrought(stored, events, states, n, t))
  {
    var m := n + 1;
    if Brings(events, states, n, t) {
      assert Untouched(events, states, m, m);
    } else {
      forall i: nat | i <= n
        ensures Untouched(events, states, i, m) <==> Untouched(events, states, i, n) && !Overwrites(events, states, n)
      {
      }
    }
  }

  /** The stored tokens are exactly those of the last login or refresh that nothing has ended. */
  lemma {:induction false} StoredExactly(stored: Option<Tokens>, events: seq<Event>, states: seq<State>, n: nat, t: Tokens)
    requires Run(stored, events, states) && n <= |events|
    ensures states[n].stored == Some(t) <==> LastBrought(stored, events, states, n, t)
  {
    if n > 0 {
      StoredExactly(stored, events, states, n - 1, t);
      StepBrings(stored, events, states, n - 1, t);
      LastBroughtGoesOn(stored, events, states, n - 1, t);
    } else {
      assert Untouched(events, states, 0, 0);
    }
  }

  /** Event i ends the session: a logout, or a refresh of the call's own that failed. */
  ghost predicate Ends(events: seq<Event>, states: seq<State>, i: nat)
    requires |states| == |events| + 1 && i < |events|
  {
    match events[i]
    case ClearAuth => true
    case Resume(c) =>
      && c in states[i].callers && states[i].callers[c].Owner?
      && forall t :: !Answered(events, i, states[i].callers[c].attempt, Some(t))
    case _ => false
  }

  /** The user stays who logged in last, or who was there before, until the session ends. */
  lemma {:induction false} UserStays(stored: Option<Tokens>, events: seq<Event>, states: seq<State>, i: nat, n: nat)
    requires Run(stored, events, states) && i <= n <= |events|
    requires forall j: nat :: i <= j < n ==> !events[j].LogIn? && !Ends(events, states, j)
    ensures states[n].user == states[i].user
    ensures i > 0 && events[i - 1].LogIn? ==> states[n].user == Some(events[i - 1].user)
    ensures i > 0 && Ends(events, states, i - 1) ==> states[n].user == None
  {
    if i < n {
      UserStays(stored, events, states, i, n - 1);
      StepKeepsUser(stored, events, states, n - 1);
    } else if i > 0 {
      StepKeepsUser(stored, events, states, i - 1);
    }
  }

  lemma StepKeepsUser(stored: Option<Tokens>, events: seq<Event>, states: seq<State>, n: nat)
    requires Run(stored, events, states) && n < |events|
    ensures states[n + 1].user ==
              if events[n].LogIn? then Some(events[n].user)
              else if Ends(events, states, n) then None
              else states[n].user
  {
    assert Enabled(states[n], events[n]) && states[n + 1] == Next(states[n], events[n]);
    if events[n].Resume? {
      var p := states[n].callers[events[n].caller].attempt;
      forall t
        ensures states[n].attempts[p].status == Fulfilled(t) <==> Answered(events, n, p, Some(t))
      {
        FulfilledIsAnswered(stored, events, states, n, p, t);
      }
    }
  }

  /** A call that did not wait had a good token and got what was stored at that moment. */
  lemma {:induction false} GoodCallGetsStored(stored: Option<Tokens>, events: seq<Event>, states: seq<State>,
      n: nat, c: nat, t: Tokens)
    requires Run(stored, events, states) && n <= |events|
    requires Lookup(states[n].callers, c) == Some(Returned(t, None))
    ensures exists i :: 0 <= i < n && events[i] == Call(c, Good) && states[i].stored == Some(t)
  {
    var e := events[n - 1];
    assert Enabled(states[n - 1], e) && states[n] == Next(states[n - 1], e);
    if Lookup(states[n - 1].callers, c) == Some(Returned(t, None)) {
      GoodCallGetsStored(stored, events, states, n - 1, c, t);
    }
  }

  /** A call that waited got what the server answered to the attempt it waited for. */
  lemma WaitingCallGetsAnswer(stored: Option<Tokens>, events: seq<Event>, states: seq<State>,
      n: nat, c: nat, t: Tokens, p: nat)
    requires Run(stored, events, states) && n <= |events|
    requires Lookup(states[n].callers, c) == Some(Returned(t, Some(p)))
    ensures Answered(events, n, p, Some(t))
  {
    RunKeepsInv(stored, events, states, n);
    assert Consistent(states[n], states[n].callers[c]);
    FulfilledIsAnswered(stored, events, states, n, p, t);
  }

  /** A call that threw without waiting found nothing stored. */
  lemma {:induction false} ThrownCallFoundNothing(stored: Option<Tokens>, events: seq<Event>, states: seq<State>,
      n: nat, c: nat)
    requires Run(stored, events, states) && n <= |events|
    requires Lookup(states[n].callers, c) == Some(Threw(None))
    ensures exists i, access :: 0 <= i < n && events[i] == Call(c, access) && states[i].stored == None
  {
    var e := events[n - 1];
    assert Enabled(states[n - 1], e) && states[n] == Next(states[n - 1], e);
    if Lookup(states[n - 1].callers, c) == Some(Threw(None)) {
      ThrownCallFoundNothing(stored, events, states, n - 1, c);
    } else {
      assert e.Call? && e == Call(c, e.access);
    }
  }

  ghost predicate Called(events: seq<Event>, n: nat, c: nat) {
    exists i :: 0 <= i < n <= |events| && events[i].Call? && events[i].caller == c
  }

  /** The call has its second try still before it: its token was about to expire, and it has not
      been in the `catch` branch. */
  ghost predicate HasSecondTry(events: seq<Event>, n: nat, c: nat) {
    && (exists i :: 0 <= i < n <= |events| && events[i] == Call(c, Expiring))
    && !Retried(events, n, c)
  }

  ghost predicate Retried(events: seq<Event>, n: nat, c: nat) {
    exists i :: 0 <= i < n <= |events| && events[i] == Retry(c)
  }

  lemma CallsOneMore(events: seq<Event>, n: nat, c: nat)
    requires n < |events|
    ensures Called(events, n + 1, c) <==> Called(events, n, c) || IsCallOf(events[n], c)
    ensures Retried(events, n + 1, c) <==> Retried(events, n, c) || events[n] == Retry(c)
    ensures HasSecondTry(events, n + 1, c) <==>
            (HasSecondTry(events, n, c) && events[n] != Retry(c)) ||
            (events[n] == Call(c, Expiring) && !Retried(events, n, c))
  {
  }

  predicate IsCallOf(e: Event, c: nat) {
    e.Call? && e.caller == c
  }

  /** Where a call stands, by whether it was made, has retried and has a second try left. */
  predicate StandsBy(k: Option<Caller>, called: bool, retried: bool, second: bool) {
    && (k.Some? <==> called) && (k.None? ==> !retried && !second)
    && (k.Some? ==>
          match k.value
          case Owner(_, guarded) => guarded == second
          case Joiner(_, guarded) => guarded == second
          case Retrying(_) => second
          case Threw(from) => from.Some? ==> !second
          case Returned(_, _) => true)
  }

  lemma StepStandsBy(s: State, e: Event, c: nat, called: bool, retried: bool, second: bool)
    requires Enabled(s, e) && StandsBy(Lookup(s.callers, c), called, retried, second)
    ensures StandsBy(Lookup(Next(s, e).callers, c), called || IsCallOf(e, c), retried || e == Retry(c),
              (second && e != Retry(c)) || (e == Call(c, Expiring) && !retried))
  {
  }

  /** A failed attempt makes a call try again exactly when its token was about to expire and it
      has not tried again before; otherwise the call throws. */
  lemma {:induction false} SecondTryExactly(stored: Option<Tokens>, events: seq<Event>, states: seq<State>, n: nat, c: nat)
    requires Run(stored, events, states) && n <= |events|
    ensures StandsBy(Lookup(states[n].callers, c), Called(events, n, c), Retried(events, n, c), HasSecondTry(events, n, c))
  {
    if n > 0 {
      SecondTryExactly(stored, events, states, n - 1, c);
      CallsOneMore(events, n - 1, c);
      StepStandsBy(states[n - 1], events[n - 1], c,
        Called(events, n - 1, c), Retried(events, n - 1, c), HasSecondTry(events, n - 1, c));
    }
  }

  // ----- A server that always issues fresh tokens -----

  /** The refresh tokens the client was given, in the order the answers came in. */
  function Issued(stored: Option<Tokens>, events: seq<Event>): seq<string> {
    if events == [] then
      if stored.Some? && stored.value.refresh.Some? then [stored.value.refresh.value] else []
    else
      var before, e := Issued(stored, events[..|events| - 1]), events[|events| - 1];
      var given := Given(e);
      if given.Some? then before + [given.value] else before
  }

  function Given(e: Event): Option<string> {
    match e
    case Respond(_, Some(tokens)) => tokens.refresh
    case LogIn(tokens, _) => tokens.refresh
    case _ => None
  }

  ghost predicate Distinct(tokens: seq<string>) {
    forall i, j :: 0 <= i < j < |tokens| ==> tokens[i] != tokens[j]
  }

  ghost predicate Sent(s: State, token: string) {
    exists p :: 0 <= p < |s.attempts| && s.attempts[p].sent == Some(token)
  }

  /** A stored token was sent only by the attempt that still holds the slot; tokens that came
      back for the slot have not been sent; nothing is known that was not issued. */
  ghost predicate FreshInv(s: State, issued: seq<string>) {
    && (forall p :: 0 <= p < |s.attempts| && s.attempts[p].sent.Some? ==>
          s.attempts[p].sent.value in issued &&
          (s.stored.Some? && s.stored.value.refresh == s.attempts[p].sent ==> s.slot == Some(p)))
    && (s.stored.Some? && s.stored.value.refresh.Some? ==> s.stored.value.refresh.value in issued)
    && (s.slot.Some? && s.slot.value < |s.attempts| && s.attempts[s.slot.value].status.Fulfilled? ==>
          var back := s.attempts[s.slot.value].status.tokens.refresh;
          back.Some? ==> back.value in issued && !Sent(s, back.value))
    && (forall p, q :: 0 <= p < q < |s.attempts| && s.attempts[p].sent.Some? ==> s.attempts[p].sent != s.attempts[q].sent)
  }

  lemma StartRefreshKeepsFreshInv(s: State, c: nat, guarded: bool, issued: seq<string>)
    requires Inv(s) && FreshInv(s, issued)
    ensures FreshInv(StartRefresh(s, c, guarded), issued)
  {
  }

  lemma StepKeepsFreshInv(s: State, e: Event, issued: seq<string>)
    requires Inv(s) && Enabled(s, e) && FreshInv(s, issued)
    requires Given(e).Some? ==> Given(e).value !in issued
    ensures FreshInv(Next(s, e), if Given(e).Some? then issued + [Given(e).value] else issued)
  {
    match e
    case Call(c, access) => StartRefreshKeepsFreshInv(s, c, access.Expiring?, issued);
    case Retry(c) => StartRefreshKeepsFreshInv(s, c, false, issued);
    case _ =>
  }

  lemma {:induction false} RunKeepsFreshInv(stored: Option<Tokens>, events: seq<Event>, states: seq<State>, n: nat)
    requires Run(stored, events, states) && n <= |events| && Distinct(Issued(stored, events[..n]))
    ensures FreshInv(states[n], Issued(stored, events[..n]))
  {
    if n > 0 {
      var issued, e := Issued(stored, events[..n - 1]), events[n - 1];
      assert events[..n][..n - 1] == events[..n - 1];
      assert forall i :: 0 <= i < |issued| ==> Issued(stored, events[..n])[i] == issued[i];
      RunKeepsFreshInv(stored, events, states, n - 1);
      RunKeepsInv(stored, events, states, n - 1);
      if Given(e).Some? {
        assert Issued(stored, events[..n])[|issued|] == Given(e).value;
      }
      StepKeepsFreshInv(states[n - 1], e, issued);
    }
  }

  /** If every refresh token the server issues is new, none is ever sent in two refreshes. */
  lemma NoTokenIsSentTwice(stored: Option<Tokens>, events: seq<Event>, states: seq<State>, p: nat, q: nat)
    requires Run(stored, events, states) && Distinct(Issued(stored, events))
    requires p < q < |states[|events|].attempts| && states[|events|].attempts[p].sent.Some?
    ensures states[|events|].attempts[p].sent != states[|events|].attempts[q].sent
  {
    assert events[..|events|] == events;
    RunKeepsFreshInv(stored, events, states, |events|);
  }

  // ----- How often a failure is reported -----

  function RejectedCount(attempts: seq<Attempt>): nat {
    if attempts == [] then 0
    else RejectedCount(attempts[..|attempts| - 1]) + if attempts[|attempts| - 1].status.Rejected? then 1 else 0
  }

  /** A rejection in the slot has not been reported yet: its owner has still to resume. */
  function Unreported(s: State): nat {
    if s.slot.Some? && s.slot.value < |s.attempts| && s.attempts[s.slot.value].status.Rejected? then 1 else 0
  }

  lemma {:induction false} SettlingCounts(attempts: seq<Attempt>, p: nat, a: Attempt)
    requires p < |attempts| && attempts[p].status.Pending?
    ensures RejectedCount(attempts[p := a]) == RejectedCount(attempts) + if a.status.Rejected? then 1 else 0
    decreases |attempts|
  {
    var n := |attempts| - 1;
    if p < n {
      assert attempts[p := a][..n] == attempts[..n][p := a];
      SettlingCounts(attempts[..n], p, a);
    } else {
      assert attempts[p := a][..n] == attempts[..n];
    }
  }

  lemma StepCountsRejections(s: State, e: Event)
    requires Inv(s) && Enabled(s, e) && s.notices + Unreported(s) == RejectedCount(s.attempts)
    ensures var s' := Next(s, e); s'.notices + Unreported(s') == RejectedCount(s'.attempts)
  {
    var s' := Next(s, e);
    match e
    case Respond(p, _) => SettlingCounts(s.attempts, p, s'.attempts[p]);
    case _ =>
      assert |s'.attempts| > |s.attempts| ==> s'.attempts[..|s'.attempts| - 1] == s.attempts;
  }

  /** In every interleaving each failed attempt is reported exactly once, by its owner. */
  lemma {:induction false} AttemptsAreReportedOnce(stored: Option<Tokens>, events: seq<Event>,
      states: seq<State>, n: nat)
    requires Run(stored, events, states) && n <= |events|
    ensures states[n].notices + Unreported(states[n]) == RejectedCount(states[n].attempts)
  {
    if n > 0 {
      AttemptsAreReportedOnce(stored, events, states, n - 1);
      RunKeepsInv(stored, events, states, n - 1);
      StepCountsRejections(states[n - 1], events[n - 1]);
    }
  }

  ghost predicate Continues(s: State, events: seq<Event>, states: seq<State>) {
    && |states| == |events| + 1
    && states[0] == s
    && forall i :: 0 <= i < |events| ==> Enabled(states[i], events[i]) && states[i + 1] == Next(states[i], events[i])
  }

  /** What can happen to call c when nobody else does anything and the server refuses. */
  predicate RefusedEvent(e: Event, c: nat) {
    e == Resume(c) || e == Retry(c) || (e.Respond? && e.answer.None?)
  }

  ghost predicate RefusedCall(events: seq<Event>, c: nat, access: Access) {
    events != [] && events[0] == Call(c, access) && forall i :: 1 <= i < |events| ==> RefusedEvent(events[i], c)
  }

  predicate Finished(k: Caller) {
    k.Returned? || k.Threw?
  }

  /** A call can begin here and be alone with the client. */
  ghost predicate Idle(s: State, c: nat) {
    Inv(s) && s.slot.None? && s.stored.Some? && c !in s.callers
  }

  function Reports(access: Access): nat {
    match access
    case Good => 0
    case Unreadable => 1
    case Expiring => 2
  }

  /** The attempts a refused call makes: the second one, without a token, is never sent. */
  function RefusedAttempts(refresh: Option<string>, access: Access): seq<Attempt> {
    match access
    case Good => []
    case Unreadable => [Attempt(refresh, Rejected)]
    case Expiring => [Attempt(refresh, Rejected), Attempt(None, Rejected)]
  }

  /** How far a refused call that began in s0 has come. */
  ghost predicate Stage(s0: State, c: nat, access: Access, s: State)
    requires s0.stored.Some?
  {
    var refresh := s0.stored.value.refresh;
    && Inv(s) && c in s.callers && (s.slot.None? <==> !s.callers[c].Owner?)
    && match s.callers[c]
       case Owner(p, guarded) =>
         if guarded || access.Unreadable? then
           && guarded == access.Expiring? && !access.Good?
           && s.notices == s0.notices && p == |s0.attempts|
           && exists status: Status :: !status.Fulfilled? && s.attempts == s0.attempts + [Attempt(refresh, status)]
         else
           && access.Expiring? && s.notices == s0.notices + 1 && p == |s0.attempts| + 1
           && s.attempts == s0.attempts + RefusedAttempts(refresh, Expiring)
       case Retrying(p) =>
         && access.Expiring? && s.notices == s0.notices + 1 && s.stored.None?
         && s.attempts == s0.attempts + RefusedAttempts(refresh, Unreadable)
       case Returned(_, _) =>
         access.Good? && s.notices == s0.notices && s.attempts == s0.attempts
       case Threw(_) =>
         && !access.Good? && s.notices == s0.notices + Reports(access)
         && s.attempts == s0.attempts + RefusedAttempts(refresh, access)
       case Joiner(_, _) => false
  }

  /** How many steps a caller has left when the server refuses. */
  function StepsLeft(s: State, c: nat): nat
    requires c in s.callers
  {
    match s.callers[c]
    case Owner(p, guarded) =>
      (if guarded then 3 else 1) + if p < |s.attempts| && s.attempts[p].status.Pending? then 1 else 0
    case Retrying(_) => 2
    case _ => 0
  }

  lemma CallStarts(s: State, c: nat, access: Access)
    requires Idle(s, c)
    ensures Stage(s, c, access, Next(s, Call(c, access)))
    ensures StepsLeft(Next(s, Call(c, access)), c) <= 4
  {
    StepKeepsInv(s, Call(c, access));
  }

  lemma StageGoesOn(s0: State, c: nat, access: Access, s: State, e: Event)
    requires Idle(s0, c) && Stage(s0, c, access, s) && Enabled(s, e) && RefusedEvent(e, c)
    ensures Stage(s0, c, access, Next(s, e)) && StepsLeft(Next(s, e), c) < StepsLeft(s, c)
  {
    StepKeepsInv(s, e);
  }

  lemma {:induction false} RefusedCallHasStages(s: State, c: nat, access: Access, events: seq<Event>,
      states: seq<State>, n: nat)
    requires Idle(s, c) && Continues(s, events, states) && RefusedCall(events, c, access) && 1 <= n <= |events|
    ensures Stage(s, c, access, states[n]) && StepsLeft(states[n], c) + n <= 5
  {
    if n == 1 {
      CallStarts(s, c, access);
    } else {
      RefusedCallHasStages(s, c, access, events, states, n - 1);
      StageGoesOn(s, c, access, states[n - 1], events[n - 1]);
    }
  }

  /** How often a call that is refused reports it: exactly once when its token could not be read,
      twice when it was about to expire, because the `catch` around the expiry check catches the
      failed refresh too and starts another; and the other way round. At most one is sent. */
  lemma RefusalIsReportedOnceExactly(s: State, c: nat, access: Access, events: seq<Event>, states: seq<State>)
    requires Idle(s, c) && Continues(s, events, states) && RefusedCall(events, c, access)
    requires c in states[|events|].callers && Finished(states[|events|].callers[c])
    ensures var reports := states[|events|].notices - s.notices;
            && (reports == 0 <==> access.Good?)
            && (reports == 1 <==> access.Unreadable?)
            && (reports == 2 <==> access.Expiring?)
    ensures states[|events|].callers[c].Threw? <==> !access.Good?
    ensures states[|events|].attempts == s.attempts + RefusedAttempts(s.stored.value.refresh, access)
  {
    RefusedCallHasStages(s, c, access, events, states, |events|);
  }

  /** Such a call does finish: it has at most five steps, and until the end there is a next one. */
  lemma RefusedCallFinishes(s: State, c: nat, access: Access, events: seq<Event>, states: seq<State>)
    requires Idle(s, c) && Continues(s, events, states) && RefusedCall(events, c, access)
    ensures |events| <= 5
    ensures c in states[|events|].callers
    ensures Finished(states[|events|].callers[c]) || exists e :: RefusedEvent(e, c) && Enabled(states[|events|], e)
  {
    RefusedCallHasStages(s, c, access, events, states, |events|);
    var k := states[|events|].callers[c];
    if !Finished(k) {
      var e := if k.Retrying? then Retry(c)
               else if states[|events|].attempts[k.attempt].status.Pending? then Respond(k.attempt, None)
               else Resume(c);
      assert RefusedEvent(e, c) && Enabled(states[|events|], e);
    }
  }

  /** A call of a new client with an expiring token: one request, two reports. */
  lemma FailedRefreshIsReportedTwice(t: Tokens)
    requires t.refresh.Some?
    ensures var events := [Call(0, Expiring), Respond(0, None), Resume(0), Retry(0), Resume(0)];
            exists states: seq<State> :: Run(Some(t), events, states) &&
              states[5].notices == 2 && Lookup(states[5].callers, 0) == Some(Threw(Some(1))) &&
              states[5].attempts == [Attempt(t.refresh, Rejected), Attempt(None, Rejected)]
  {
    var events := [Call(0, Expiring), Respond(0, None), Resume(0), Retry(0), Resume(0)];
    var s0 := Start(Some(t), None);
    var s1 := Next(s0, events[0]);
    var s2 := Next(s1, events[1]);
    var s3 := Next(s2, events[2]);
    var s4 := Next(s3, events[3]);
    var s5 := Next(s4, events[4]);
    assert s2.attempts == [Attempt(t.refresh, Rejected)];
    assert Run(Some(t), events, [s0, s1, s2, s3, s4, s5]);
  }

  // ----- Logging out -----

  ghost predicate NoLogIn(events: seq<Event>) {
    forall i :: 0 <= i < |events| ==> !events[i].LogIn?
  }

  /** Logged out, and no refresh that can still bring tokens. */
  predicate Quiet(s: State) {
    s.stored.None? && (s.slot.Some? && s.slot.value < |s.attempts| ==> s.attempts[s.slot.value].status.Rejected?)
  }

  lemma QuietStaysQuiet(s: State, e: Event)
    requires Inv(s) && Quiet(s) && Enabled(s, e) && !e.LogIn?
    ensures Quiet(Next(s, e))
  {
  }

  lemma {:induction false} QuietRun(s: State, events: seq<Event>, states: seq<State>, n: nat)
    requires Inv(s) && Quiet(s) && Continues(s, events, states) && NoLogIn(events) && n <= |events|
    ensures Inv(states[n]) && Quiet(states[n])
  {
    if n > 0 {
      QuietRun(s, events, states, n - 1);
      QuietStaysQuiet(states[n - 1], events[n - 1]);
      StepKeepsInv(states[n - 1], events[n - 1]);
    }
  }

  /** A refresh in flight comes back after the logout and stores its tokens. */
  lemma RefreshUndoesLogout(s: State, t: Tokens) returns (events: seq<Event>, states: seq<State>)
    requires Inv(s) && s.slot.Some? && !s.attempts[s.slot.value].status.Rejected?
    ensures Continues(s, events, states) && NoLogIn(events) && states[|events|].stored.Some?
  {
    var p := s.slot.value;
    var owner :| owner in s.callers && s.callers[owner].Owner?;
    if s.attempts[p].status.Fulfilled? {
      events, states := [Resume(owner)], [s, Next(s, Resume(owner))];
    } else {
      var answered := Next(s, Respond(p, Some(t)));
      events := [Respond(p, Some(t)), Resume(owner)];
      states := [s, answered, Next(answered, Resume(owner))];
    }
  }

  ghost predicate LogoutIsFinal(s: State) {
    forall events: seq<Event>, states: seq<State>, n: nat ::
      Continues(s, events, states) && NoLogIn(events) && n <= |events| ==> states[n].stored.None?
  }

  /** A logout lasts until the next login exactly when, at the logout, the slot is empty or its
      attempt has failed already. */
  lemma LogoutIsFinalExactly(s: State)
    requires Inv(s)
    ensures LogoutIsFinal(Next(s, ClearAuth)) <==>
            s.slot.None? || s.attempts[s.slot.value].status.Rejected?
  {
    var out := Next(s, ClearAuth);
    StepKeepsInv(s, ClearAuth);
    if s.slot.None? || s.attempts[s.slot.value].status.Rejected? {
      forall events: seq<Event>, states: seq<State>, n: nat |
        Continues(out, events, states) && NoLogIn(events) && n <= |events|
        ensures states[n].stored.None?
      {
        QuietRun(out, events, states, n);
      }
    } else {
      var events, states := RefreshUndoesLogout(out, Tokens("", None));
    }
  }

  /** There is never a user without tokens, unless the storage began that way. */
  lemma {:induction false} UserHasTokens(stored: Option<Tokens>, events: seq<Event>, states: seq<State>, n: nat)
    requires Run(stored, events, states) && n <= |events| && (states[0].user.Some? ==> stored.Some?)
    ensures states[n].user.Some? ==> states[n].stored.Some?
  {
    if n > 0 {
      UserHasTokens(stored, events, states, n - 1);
    }
  }
}
