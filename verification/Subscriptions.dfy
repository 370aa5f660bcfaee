/** The event subscriptions of `subscription.rs`: who gets which events, over whole runs, and what
    the filter language means. */
module Subscriptions {
  import opened Wrappers
  import opened Strings

  /** `texts`: the members of the event's JSON data that are strings. */
  datatype HistoricalEvent = HistoricalEvent(id: nat, entityType: string, texts: map<string, string>)

  // ----- Filters -----

  /** Unicode's White_Space, which `trim` removes. */
  predicate IsSpace(c: char) {
    var n := c as int;
    9 <= n <= 13 || n == 0x20 || n == 0x85 || n == 0xA0 || n == 0x1680 || 0x2000 <= n <= 0x200A ||
    n == 0x2028 || n == 0x2029 || n == 0x202F || n == 0x205F || n == 0x3000
  }

  predicate IsQuote(c: char) {
    c == '\''
  }

  function StripStart(s: string, strip: char -> bool): string {
    if s != "" && strip(s[0]) then StripStart(s[1..], strip) else s
  }

  function StripEnd(s: string, strip: char -> bool): string {
    if s != "" && strip(s[|s| - 1]) then StripEnd(s[..|s| - 1], strip) else s
  }

  function Strip(s: string, strip: char -> bool): string {
    StripEnd(StripStart(s, strip), strip)
  }

  /** Nothing to strip at either end. */
  predicate Bare(s: string, strip: char -> bool) {
    s != "" ==> !strip(s[0]) && !strip(s[|s| - 1])
  }

  const UNEQUAL: string := " != "
  const EQUAL: string := " = "

  /** `matches_filter`: `!=` is looked for first, then `=`; anything else matches nothing. */
  function MatchesFilter(e: HistoricalEvent, filter: Option<string>): bool {
    if filter.None? then true
    else
      var text := Strip(filter.value, IsSpace);
      if text == "" then true
      else
        match Find(text, UNEQUAL, 0)
        case Some(i) =>
          var field, expected := Strip(text[..i], IsSpace), Strip(Strip(text[i + |UNEQUAL|..], IsSpace), IsQuote);
          Lookup(e.texts, field) != Some(expected)
        case None =>
          match Find(text, EQUAL, 0)
          case Some(i) =>
            var field, expected := Strip(text[..i], IsSpace), Strip(Strip(text[i + |EQUAL|..], IsSpace), IsQuote);
            Lookup(e.texts, field) == Some(expected)
          case None => false
  }

  /** The filter a client writes to ask for events whose field has a value, or has not. */
  function Written(field: string, negated: bool, value: string): string {
    field + Operator(negated) + "'" + value + "'"
  }

  function Operator(negated: bool): string {
    if negated then UNEQUAL else EQUAL
  }

  lemma StripQuoted(value: string)
    requires Bare(value, IsQuote)
    ensures Strip("'" + value + "'", IsQuote) == value
  {
    var quoted := "'" + value + "'";
    assert quoted[1..] == value + "'";
    if value == "" {
      assert quoted[1..] == "'" && "'"[1..] == "";
      assert StripStart("'", IsQuote) == "";
      assert StripStart(quoted, IsQuote) == "";
    } else {
      var tail := value + "'";
      assert tail[0] == value[0] && tail[|value|] == '\'' && tail[..|value|] == value;
      assert StripStart(tail, IsQuote) == tail;
      assert StripEnd(tail, IsQuote) == StripEnd(value, IsQuote);
    }
  }

  lemma {:induction false} StripEndShortens(s: string, strip: char -> bool)
    ensures StripEnd(s, strip) <= s
    ensures StripEnd(s, strip) != "" ==> !strip(StripEnd(s, strip)[|StripEnd(s, strip)| - 1])
    decreases |s|
  {
    if s != "" && strip(s[|s| - 1]) {
      StripEndShortens(s[..|s| - 1], strip);
    }
  }

  lemma {:induction false} StripStartShortens(s: string, strip: char -> bool)
    ensures |StripStart(s, strip)| <= |s|
    ensures StripStart(s, strip) != "" ==> !strip(StripStart(s, strip)[0])
  {
    if s != "" && strip(s[0]) {
      StripStartShortens(s[1..], strip);
    }
  }

  /** What is left has nothing more to strip. */
  lemma StripIsBare(s: string, strip: char -> bool)
    ensures Bare(Strip(s, strip), strip) && |Strip(s, strip)| <= |s|
  {
    StripStartShortens(s, strip);
    StripEndShortens(StripStart(s, strip), strip);
  }

  lemma {:induction false} StripEndStops(s: string, strip: char -> bool)
    requires s != "" && !strip(s[0])
    ensures StripEnd(s, strip) != ""
    decreases |s|
  {
    if strip(s[|s| - 1]) {
      StripEndStops(s[..|s| - 1], strip);
    }
  }

  /** Strip removes what can be removed at both ends, and nothing else. */
  lemma StripExactly(s: string, strip: char -> bool) returns (i: nat, j: nat)
    ensures i <= j <= |s| && Strip(s, strip) == s[i..j] && Bare(Strip(s, strip), strip)
    ensures forall k :: 0 <= k < i || j <= k < |s| ==> strip(s[k])
  {
    i := StripStartDrops(s, strip);
    var n := StripEndDrops(s[i..], strip);
    j := i + n;
    assert s[i..][..n] == s[i..j];
    assert forall k :: j <= k < |s| ==> s[k] == s[i..][k - i];
    StripIsBare(s, strip);
  }

  lemma {:induction false} StripStartDrops(s: string, strip: char -> bool) returns (i: nat)
    ensures i <= |s| && StripStart(s, strip) == s[i..] && forall k :: 0 <= k < i ==> strip(s[k])
  {
    if s != "" && strip(s[0]) {
      i := StripStartDrops(s[1..], strip);
      assert s[1..][i..] == s[i + 1..];
      assert forall k :: 1 <= k < i + 1 ==> s[k] == s[1..][k - 1];
      i := i + 1;
    } else {
      i := 0;
    }
  }

  lemma {:induction false} StripEndDrops(s: string, strip: char -> bool) returns (n: nat)
    ensures n <= |s| && StripEnd(s, strip) == s[..n] && forall k :: n <= k < |s| ==> strip(s[k])
    decreases |s|
  {
    if s != "" && strip(s[|s| - 1]) {
      n := StripEndDrops(s[..|s| - 1], strip);
    } else {
      n := |s|;
    }
  }

  /** No ` != ` comes before the first ` = ` that is meant, the operator after the field is the
      first of its kind, and there is nothing to strip from the field or the value. */
  predicate ReadsAsWritten(field: string, negated: bool, value: string) {
    && field != "" && Bare(field, IsSpace) && Bare(value, IsQuote)
    && Find(Written(field, negated, value), Operator(negated), 0) == Some(|field|)
    && (negated || !Contains(Written(field, negated, value), UNEQUAL))
  }

  /** The filter accepts the events whose field has the value; or, negated, all others. */
  ghost predicate Means(filter: string, field: string, negated: bool, value: string) {
    forall e :: MatchesFilter(e, Some(filter)) <==> (negated <==> Lookup(e.texts, field) != Some(value))
  }

  lemma WrittenParses(field: string, negated: bool, value: string)
    requires ReadsAsWritten(field, negated, value)
    ensures var text := Written(field, negated, value);
            && Strip(text, IsSpace) == text
            && Strip(text[..|field|], IsSpace) == field
            && Strip(Strip(text[|field| + |Operator(negated)|..], IsSpace), IsQuote) == value
  {
    BareFieldStays(field, negated, value);
    WrittenParts(field, Operator(negated), value);
    StripQuoted(value);
  }

  lemma WrittenParts(field: string, op: string, value: string)
    ensures var text := field + op + "'" + value + "'";
            text[..|field|] == field && text[|field| + |op|..] == "'" + value + "'"
  {
    var quoted := "'" + value + "'";
    assert field + op + "'" + value + "'" == field + op + quoted;
  }

  /** What the code reads out of a filter that compares a field with a value. */
  lemma ParsedComparison(filter: string, field: string, negated: bool, value: string)
    requires Means(filter, field, negated, value)
    ensures var text := Strip(filter, IsSpace);
            && Contains(text, UNEQUAL) == negated
            && Find(text, Operator(negated), 0).Some?
            && var i := Find(text, Operator(negated), 0).value;
               field == Strip(text[..i], IsSpace) &&
               value == Strip(Strip(text[i + |Operator(negated)|..], IsSpace), IsQuote)
  {
    var text := Strip(filter, IsSpace);
    var none, one := HistoricalEvent(0, "", map[]), HistoricalEvent(0, "", map[field := value]);
    assert MatchesFilter(none, Some(filter)) == negated && MatchesFilter(one, Some(filter)) == !negated;
    var i := Find(text, Operator(negated), 0).value;
    var field' := Strip(text[..i], IsSpace);
    var value' := Strip(Strip(text[i + |Operator(negated)|..], IsSpace), IsQuote);
    var parsed := HistoricalEvent(0, "", map[field' := value']);
    assert MatchesFilter(parsed, Some(filter)) == !negated;
  }

  /** Without a field the text begins with the operator, which is then read as a field. */
  lemma EmptyFieldIsMisread(negated: bool, value: string, i: nat)
    requires OccursAt(Strip(Written("", negated, value), IsSpace), Operator(negated), i)
    ensures Strip(Strip(Written("", negated, value), IsSpace)[..i], IsSpace) != ""
  {
    var written, op := Written("", negated, value), Operator(negated);
    var rest := op[1..] + "'" + value + "'";
    assert written[1..] == rest && rest[|rest| - 1] == '\'' && !IsSpace(rest[0]);
    assert StripStart(written, IsSpace) == StripStart(rest, IsSpace) == rest;
    assert Strip(written, IsSpace) == StripEnd(rest, IsSpace) == rest;
    assert rest[i..i + |op|][0] == rest[i];
    StripEndStops(rest[..i], IsSpace);
  }

  lemma BareFieldStays(field: string, negated: bool, value: string)
    requires field != "" && Bare(field, IsSpace)
    ensures var filter := Written(field, negated, value);
            Strip(filter, IsSpace) == filter && OccursAt(filter, Operator(negated), |field|)
  {
    var filter := Written(field, negated, value);
    assert filter[0] == field[0] && filter[|filter| - 1] == '\'';
  }

  lemma ReadingGivesMeaning(field: string, negated: bool, value: string)
    requires ReadsAsWritten(field, negated, value)
    ensures Means(Written(field, negated, value), field, negated, value)
  {
    WrittenParses(field, negated, value);
    ParsedMeans(Written(field, negated, value), negated, |field|, field, value);
  }

  lemma ParsedMeans(text: string, negated: bool, i: nat, field: string, value: string)
    requires text != "" && Strip(text, IsSpace) == text && Find(text, Operator(negated), 0) == Some(i)
    requires negated || !Contains(text, UNEQUAL)
    requires field == Strip(text[..i], IsSpace)
    requires value == Strip(Strip(text[i + |Operator(negated)|..], IsSpace), IsQuote)
    ensures Means(text, field, negated, value)
  {
  }

  /** The field that is read ends no later than its operator. */
  lemma FieldIsFirst(text: string, op: string, field: string)
    requires OccursAt(text, op, |field|)
    ensures Find(text, op, 0).Some?
    ensures field == Strip(text[..Find(text, op, 0).value], IsSpace) ==> Find(text, op, 0) == Some(|field|)
  {
    StripIsBare(text[..Find(text, op, 0).value], IsSpace);
  }

  lemma MeaningIsBare(field: string, negated: bool, value: string)
    requires Means(Written(field, negated, value), field, negated, value)
    ensures field != "" && Bare(field, IsSpace) && Bare(value, IsQuote)
  {
    var filter, op := Written(field, negated, value), Operator(negated);
    ParsedComparison(filter, field, negated, value);
    var text := Strip(filter, IsSpace);
    var i := Find(text, op, 0).value;
    StripIsBare(text[..i], IsSpace);
    StripIsBare(Strip(text[i + |op|..], IsSpace), IsQuote);
    if field == "" {
      EmptyFieldIsMisread(negated, value, i);
    }
  }

  lemma MeaningNeedsReading(field: string, negated: bool, value: string)
    requires Means(Written(field, negated, value), field, negated, value)
    ensures ReadsAsWritten(field, negated, value)
  {
    MeaningIsBare(field, negated, value);
    BareFieldStays(field, negated, value);
    ParsedComparison(Written(field, negated, value), field, negated, value);
    FieldIsFirst(Written(field, negated, value), Operator(negated), field);
  }

  /** A filter written for a comparison means it exactly when the code reads it as written: an
      ` != ` in the value turns an equality into an inequality, an earlier operator moves the end
      of the field, and quotes at the ends of the value or spaces around the field are lost. */
  lemma WrittenFilterExactly(field: string, negated: bool, value: string)
    ensures Means(Written(field, negated, value), field, negated, value) <==> ReadsAsWritten(field, negated, value)
  {
    if ReadsAsWritten(field, negated, value) {
      ReadingGivesMeaning(field, negated, value);
    }
    if Means(Written(field, negated, value), field, negated, value) {
      MeaningNeedsReading(field, negated, value);
    }
  }

  /** A quote at an end of the value, an ` != ` in an equality or an earlier operator is enough. */
  lemma MisreadFilter(field: string, negated: bool, value: string, at: nat)
    requires || !Bare(value, IsQuote)
             || (!negated && OccursAt(Written(field, negated, value), UNEQUAL, at))
             || (at < |field| && OccursAt(Written(field, negated, value), Operator(negated), at))
    ensures !Means(Written(field, negated, value), field, negated, value)
  {
    WrittenFilterExactly(field, negated, value);
  }

  /** The filter `name = 'n''` does not mean that the name is `n'`. */
  lemma QuoteIsLost()
    ensures !Means(Written("name", false, "n'"), "name", false, "n'")
  {
    MisreadFilter("name", false, "n'", 0);
  }

  ghost predicate Blank(s: string) {
    forall k :: 0 <= k < |s| ==> IsSpace(s[k])
  }

  lemma BlankIsStripped(s: string)
    ensures Strip(s, IsSpace) == "" <==> Blank(s)
  {
    var i, j := StripExactly(s, IsSpace);
    assert i < j ==> s[i..j][0] == s[i];
  }

  /** Only a missing or blank filter lets everything through. */
  lemma AcceptsAllExactly(filter: Option<string>)
    ensures (forall e :: MatchesFilter(e, filter)) <==> filter.None? || Blank(filter.value)
  {
    if filter.Some? {
      BlankIsStripped(filter.value);
      var text := Strip(filter.value, IsSpace);
      if text != "" {
        var e := Rejected(text);
        assert !MatchesFilter(e, filter);
      }
    }
  }

  /** An event that a filter of this text rejects. */
  function Rejected(text: string): HistoricalEvent {
    match Find(text, UNEQUAL, 0)
    case Some(i) =>
      var field, value := Strip(text[..i], IsSpace), Strip(Strip(text[i + |UNEQUAL|..], IsSpace), IsQuote);
      HistoricalEvent(0, "", map[field := value])
    case None => HistoricalEvent(0, "", map[])
  }

  /** A filter lets nothing through exactly when there is something in it but no operator. */
  lemma AcceptsNoneExactly(filter: Option<string>)
    ensures (forall e :: !MatchesFilter(e, filter)) <==>
            filter.Some? && !Blank(filter.value) &&
            !Contains(Strip(filter.value, IsSpace), UNEQUAL) && !Contains(Strip(filter.value, IsSpace), EQUAL)
  {
    var none := HistoricalEvent(0, "", map[]);
    if filter.None? {
      assert MatchesFilter(none, filter);
    } else {
      BlankIsStripped(filter.value);
      var text := Strip(filter.value, IsSpace);
      if text == "" || Contains(text, UNEQUAL) {
        assert MatchesFilter(none, filter);
      } else if Contains(text, EQUAL) {
        var i := Find(text, EQUAL, 0).value;
        var field, value := Strip(text[..i], IsSpace), Strip(Strip(text[i + |EQUAL|..], IsSpace), IsQuote);
        assert MatchesFilter(HistoricalEvent(0, "", map[field := value]), filter);
      }
    }
  }

  // ----- Delivery -----

  datatype Subscription = Subscription(entityType: string, filter: Option<string>, channel: nat)

  /** `channels[c]` is what has been sent to receiver c; receivers are numbered in the order of
      the subscriptions that made them. */
  datatype State = State(subscriptions: map<string, Subscription>, channels: seq<seq<HistoricalEvent>>)

  datatype Op =
    | Subscribe(id: string, entityType: string, filter: Option<string>)
    | Unsubscribe(id: string)
    | Broadcast(event: HistoricalEvent)

  predicate Wants(entityType: string, filter: Option<string>, e: HistoricalEvent) {
    entityType == e.entityType && MatchesFilter(e, filter)
  }

  predicate Hears(subscriptions: map<string, Subscription>, c: nat, e: HistoricalEvent) {
    exists id :: id in subscriptions && subscriptions[id].channel == c &&
      Wants(subscriptions[id].entityType, subscriptions[id].filter, e)
  }

  function Next(s: State, op: Op): State {
    match op
    case Subscribe(id, entityType, filter) =>
      State(s.subscriptions[id := Subscription(entityType, filter, |s.channels|)], s.channels + [[]])
    case Unsubscribe(id) => s.(subscriptions := s.subscriptions - {id})
    case Broadcast(e) => s.(channels := Sent(s, e))
  }

  function Sent(s: State, e: HistoricalEvent): (r: seq<seq<HistoricalEvent>>)
    ensures |r| == |s.channels|
    ensures forall c :: 0 <= c < |r| ==> r[c] == s.channels[c] + if Hears(s.subscriptions, c, e) then [e] else []
  {
    seq(|s.channels|, c requires 0 <= c < |s.channels| =>
      s.channels[c] + if Hears(s.subscriptions, c, e) then [e] else [])
  }

  /** Every subscription has a receiver of its own. */
  ghost predicate Inv(s: State) {
    && (forall id :: id in s.subscriptions ==> s.subscriptions[id].channel < |s.channels|)
    && (forall id, other :: id in s.subscriptions && other in s.subscriptions && id != other ==>
          s.subscriptions[id].channel != s.subscriptions[other].channel)
  }

  class SubscriptionManager {
    var subscriptions: map<string, Subscription>
    var channels: seq<seq<HistoricalEvent>>

    function Abs(): State
      reads this
    {
      State(subscriptions, channels)
    }

    constructor ()
      ensures Abs() == State(map[], [])
    {
      subscriptions, channels := map[], [];
    }

    method Subscribe(id: string, entityType: string, filter: Option<string>) returns (receiver: nat)
      modifies this
      ensures Abs() == Next(old(Abs()), Op.Subscribe(id, entityType, filter))
      ensures receiver == |old(channels)|
    {
      receiver := |channels|;
      channels := channels + [[]];
      subscriptions := subscriptions[id := Subscription(entityType, filter, receiver)];
    }

    method Unsubscribe(id: string) returns (removed: bool)
      modifies this
      ensures Abs() == Next(old(Abs()), Op.Unsubscribe(id))
      ensures removed == (id in old(subscriptions))
    {
      removed := id in subscriptions;
      subscriptions := subscriptions - {id};
    }

    /** Visits the subscriptions in the map's order, whatever that is. */
    method BroadcastEvent(e: HistoricalEvent)
      requires Inv(Abs())
      modifies this`channels
      ensures Abs() == Next(old(Abs()), Broadcast(e))
    {
      var rest := subscriptions.Keys;
      ghost var before := channels;
      NobodyYet(subscriptions, before, e);
      while rest != {}
        invariant rest <= subscriptions.Keys
        invariant channels == Sent(State(subscriptions - rest, before), e)
        decreases rest
      {
        var id :| id in rest;
        var subscription := subscriptions[id];
        SentToOneMore(subscriptions, before, e, rest, id);
        rest := rest - {id};
        if subscription.entityType == e.entityType {
          if MatchesFilter(e, subscription.filter) {
            var c := subscription.channel;
            channels := channels[c := channels[c] + [e]];
          }
        }
      }
      assert subscriptions - rest == subscriptions;
    }
  }

  lemma NobodyYet(subscriptions: map<string, Subscription>, channels: seq<seq<HistoricalEvent>>, e: HistoricalEvent)
    ensures Sent(State(subscriptions - subscriptions.Keys, channels), e) == channels
  {
    var nobody := State(subscriptions - subscriptions.Keys, channels);
    assert nobody.subscriptions == map[];
    forall c | 0 <= c < |channels|
      ensures Sent(nobody, e)[c] == channels[c]
    {
      assert !Hears(nobody.subscriptions, c, e);
    }
  }

  /** One turn of the broadcast loop. */
  lemma SentToOneMore(subscriptions: map<string, Subscription>, channels: seq<seq<HistoricalEvent>>,
      e: HistoricalEvent, rest: set<string>, id: string)
    requires Inv(State(subscriptions, channels)) && id in rest && rest <= subscriptions.Keys
    ensures var sub := subscriptions[id];
            var sent := Sent(State(subscriptions - rest, channels), e);
            Sent(State(subscriptions - (rest - {id}), channels), e) ==
              if Wants(sub.entityType, sub.filter, e) then sent[sub.channel := sent[sub.channel] + [e]] else sent
  {
    var before, after, sub := subscriptions - rest, subscriptions - (rest - {id}), subscriptions[id];
    assert after == before[id := sub];
    var old', new' := Sent(State(before, channels), e), Sent(State(after, channels), e);
    forall c | 0 <= c < |channels|
      ensures new'[c] == if c == sub.channel && Wants(sub.entityType, sub.filter, e) then old'[c] + [e] else old'[c]
    {
      HearsOneMore(before, id, sub, c, e);
      if c == sub.channel {
        assert forall other :: other in before ==> other in subscriptions && other != id;
        assert !Hears(before, c, e);
      }
    }
  }

  lemma HearsOneMore(before: map<string, Subscription>, id: string, sub: Subscription, c: nat, e: HistoricalEvent)
    requires id !in before
    ensures Hears(before[id := sub], c, e) <==>
            Hears(before, c, e) || (c == sub.channel && Wants(sub.entityType, sub.filter, e))
  {
    var after := before[id := sub];
    if Hears(before, c, e) {
      var other :| other in before && before[other].channel == c && Wants(before[other].entityType, before[other].filter, e);
      assert other in after && after[other] == before[other];
    }
    assert id in after && after[id] == sub;
  }

  lemma StepKeepsInv(s: State, op: Op)
    requires Inv(s)
    ensures Inv(Next(s, op))
  {
  }

  function Replay(s: State, ops: seq<Op>): State
    decreases |ops|
  {
    if ops == [] then s else Replay(Next(s, ops[0]), ops[1..])
  }

  /** The wanted events broadcast until the subscription of this id is ended or replaced. */
  function Delivered(ops: seq<Op>, id: string, entityType: string, filter: Option<string>): seq<HistoricalEvent> {
    if ops == [] then []
    else
      match ops[0]
      case Broadcast(e) =>
        (if e.entityType == entityType && MatchesFilter(e, filter) then [e] else []) + Delivered(ops[1..], id, entityType, filter)
      case Subscribe(other, _, _) => if other == id then [] else Delivered(ops[1..], id, entityType, filter)
      case Unsubscribe(other) => if other == id then [] else Delivered(ops[1..], id, entityType, filter)
  }

  lemma {:induction false} LiveReceiver(s: State, ops: seq<Op>, id: string)
    requires Inv(s) && id in s.subscriptions
    ensures var sub := s.subscriptions[id];
            sub.channel < |Replay(s, ops).channels| &&
            Replay(s, ops).channels[sub.channel] ==
              s.channels[sub.channel] + Delivered(ops, id, sub.entityType, sub.filter)
    decreases |ops|
  {
    if ops != [] {
      var s', c := Next(s, ops[0]), s.subscriptions[id].channel;
      StepKeepsInv(s, ops[0]);
      if ops[0].Broadcast? || ops[0].id != id {
        LiveReceiver(s', ops[1..], id);
      } else {
        DeadReceiver(s', ops[1..], c);
      }
    }
  }

  lemma {:induction false} DeadReceiver(s: State, ops: seq<Op>, c: nat)
    requires Inv(s) && c < |s.channels|
    requires forall id :: id in s.subscriptions ==> s.subscriptions[id].channel != c
    ensures c < |Replay(s, ops).channels| && Replay(s, ops).channels[c] == s.channels[c]
    decreases |ops|
  {
    if ops != [] {
      StepKeepsInv(s, ops[0]);
      DeadReceiver(Next(s, ops[0]), ops[1..], c);
    }
  }

  lemma {:induction false} ReplayKeepsInv(s: State, ops: seq<Op>)
    requires Inv(s)
    ensures Inv(Replay(s, ops))
    decreases |ops|
  {
    if ops != [] {
      StepKeepsInv(s, ops[0]);
      ReplayKeepsInv(Next(s, ops[0]), ops[1..]);
    }
  }

  lemma {:induction false} ReplayAppends(s: State, before: seq<Op>, after: seq<Op>)
    ensures Replay(s, before + after) == Replay(Replay(s, before), after)
    decreases |before|
  {
    if before == [] {
      assert before + after == after;
    } else {
      assert (before + after)[1..] == before[1..] + after;
      ReplayAppends(Next(s, before[0]), before[1..], after);
    }
  }

  /** Delivery: in every run, a receiver has got exactly the events it wanted, in the order they
      were broadcast, from its subscription until its id was unsubscribed or subscribed again. */
  lemma ReceiverGetsItsEvents(before: seq<Op>, id: string, entityType: string, filter: Option<string>, after: seq<Op>)
    ensures var receiver := |Replay(State(map[], []), before).channels|;
            var end := Replay(State(map[], []), before + [Subscribe(id, entityType, filter)] + after);
            receiver < |end.channels| && end.channels[receiver] == Delivered(after, id, entityType, filter)
  {
    var start := State(map[], []);
    var op := Subscribe(id, entityType, filter);
    var s := Replay(start, before);
    assert before + [op] + after == before + ([op] + after);
    ReplayAppends(start, before, [op] + after);
    assert ([op] + after)[1..] == after;
    ReplayKeepsInv(start, before);
    StepKeepsInv(s, op);
    LiveReceiver(Next(s, op), after, id);
  }
}
