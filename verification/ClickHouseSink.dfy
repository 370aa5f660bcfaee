/** The batching sink of `clickhouse_sink.rs`: what is received, when the timer fires and how each
    insert ends are inputs of a run. */
module ClickHouseSink {
  import opened Wrappers
  import opened Strings

  datatype EventRow = EventRow(
    eventId: string, eventType: string, entityType: string, entityId: string,
    timestamp: i64, data: string, userId: Option<string>, orgId: Option<string>)

  datatype Column = StringColumn(texts: seq<Option<string>>) | MicrosColumn(times: seq<Option<i64>>) | OtherColumn

  datatype RecordBatch = RecordBatch(columns: map<string, Column>, numRows: nat)

  datatype SinkError = Conversion | External(message: string)

  /** Every column of a record batch has one entry per row. */
  ghost predicate Rectangular(b: RecordBatch) {
    forall name :: name in b.columns ==>
      match b.columns[name]
      case StringColumn(texts) => |texts| == b.numRows
      case MicrosColumn(times) => |times| == b.numRows
      case OtherColumn => true
  }

  predicate HasText(b: RecordBatch, name: string) {
    name in b.columns && b.columns[name].StringColumn?
  }

  /** The eight columns are there with their types. */
  predicate Readable(b: RecordBatch) {
    && HasText(b, "event_id") && HasText(b, "event_type") && HasText(b, "entity_type") && HasText(b, "entity_id")
    && "timestamp" in b.columns && b.columns["timestamp"].MicrosColumn?
    && HasText(b, "data") && HasText(b, "user_id") && HasText(b, "org_id")
  }

  /** The text of a column at a row; a null reads as the empty string. */
  function TextAt(b: RecordBatch, name: string, i: nat): string
    requires HasText(b, name) && Rectangular(b) && i < b.numRows
  {
    b.columns[name].texts[i].GetOr("")
  }

  function RowAt(b: RecordBatch, i: nat): EventRow
    requires Readable(b) && Rectangular(b) && i < b.numRows
  {
    EventRow(
      TextAt(b, "event_id", i), TextAt(b, "event_type", i), TextAt(b, "entity_type", i), TextAt(b, "entity_id", i),
      b.columns["timestamp"].times[i].GetOr(0), TextAt(b, "data", i),
      b.columns["user_id"].texts[i], b.columns["org_id"].texts[i])
  }

  ghost function RowsOf(b: RecordBatch): seq<EventRow>
    requires Readable(b) && Rectangular(b)
  {
    seq(b.numRows, i requires 0 <= i < b.numRows => RowAt(b, i))
  }

  /** The rows hold a column of required texts, and so on for the other columns. */
  ghost predicate HoldTexts(rows: seq<EventRow>, column: Column, field: EventRow -> string) {
    && column.StringColumn? && |column.texts| == |rows|
    && forall i :: 0 <= i < |rows| ==> field(rows[i]) == column.texts[i].GetOr("")
  }

  ghost predicate HoldOptions(rows: seq<EventRow>, column: Column, field: EventRow -> Option<string>) {
    column.StringColumn? && column.texts == seq(|rows|, i requires 0 <= i < |rows| => field(rows[i]))
  }

  ghost predicate HoldTimes(rows: seq<EventRow>, column: Column) {
    && column.MicrosColumn? && |column.times| == |rows|
    && forall i :: 0 <= i < |rows| ==> rows[i].timestamp == column.times[i].GetOr(0)
  }

  /** Each field of the rows is the column of its name. */
  ghost predicate HoldColumns(rows: seq<EventRow>, columns: map<string, Column>)
    requires columns.Keys >= {"event_id", "event_type", "entity_type", "entity_id", "timestamp", "data", "user_id", "org_id"}
  {
    && HoldTexts(rows, columns["event_id"], (r: EventRow) => r.eventId)
    && HoldTexts(rows, columns["event_type"], (r: EventRow) => r.eventType)
    && HoldTexts(rows, columns["entity_type"], (r: EventRow) => r.entityType)
    && HoldTexts(rows, columns["entity_id"], (r: EventRow) => r.entityId)
    && HoldTimes(rows, columns["timestamp"])
    && HoldTexts(rows, columns["data"], (r: EventRow) => r.data)
    && HoldOptions(rows, columns["user_id"], (r: EventRow) => r.userId)
    && HoldOptions(rows, columns["org_id"], (r: EventRow) => r.orgId)
  }

  lemma RowsHoldColumns(b: RecordBatch)
    requires Readable(b) && Rectangular(b)
    ensures |RowsOf(b)| == b.numRows && HoldColumns(RowsOf(b), b.columns)
  {
  }

  method ProcessBatch(b: RecordBatch) returns (r: Result<seq<EventRow>, SinkError>)
    requires Rectangular(b)
    ensures r.Ok? <==> Readable(b)
    ensures r.Ok? ==> r.value == RowsOf(b)
    ensures r.Ok? ==> |r.value| == b.numRows && HoldColumns(r.value, b.columns)
  {
    if !HasText(b, "event_id") || !HasText(b, "event_type") || !HasText(b, "entity_type") || !HasText(b, "entity_id") {
      return Err(Conversion);
    }
    if "timestamp" !in b.columns || !b.columns["timestamp"].MicrosColumn? {
      return Err(Conversion);
    }
    if !HasText(b, "data") || !HasText(b, "user_id") || !HasText(b, "org_id") {
      return Err(Conversion);
    }
    var rows := [];
    for i := 0 to b.numRows
      invariant |rows| == i && forall j :: 0 <= j < i ==> rows[j] == RowAt(b, j)
    {
      rows := rows + [RowAt(b, i)];
    }
    RowsHoldColumns(b);
    assert rows == RowsOf(b);
    r := Ok(rows);
  }

  // ----- The retry loop -----

  /** How one insert ends: accepted, or refused with a message. */
  datatype Attempt = Accepted | Refused(message: string)

  /** How the inserts of one flush would end: the first, the second, and so on. */
  type Inserts = nat -> Attempt

  const TRANSIENT: seq<string> := ["Connection refused", "timeout", "TEMPORARY_ERROR", "503", "Service Unavailable"]

  /** `is_transient_error`. */
  predicate IsTransientError(message: string) {
    exists i :: 0 <= i < |TRANSIENT| && Contains(message, TRANSIENT[i])
  }

  /** The five texts that make an error transient, wherever in the message they occur. */
  lemma TransientExactly(message: string)
    ensures IsTransientError(message) <==>
            exists at: nat ::
              OccursAt(message, "Connection refused", at) || OccursAt(message, "timeout", at) ||
              OccursAt(message, "TEMPORARY_ERROR", at) || OccursAt(message, "503", at) ||
              OccursAt(message, "Service Unavailable", at)
  {
    if IsTransientError(message) {
      var i :| 0 <= i < |TRANSIENT| && Contains(message, TRANSIENT[i]);
      var at: nat :| OccursAt(message, TRANSIENT[i], at);
    }
    forall at: nat, i | 0 <= i < |TRANSIENT| && OccursAt(message, TRANSIENT[i], at)
      ensures IsTransientError(message)
    {
      assert Contains(message, TRANSIENT[i]);
    }
    assert TRANSIENT[0] == "Connection refused" && TRANSIENT[1] == "timeout" && TRANSIENT[2] == "TEMPORARY_ERROR";
    assert TRANSIENT[3] == "503" && TRANSIENT[4] == "Service Unavailable";
  }

  /** What counts as worth another attempt; the sink uses `IsTransientError`. */
  type Classifier = string -> bool

  predicate Transient(retriable: Classifier, a: Attempt) {
    a.Refused? && retriable(a.message)
  }

  function Pow2(n: nat): nat {
    if n == 0 then 1 else 2 * Pow2(n - 1)
  }

  /** Everything before attempt k failed transiently. */
  ghost predicate Reached(retriable: Classifier, inserts: Inserts, k: nat) {
    forall j :: 1 <= j < k ==> Transient(retriable, inserts(j))
  }

  /** Some allowed attempt is accepted after only transient failures. */
  ghost predicate Succeeds(retriable: Classifier, inserts: Inserts, maxRetries: nat) {
    exists k :: 1 <= k <= maxRetries && inserts(k).Accepted? && Reached(retriable, inserts, k)
  }

  /** `flush_batch`. It makes attempts until one is not a transient failure or none is left, and
      sleeps 100 * 2^k ms after the k-th unless it was the last. */
  method FlushBatch(retriable: Classifier, inserts: Inserts, maxRetries: nat)
    returns (r: Result<(), SinkError>, made: nat, sleptMillis: nat)
    ensures r.Ok? <==> Succeeds(retriable, inserts, maxRetries)
    ensures made <= maxRetries && Reached(retriable, inserts, made)
    ensures made < maxRetries ==> made > 0 && !Transient(retriable, inserts(made))
    ensures r.Err? && made > 0 ==> inserts(made).Refused? && r.error == External(inserts(made).message)
    ensures r.Err? && made == 0 ==> r.error == External("Failed to insert batch after retries")
    ensures sleptMillis == if made == 0 then 0 else 100 * (Pow2(made) - 2)
  {
    var lastError := None;
    made, sleptMillis := 0, 0;
    while made < maxRetries
      invariant made <= maxRetries && Reached(retriable, inserts, made + 1)
      invariant made == 0 ==> lastError == None && sleptMillis == 0
      invariant made > 0 ==> inserts(made).Refused? && lastError == Some(External(inserts(made).message))
      invariant 0 < made < maxRetries ==> sleptMillis == 100 * (Pow2(made + 1) - 2)
      invariant 0 < made == maxRetries ==> sleptMillis == 100 * (Pow2(made) - 2)
    {
      made := made + 1;
      match inserts(made) {
        case Accepted =>
          return Ok(()), made, sleptMillis;
        case Refused(message) =>
          if Transient(retriable, inserts(made)) {
            lastError := Some(External(message));
            if made < maxRetries {
              sleptMillis := sleptMillis + 100 * Pow2(made);
            }
          } else {
            return Err(External(message)), made, sleptMillis;
          }
      }
    }
    r := Err(lastError.GetOr(External("Failed to insert batch after retries")));
  }

  lemma {:induction false} Pow2Adds(a: nat, b: nat)
    ensures Pow2(a + b) == Pow2(a) * Pow2(b)
    decreases a
  {
    if a > 0 {
      Pow2Adds(a - 1, b);
      assert Pow2(a + b) == 2 * Pow2(a - 1 + b);
    }
  }

  lemma {:induction false} Pow2Grows(a: nat, b: nat)
    requires a <= b
    ensures Pow2(a) <= Pow2(b)
    decreases b
  {
    if a < b {
      Pow2Grows(a, b - 1);
    }
  }

  lemma Pow2Of57()
    ensures Pow2(57) == 144115188075855872 && Pow2(58) == 288230376151711744
  {
    assert Pow2(4) == 16;
    Pow2Adds(4, 4);
    assert Pow2(8) == 256;
    Pow2Adds(8, 8);
    Pow2Adds(16, 16);
    Pow2Adds(32, 16);
    Pow2Adds(48, 8);
    assert Pow2(56) == 72057594037927936;
    assert Pow2(57) == 2 * Pow2(56) && Pow2(58) == 2 * Pow2(57);
  }

  /** No backoff that a flush can sleep overflows u64 exactly for up to 58 retries. */
  lemma BackoffsFitExactly(maxRetries: nat)
    ensures (forall k :: 1 <= k < maxRetries ==> 100 * Pow2(k) <= U64_MAX) <==> maxRetries <= 58
  {
    Pow2Of57();
    if maxRetries <= 58 {
      forall k | 1 <= k < maxRetries
        ensures 100 * Pow2(k) <= U64_MAX
      {
        Pow2Grows(k, 57);
      }
    } else {
      assert 100 * Pow2(58) > U64_MAX;
    }
  }

  // ----- The receive loop -----

  datatype Config = Config(batchSize: nat, maxRetries: nat)

  /** The bounds `validate` puts on the batch size. */
  predicate Valid(cfg: Config) {
    1 <= cfg.batchSize <= 100000
  }

  datatype Input = Received(batch: RecordBatch, inserts: Inserts) | TimedOut(inserts: Inserts)

  datatype Stop = BadBatch | FlushFailed

  /** The successful flushes, the rows waiting, and why the loop has returned, if it has. */
  datatype State = State(flushed: seq<seq<EventRow>>, buffer: seq<EventRow>, stopped: Option<Stop>)

  ghost predicate WellFormed(inputs: seq<Input>) {
    forall i :: 0 <= i < |inputs| && inputs[i].Received? ==> Rectangular(inputs[i].batch)
  }

  ghost function Flush(cfg: Config, s: State, rows: seq<EventRow>, inserts: Inserts): State {
    if Succeeds(IsTransientError, inserts, cfg.maxRetries) then State(s.flushed + [rows], [], None)
    else State(s.flushed, rows, Some(FlushFailed))
  }

  ghost function Step(cfg: Config, s: State, input: Input): State
    requires input.Received? ==> Rectangular(input.batch)
  {
    if s.stopped.Some? then s
    else
      match input
      case TimedOut(inserts) => if s.buffer == [] then s else Flush(cfg, s, s.buffer, inserts)
      case Received(batch, inserts) =>
        if !Readable(batch) then s.(stopped := Some(BadBatch))
        else
          var rows := s.buffer + RowsOf(batch);
          if |rows| >= cfg.batchSize then Flush(cfg, s, rows, inserts) else s.(buffer := rows)
  }

  ghost function Run(cfg: Config, inputs: seq<Input>): State
    requires WellFormed(inputs)
  {
    if inputs == [] then State([], [], None)
    else Step(cfg, Run(cfg, inputs[..|inputs| - 1]), inputs[|inputs| - 1])
  }

  /** The loop of `run`, for as long as inputs come. */
  method RunSink(cfg: Config, inputs: seq<Input>)
    returns (flushed: seq<seq<EventRow>>, buffer: seq<EventRow>, stopped: Option<Stop>)
    requires WellFormed(inputs)
    ensures State(flushed, buffer, stopped) == Run(cfg, inputs)
  {
    flushed, buffer, stopped := [], [], None;
    for i := 0 to |inputs|
      invariant State(flushed, buffer, stopped) == Run(cfg, inputs[..i])
    {
      assert inputs[..i + 1][..i] == inputs[..i];
      if stopped.None? {
        var due := false;
        match inputs[i] {
          case Received(batch, _) =>
            var rows := ProcessBatch(batch);
            if rows.Err? {
              stopped := Some(BadBatch);
            } else {
              buffer := buffer + rows.value;
              due := |buffer| >= cfg.batchSize;
            }
          case TimedOut(_) =>
            due := buffer != [];
        }
        if due {
          var r, _, _ := FlushBatch(IsTransientError, inputs[i].inserts, cfg.maxRetries);
          if r.Err? {
            stopped := Some(FlushFailed);
          } else {
            flushed := flushed + [buffer];
            buffer := [];
          }
        }
      }
    }
    assert inputs[..|inputs|] == inputs;
  }

  function Concat(batches: seq<seq<EventRow>>): seq<EventRow> {
    if batches == [] then [] else Concat(batches[..|batches| - 1]) + batches[|batches| - 1]
  }

  /** The rows of the readable batches received, in arrival order. */
  ghost function Arrived(inputs: seq<Input>): seq<EventRow>
    requires WellFormed(inputs)
  {
    if inputs == [] then []
    else
      var last := inputs[|inputs| - 1];
      Arrived(inputs[..|inputs| - 1]) + if last.Received? && Readable(last.batch) then RowsOf(last.batch) else []
  }

  /** The inputs the loop has taken rows from: all of them while it runs; up to the unreadable
      batch that stopped it; up to and including the input whose flush failed. */
  ghost predicate Took(cfg: Config, inputs: seq<Input>, taken: nat)
    requires WellFormed(inputs) && taken <= |inputs|
  {
    match Run(cfg, inputs).stopped
    case None => taken == |inputs|
    case Some(BadBatch) =>
      && Run(cfg, inputs[..taken]).stopped.None?
      && taken < |inputs| && Unreadable(inputs[taken])
    case Some(FlushFailed) =>
      && taken > 0 && Run(cfg, inputs[..taken - 1]).stopped.None?
      && Run(cfg, inputs[..taken]).stopped == Some(FlushFailed)
  }

  lemma TookStays(cfg: Config, inputs: seq<Input>, taken: nat)
    requires WellFormed(inputs) && inputs != [] && taken < |inputs|
    requires Run(cfg, inputs[..|inputs| - 1]).stopped.Some? && Took(cfg, inputs[..|inputs| - 1], taken)
    ensures Took(cfg, inputs, taken)
  {
    var before := inputs[..|inputs| - 1];
    assert inputs[..taken] == before[..taken];
    assert taken > 0 ==> inputs[..taken - 1] == before[..taken - 1];
  }

  lemma TookLast(cfg: Config, inputs: seq<Input>)
    requires WellFormed(inputs) && inputs != [] && Run(cfg, inputs[..|inputs| - 1]).stopped.None?
    ensures Took(cfg, inputs, if Run(cfg, inputs).stopped == Some(BadBatch) then |inputs| - 1 else |inputs|)
  {
    assert inputs[..|inputs|] == inputs;
  }

  /** Conservation: the flushed rows followed by the waiting ones are exactly the rows that have
      arrived, in order. A loop that has returned accounts in the same way for everything it
      took before it did. */
  lemma {:induction false} RowsAreConserved(cfg: Config, inputs: seq<Input>) returns (taken: nat)
    requires WellFormed(inputs) && Valid(cfg)
    ensures taken <= |inputs| && Took(cfg, inputs, taken)
    ensures Concat(Run(cfg, inputs).flushed) + Run(cfg, inputs).buffer == Arrived(inputs[..taken])
    decreases |inputs|
  {
    if inputs == [] {
      return 0;
    }
    var n := |inputs| - 1;
    taken := RowsAreConserved(cfg, inputs[..n]);
    assert inputs[..taken] == inputs[..n][..taken];
    if Run(cfg, inputs[..n]).stopped.Some? {
      TookStays(cfg, inputs, taken);
    } else {
      TookLast(cfg, inputs);
      assert inputs[..taken] == inputs[..n];
      if !Unreadable(inputs[n]) {
        StepConserves(cfg, Run(cfg, inputs[..n]), inputs[n]);
        taken := |inputs|;
        assert inputs[..taken] == inputs;
      }
    }
  }

  predicate Unreadable(input: Input) {
    input.Received? && !Readable(input.batch)
  }

  lemma StepConserves(cfg: Config, s: State, input: Input)
    requires s.stopped.None? && Valid(cfg)
    requires input.Received? ==> Rectangular(input.batch)
    requires !Unreadable(input)
    ensures var s' := Step(cfg, s, input);
            Concat(s'.flushed) + s'.buffer ==
              Concat(s.flushed) + s.buffer + if input.Received? then RowsOf(input.batch) else []
  {
    var rows := if input.Received? then s.buffer + RowsOf(input.batch) else s.buffer;
    ConcatAppends(s.flushed, rows);
  }

  lemma ConcatAppends(batches: seq<seq<EventRow>>, rows: seq<EventRow>)
    ensures Concat(batches + [rows]) == Concat(batches) + rows
  {
    assert (batches + [rows])[..|batches|] == batches;
  }

  /** What keeps the loop going: a timeout whose flush, if anything waits, succeeds; or a readable
      batch whose flush succeeds if it fills the buffer. */
  ghost predicate Served(cfg: Config, waiting: nat, input: Input) {
    match input
    case TimedOut(inserts) => waiting > 0 ==> Succeeds(IsTransientError, inserts, cfg.maxRetries)
    case Received(batch, inserts) =>
      && Readable(batch)
      && (waiting + batch.numRows >= cfg.batchSize ==> Succeeds(IsTransientError, inserts, cfg.maxRetries))
  }

  lemma StepServes(cfg: Config, s: State, input: Input)
    requires input.Received? ==> Rectangular(input.batch)
    ensures Step(cfg, s, input).stopped.None? <==> s.stopped.None? && Served(cfg, |s.buffer|, input)
  {
  }

  ghost predicate ServedAt(cfg: Config, inputs: seq<Input>, i: nat)
    requires WellFormed(inputs) && i < |inputs|
  {
    Served(cfg, |Run(cfg, inputs[..i]).buffer|, inputs[i])
  }

  lemma ServedBefore(cfg: Config, inputs: seq<Input>, n: nat, i: nat)
    requires WellFormed(inputs) && i < n <= |inputs|
    ensures ServedAt(cfg, inputs, i) <==> ServedAt(cfg, inputs[..n], i)
  {
    assert inputs[..n][..i] == inputs[..i];
  }

  /** The loop goes on exactly as long as every input is served. */
  lemma {:induction false} LoopRunsExactly(cfg: Config, inputs: seq<Input>)
    requires WellFormed(inputs)
    ensures Run(cfg, inputs).stopped.None? <==>
            forall i :: 0 <= i < |inputs| ==> ServedAt(cfg, inputs, i)
    decreases |inputs|
  {
    if inputs != [] {
      var n := |inputs| - 1;
      LoopRunsExactly(cfg, inputs[..n]);
      StepServes(cfg, Run(cfg, inputs[..n]), inputs[n]);
      forall i | 0 <= i < n
        ensures ServedAt(cfg, inputs, i) <==> ServedAt(cfg, inputs[..n], i)
      {
        ServedBefore(cfg, inputs, n, i);
      }
      assert Run(cfg, inputs).stopped.None? <==> Run(cfg, inputs[..n]).stopped.None? && ServedAt(cfg, inputs, n);
    }
  }

  /** No row waits longer than until the next timeout. */
  lemma TimeoutEmptiesBuffer(cfg: Config, inputs: seq<Input>)
    requires WellFormed(inputs) && inputs != [] && inputs[|inputs| - 1].TimedOut?
    ensures Run(cfg, inputs).stopped.None? ==> Run(cfg, inputs).buffer == []
  {
  }

  /** Only a timeout flushes fewer than batch_size rows. */
  lemma {:induction false} FlushesAreFull(cfg: Config, inputs: seq<Input>)
    requires WellFormed(inputs) && forall i :: 0 <= i < |inputs| ==> inputs[i].Received?
    ensures forall i :: 0 <= i < |Run(cfg, inputs).flushed| ==> |Run(cfg, inputs).flushed[i]| >= cfg.batchSize
    decreases |inputs|
  {
    if inputs != [] {
      FlushesAreFull(cfg, inputs[..|inputs| - 1]);
    }
  }

  /** At every head of the loop fewer than batch_size rows are waiting, and no flush was empty. */
  lemma {:induction false} BufferStaysShort(cfg: Config, inputs: seq<Input>)
    requires WellFormed(inputs) && Valid(cfg)
    ensures Run(cfg, inputs).stopped.None? ==> |Run(cfg, inputs).buffer| < cfg.batchSize
    ensures forall i :: 0 <= i < |Run(cfg, inputs).flushed| ==> Run(cfg, inputs).flushed[i] != []
    decreases |inputs|
  {
    if inputs != [] {
      BufferStaysShort(cfg, inputs[..|inputs| - 1]);
    }
  }
}
