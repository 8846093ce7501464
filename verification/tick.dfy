/** One purge tick: for every aggregation table, in the iteration order of the
    table map, build a delete request for rows older than the table's retention
    and hand it to the table; the first failure ends the tick.

    The recurring scheduling of ticks is not part of this model: the source
    keeps the scheduled handle in a static field shared by every aggregation,
    and both branches of its install routine schedule a new task, only one of
    them cancelling the previous one first. */
module Tick {
  import opened Wrappers
  import opened Durations
  import Policy

  /** One entry of the aggregation's table map: a granularity and the id of the
      table that holds it. */
  datatype TableEntry = TableEntry(granularity: Granularity, tableId: string)

  /** The timestamp attribute every aggregation table carries; it is the delete key. */
  const AggTimestamp: string := "AGG_TIMESTAMP"

  /** An attribute reference, optionally qualified by the stream or table it belongs to. */
  datatype Variable = Variable(streamId: Option<string>, attribute: string)

  datatype CompareOp = LessThan

  /** The delete predicate handed to the table's condition compiler.  Its
      right-hand side is the unqualified parameter attribute that each request
      binds to its cutoff. */
  datatype Condition = Compare(left: Variable, op: CompareOp, right: Variable)

  /** `table.AGG_TIMESTAMP < AGG_TIMESTAMP`, the left side bound to the table. */
  function OlderThanParameter(tableId: string): Condition
  {
    Compare(Variable(Some(tableId), AggTimestamp), LessThan, Variable(None, AggTimestamp))
  }

  /** A compile-and-delete request for one table. */
  datatype Request = Request(granularity: Granularity, tableId: string, cutoff: int, condition: Condition)

  /** Which collaborator call failed. */
  datatype Stage = CompileFailed | DeleteFailed

  /** What the table reports for one request. */
  datatype Outcome = Done | Failed(stage: Stage)

  /** The purge error raised by a tick, naming the table it failed on. */
  datatype PurgeError = PurgeError(tableId: string, stage: Stage)

  /** Every table's granularity has a retention. */
  predicate Covers(entries: seq<TableEntry>, retention: map<Granularity, Retention>)
  {
    forall i :: 0 <= i < |entries| ==> entries[i].granularity in retention
  }

  /** A request is the one the tick builds at time `now` for a table whose
      granularity keeps a finite window. */
  predicate RequestFor(r: Request, e: TableEntry, retention: map<Granularity, Retention>, now: int)
  {
    && r.granularity == e.granularity
    && r.tableId == e.tableId
    && e.granularity in retention
    && Purgeable(retention[e.granularity])
    && r.cutoff == now - retention[e.granularity].ms
    && r.condition.left == Variable(Some(e.tableId), AggTimestamp)
    && r.condition.op == LessThan
    && r.condition.right == Variable(None, AggTimestamp)
  }

  /** The requests a tick at `now` issues when nothing fails: one per table
      whose stored retention differs from the sentinel, in table order. */
  function Eligible(entries: seq<TableEntry>, retention: map<Granularity, Retention>, now: int)
    : (rs: seq<Request>)
    requires Covers(entries, retention)
    ensures |rs| <= |entries|
    decreases |entries|
  {
    if |entries| == 0 then []
    else
      var e := entries[0];
      var rest := Eligible(entries[1..], retention, now);
      if Purgeable(retention[e.granularity]) then
        var cutoff := now - retention[e.granularity].ms;
        [Request(e.granularity, e.tableId, cutoff, OlderThanParameter(e.tableId))] + rest
      else rest
  }

  /** The positions of the tables a failure-free tick builds a request for,
      in increasing order. */
  function Sources(entries: seq<TableEntry>, retention: map<Granularity, Retention>): seq<int>
    requires Covers(entries, retention)
  {
    SourcesFrom(entries, retention, 0)
  }

  /** `Sources` for a suffix of the tables that starts at position `base`. */
  function SourcesFrom(entries: seq<TableEntry>, retention: map<Granularity, Retention>, base: int): seq<int>
    requires Covers(entries, retention)
    decreases |entries|
  {
    if |entries| == 0 then []
    else
      var rest := SourcesFrom(entries[1..], retention, base + 1);
      if Purgeable(retention[entries[0].granularity]) then [base] + rest else rest
  }

  /** The k-th request of a failure-free tick is the one built for table
      `Sources[k]`, and those positions strictly increase: at most one request
      per table, in table order. */
  lemma EligibleSound(entries: seq<TableEntry>, retention: map<Granularity, Retention>, now: int)
    requires Covers(entries, retention)
    ensures var rs := Eligible(entries, retention, now);
      var idx := Sources(entries, retention);
      && |idx| == |rs|
      && (forall k :: 0 <= k < |rs| ==>
            0 <= idx[k] < |entries| && RequestFor(rs[k], entries[idx[k]], retention, now))
      && (forall k, l :: 0 <= k < l < |idx| ==> idx[k] < idx[l])
  {
    EligibleSoundFrom(entries, retention, now, 0);
  }

  /** Requests `rs` come from tables `entries`, which start at position `base`,
      at the strictly increasing positions `idx`. */
  predicate SoundFrom(rs: seq<Request>, idx: seq<int>, entries: seq<TableEntry>,
                      retention: map<Granularity, Retention>, now: int, base: int)
  {
    && |idx| == |rs|
    && (forall k :: 0 <= k < |rs| ==>
          base <= idx[k] < base + |entries| && RequestFor(rs[k], entries[idx[k] - base], retention, now))
    && (forall k, l :: 0 <= k < l < |idx| ==> idx[k] < idx[l])
  }

  /** `EligibleSound` for a suffix of the tables that starts at position `base`. */
  lemma {:induction false} EligibleSoundFrom(entries: seq<TableEntry>, retention: map<Granularity, Retention>,
                                             now: int, base: int)
    requires Covers(entries, retention)
    ensures SoundFrom(Eligible(entries, retention, now), SourcesFrom(entries, retention, base),
                      entries, retention, now, base)
    decreases |entries|
  {
    if |entries| > 0 {
      var e := entries[0];
      var rest := Eligible(entries[1..], retention, now);
      var restIdx := SourcesFrom(entries[1..], retention, base + 1);
      assert Covers(entries[1..], retention);
      EligibleSoundFrom(entries[1..], retention, now, base + 1);
      if Purgeable(retention[e.granularity]) {
        var r := Request(e.granularity, e.tableId, now - retention[e.granularity].ms, OlderThanParameter(e.tableId));
        ConsSound(entries, retention, now, base, r, rest, restIdx);
      } else {
        SkipSound(entries, retention, now, base, rest, restIdx);
      }
    }
  }

  /** The step of `EligibleSoundFrom` when the first table gets no request. */
  lemma SkipSound(entries: seq<TableEntry>, retention: map<Granularity, Retention>, now: int, base: int,
                  rest: seq<Request>, restIdx: seq<int>)
    requires Covers(entries, retention) && |entries| > 0
    requires SoundFrom(rest, restIdx, entries[1..], retention, now, base + 1)
    ensures SoundFrom(rest, restIdx, entries, retention, now, base)
  {
  }

  /** The step of `EligibleSoundFrom` when the first table gets request `r`. */
  lemma ConsSound(entries: seq<TableEntry>, retention: map<Granularity, Retention>, now: int, base: int,
                  r: Request, rest: seq<Request>, restIdx: seq<int>)
    requires Covers(entries, retention) && |entries| > 0
    requires Purgeable(retention[entries[0].granularity])
    requires r == Request(entries[0].granularity, entries[0].tableId,
                          now - retention[entries[0].granularity].ms, OlderThanParameter(entries[0].tableId))
    requires SoundFrom(rest, restIdx, entries[1..], retention, now, base + 1)
    ensures SoundFrom([r] + rest, [base] + restIdx, entries, retention, now, base)
  {
  }

  /** The requests of a concatenation are the requests of its parts, in order. */
  lemma {:induction false} EligibleAppend(a: seq<TableEntry>, b: seq<TableEntry>,
                                          retention: map<Granularity, Retention>, now: int)
    requires Covers(a, retention) && Covers(b, retention)
    ensures Covers(a + b, retention)
    ensures Eligible(a + b, retention, now) == Eligible(a, retention, now) + Eligible(b, retention, now)
    decreases |a|
  {
    if |a| > 0 {
      assert (a + b)[0] == a[0];
      assert (a + b)[1..] == a[1..] + b;
      EligibleAppend(a[1..], b, retention, now);
    } else {
      assert a + b == b;
    }
  }

  /** Every table whose retention keeps a finite window gets its request. */
  lemma {:induction false} EligibleComplete(entries: seq<TableEntry>, retention: map<Granularity, Retention>,
                                            now: int, i: int)
    requires Covers(entries, retention)
    requires 0 <= i < |entries| && Purgeable(retention[entries[i].granularity])
    ensures exists k ::
      && 0 <= k < |Eligible(entries, retention, now)|
      && RequestFor(Eligible(entries, retention, now)[k], entries[i], retention, now)
    decreases |entries|
  {
    var rs := Eligible(entries, retention, now);
    var rest := Eligible(entries[1..], retention, now);
    var off := if Purgeable(retention[entries[0].granularity]) then 1 else 0;
    assert |rs| == |rest| + off && rs[off..] == rest;
    if i == 0 {
      assert RequestFor(rs[0], entries[0], retention, now);
    } else {
      assert entries[1..][i - 1] == entries[i];
      EligibleComplete(entries[1..], retention, now, i - 1);
      var k :| 0 <= k < |rest| && RequestFor(rest[k], entries[1..][i - 1], retention, now);
      assert rs[k + off] == rest[k];
    }
  }

  /** No request is ever built for a granularity retained in full, nor for
      one whose stored retention is the sentinel value -1 ms. */
  lemma EligibleSkipsRetainAll(entries: seq<TableEntry>, retention: map<Granularity, Retention>, now: int,
                               k: int)
    requires Covers(entries, retention)
    requires 0 <= k < |Eligible(entries, retention, now)|
    ensures var r := Eligible(entries, retention, now)[k];
      && r.granularity in retention
      && retention[r.granularity] != RetainAll
      && retention[r.granularity] != Keep(RetainAllSentinel)
      && r.cutoff == now - retention[r.granularity].ms
  {
    EligibleSound(entries, retention, now);
    var rs := Eligible(entries, retention, now);
    assert RequestFor(rs[k], entries[Sources(entries, retention)[k]], retention, now);
  }

  /** One tick at time `now`.  `outcome` stands for the table's condition
      compiler and delete call.  Returns the requests attempted, in order, and
      the purge error if one was raised. */
  method Run(entries: seq<TableEntry>, retention: map<Granularity, Retention>, now: int,
             outcome: Request -> Outcome)
    returns (attempted: seq<Request>, error: Option<PurgeError>)
    requires Covers(entries, retention)
    ensures |attempted| <= |Eligible(entries, retention, now)|
    ensures attempted == Eligible(entries, retention, now)[..|attempted|]
    ensures error.None? <==>
      attempted == Eligible(entries, retention, now)
      && forall k :: 0 <= k < |attempted| ==> outcome(attempted[k]) == Done
    ensures error.Some? ==>
      && |attempted| > 0
      && outcome(attempted[|attempted| - 1]) == Failed(error.value.stage)
      && error.value.tableId == attempted[|attempted| - 1].tableId
    ensures forall k :: 0 <= k < |attempted| - 1 ==> outcome(attempted[k]) == Done
  {
    attempted := [];
    error := None;
    ghost var all := Eligible(entries, retention, now);
    var i := 0;
    while i < |entries|
      invariant 0 <= i <= |entries|
      invariant attempted == Eligible(entries[..i], retention, now)
      invariant forall k :: 0 <= k < |attempted| ==> outcome(attempted[k]) == Done
    {
      var e := entries[i];
      EligibleStep(entries, retention, now, i);
      if Purgeable(retention[e.granularity]) {
        var cutoff := now - retention[e.granularity].ms;
        var request := Request(e.granularity, e.tableId, cutoff, OlderThanParameter(e.tableId));
        attempted := attempted + [request];
        match outcome(request)
        case Failed(stage) =>
          error := Some(PurgeError(e.tableId, stage));
          assert attempted[|attempted| - 1] == request;
          assert all[..|attempted|] == attempted;
          return;
        case Done =>
      }
      i := i + 1;
    }
    assert entries[..i] == entries;
  }

  /** One step of the tick loop: the requests of the first `i + 1` tables
      extend those of the first `i` by the request of table `i`, if any, and
      are a prefix of the requests of all tables. */
  lemma EligibleStep(entries: seq<TableEntry>, retention: map<Granularity, Retention>, now: int, i: int)
    requires Covers(entries, retention)
    requires 0 <= i < |entries|
    ensures var e := entries[i];
      Eligible(entries[..i + 1], retention, now) == Eligible(entries[..i], retention, now) +
        if Purgeable(retention[e.granularity])
        then [Request(e.granularity, e.tableId, now - retention[e.granularity].ms, OlderThanParameter(e.tableId))]
        else []
    ensures var pre := Eligible(entries[..i + 1], retention, now);
      |pre| <= |Eligible(entries, retention, now)| && Eligible(entries, retention, now)[..|pre|] == pre
  {
    var e := entries[i];
    EligibleAppend(entries[..i], [e], retention, now);
    assert entries[..i + 1] == entries[..i] + [e];
    EligibleAppend(entries[..i + 1], entries[i + 1..], retention, now);
    assert entries[..i + 1] + entries[i + 1..] == entries;
    assert [e][1..] == [];
  }

  /** The tick of the one-minute, seven-day configuration: seconds rows older
      than 30 s and hours rows older than seven days go, in table order. */
  lemma SevenDayTick(now: int)
    ensures var retention := map[Seconds := Keep(30_000), Hours := Keep(604_800_000)];
      Eligible([TableEntry(Seconds, "sec"), TableEntry(Hours, "hrs")], retention, now)
        == [Request(Seconds, "sec", now - 30_000, OlderThanParameter("sec")),
            Request(Hours, "hrs", now - 604_800_000, OlderThanParameter("hrs"))]
  {
  }

  /** The cutoffs of a list of requests, in order. */
  function Cutoffs(rs: seq<Request>): seq<int>
  {
    seq(|rs|, k requires 0 <= k < |rs| => rs[k].cutoff)
  }

  /** Whether a delete whose parameter batch is `batch` removes a row stamped
      `ts`: the table removes every row the condition matches for some
      parameter row, so the row goes when it is older than some cutoff. */
  predicate Deletes(batch: seq<int>, ts: int)
  {
    exists j :: 0 <= j < |batch| && ts < batch[j]
  }

  /** The parameter rows one tick leaves in the chunk.  Each row is made from
      the one cutoff array the tick reuses; when the row keeps a copy of it
      (`copied`) it holds its own request's cutoff, and when it keeps the array
      itself every row of the tick reads the last cutoff written. */
  function RowsLeft(attempted: seq<Request>, copied: bool): seq<int>
  {
    if copied || |attempted| == 0 then Cutoffs(attempted)
    else seq(|attempted|, _ => attempted[|attempted| - 1].cutoff)
  }

  /** The parameter batch the k-th delete of a tick receives when, as written,
      every request appends its row to one chunk that is never cleared: the
      rows `carried` over from earlier ticks, then this tick's rows up to and
      including the k-th, read at the time of that delete. */
  function BatchAsWritten(carried: seq<int>, attempted: seq<Request>, k: int, copied: bool): seq<int>
    requires 0 <= k < |attempted|
  {
    carried + (if copied then Cutoffs(attempted[..k + 1]) else seq(k + 1, _ => attempted[k].cutoff))
  }

  /** The batch a request should carry: its own cutoff alone. */
  function Batch(r: Request): seq<int>
  {
    [r.cutoff]
  }

  /** With the shared chunk, two ticks 15 minutes apart over a minutes table
      and then a seconds table with default retention: the minutes delete of
      the second tick still carries the first tick's seconds cutoff, so a
      one-minute-old minutes row is removed although the minutes retention is
      24 hours.  This holds whether or not the rows copy the cutoff array. */
  lemma SharedBatchOverPurges(copied: bool)
    ensures var entries := [TableEntry(Minutes, "min"), TableEntry(Seconds, "sec")];
      var retention := Policy.Defaults({Seconds, Minutes});
      var now1 := 1_000_000_000_000;
      var now2 := now1 + 900_000;
      var first := Eligible(entries, retention, now1);
      var second := Eligible(entries, retention, now2);
      && |second| == 2
      && second[0].tableId == "min"
      && Deletes(BatchAsWritten(RowsLeft(first, copied), second, 0, copied), now1 - 60_000)
      && !(now1 - 60_000 < now2 - retention[Minutes].ms)
  {
    var entries := [TableEntry(Minutes, "min"), TableEntry(Seconds, "sec")];
    var retention := Policy.Defaults({Seconds, Minutes});
    var now1 := 1_000_000_000_000;
    var now2 := now1 + 900_000;
    assert retention == map[Seconds := Keep(30_000), Minutes := Keep(86_400_000)];
    assert entries[1..][1..] == [];
    var first := Eligible(entries, retention, now1);
    var second := Eligible(entries, retention, now2);
    assert first == [Request(Minutes, "min", now1 - 86_400_000, OlderThanParameter("min")),
                     Request(Seconds, "sec", now1 - 30_000, OlderThanParameter("sec"))];
    assert second == [Request(Minutes, "min", now2 - 86_400_000, OlderThanParameter("min")),
                      Request(Seconds, "sec", now2 - 30_000, OlderThanParameter("sec"))];
    assert RowsLeft(first, copied)[1] == now1 - 30_000;
    assert BatchAsWritten(RowsLeft(first, copied), second, 0, copied)[1] == now1 - 30_000;
  }

  /** With a fresh batch per request, a delete removes exactly the rows of its
      table that are older than that table's own retention at tick time. */
  lemma FreshBatchDeletesOnlyExpired(entries: seq<TableEntry>, retention: map<Granularity, Retention>,
                                     now: int, k: int, ts: int)
    requires Covers(entries, retention)
    requires 0 <= k < |Eligible(entries, retention, now)|
    ensures var r := Eligible(entries, retention, now)[k];
      && r.granularity in retention
      && retention[r.granularity].Keep?
      && (Deletes(Batch(r), ts) <==> ts < now - retention[r.granularity].ms)
  {
    EligibleSkipsRetainAll(entries, retention, now, k);
    var r := Eligible(entries, retention, now)[k];
    assert Batch(r)[0] == r.cutoff;
  }

  /** A retention element that parses to -1 ms is stored as the sentinel, so
      the tick skips its table just as it skips a table kept in full. */
  lemma MinusOneRetentionSkipped(timeToLong: string -> int, now: int)
    requires timeToLong("x") == -1
    ensures var r := Policy.Init({Hours},
                                 Some(Policy.PurgeAnnotation(None, None,
                                   [Policy.RetentionAnnotation([Policy.Element(Hours, "x")])])),
                                 timeToLong);
      && r.Success?
      && r.value.retention == map[Hours := Keep(-1)]
      && Eligible([TableEntry(Hours, "hrs")], r.value.retention, now) == []
  {
  }
}
