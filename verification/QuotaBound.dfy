/**
  What the minute buckets really bound: the ledger of everything recorded for a
  workspace, over any run of calls and with both clock readings of each call.
 */
module QuotaBound {
  import opened Quota

  /** Calls on the quota.  With no byte cap BytesLeft returns before pruning: such runs are those without it. */
  datatype Op =
    | Admit(ws: string, read: int, add: int)
    | RecordBytes(ws: string, read: int, add: int, bytes: int)
    | BytesLeft(ws: string, read: int)

  /** The last clock reading of a call. */
  function End(op: Op): int {
    if op.BytesLeft? then op.read else op.add
  }

  /** Limits with counting switched on; a window of no length would forget everything at once. */
  datatype Limits = Limits(window: int, maxRequests: int)

  predicate ValidLimits(q: Limits) {
    q.window > 0 && q.maxRequests > 0
  }

  /** One record: when its call pruned, when it was made and the start of the bucket it went into. */
  datatype Entry = Entry(read: int, time: int, bucket: int, requests: int, bytes: int)

  /** One workspace's buckets, and everything ever recorded for it. */
  datatype Ledger = Ledger(buckets: seq<Bucket>, log: seq<Entry>)

  function Recorded(live: seq<Bucket>, log: seq<Entry>, read: int, add: int, requests: int, bytes: int): Ledger {
    Ledger(Added(live, add, requests, bytes), log + [Entry(read, add, StartFor(live, add), requests, bytes)])
  }

  function Call(l: Ledger, op: Op, q: Limits): Ledger {
    OnLive(Ledger(Live(l.buckets, op.read - q.window), l.log), op, q)
  }

  /** The rest of a call, once expired buckets are pruned. */
  function OnLive(l: Ledger, op: Op, q: Limits): Ledger {
    match op
    case Admit(_, read, add) =>
      if Requests(l.buckets) < q.maxRequests then Recorded(l.buckets, l.log, read, add, 1, 0) else l
    case RecordBytes(_, read, add, n) => Recorded(l.buckets, l.log, read, add, 0, n)
    case BytesLeft(_, _) => l
  }

  /** The ledger of one workspace; calls for other workspaces do not touch it. */
  function LedgerOf(ops: seq<Op>, ws: string, q: Limits): Ledger {
    if ops == [] then Ledger([], [])
    else
      var l := LedgerOf(ops[..|ops|-1], ws, q);
      if ops[|ops|-1].ws == ws then Call(l, ops[|ops|-1], q) else l
  }

  /** The clock never goes back, within a call or from one call to the next. */
  ghost predicate Timed(ops: seq<Op>) {
    && (forall i :: 0 <= i < |ops| ==> ops[i].read <= End(ops[i]))
    && (forall i, j :: 0 <= i < j < |ops| ==> End(ops[i]) <= ops[j].read)
  }

  // ---- the log on its own ----

  /** Requests recorded into buckets that started after `cutoff`. */
  function RequestsSince(log: seq<Entry>, cutoff: int): int {
    if log == [] then 0
    else
      var n := |log| - 1;
      RequestsSince(log[..n], cutoff) + if log[n].bucket > cutoff then log[n].requests else 0
  }

  function BytesSince(log: seq<Entry>, cutoff: int): int {
    if log == [] then 0
    else
      var n := |log| - 1;
      BytesSince(log[..n], cutoff) + if log[n].bucket > cutoff then log[n].bytes else 0
  }

  /** Requests admitted in the half-open interval from `from` to `to`. */
  function Admitted(log: seq<Entry>, from: int, to: int): int {
    if log == [] then 0
    else
      var n := |log| - 1;
      Admitted(log[..n], from, to) + if from <= log[n].time < to then log[n].requests else 0
  }

  /** The buckets rebuilt from the part of the log after `cutoff`. */
  function Rebuilt(log: seq<Entry>, cutoff: int): seq<Bucket> {
    if log == [] then []
    else
      var n := |log| - 1;
      var bs := Rebuilt(log[..n], cutoff);
      if log[n].bucket > cutoff then Put(bs, log[n]) else bs
  }

  function Put(bs: seq<Bucket>, e: Entry): seq<Bucket> {
    if bs != [] && bs[|bs|-1].start == e.bucket then
      var b := bs[|bs|-1];
      bs[|bs|-1 := Bucket(b.start, b.requests + e.requests, b.bytes + e.bytes)]
    else bs + [Bucket(e.bucket, e.requests, e.bytes)]
  }

  ghost predicate EntryOk(log: seq<Entry>, i: nat, q: Limits)
    requires i < |log|
  {
    var e := log[i];
    && e.bucket <= e.time < e.bucket + MINUTE
    && e.read <= e.time && e.bucket > e.read - q.window
    && 0 <= e.requests <= 1
    && (e.requests == 1 ==> RequestsSince(log[..i], e.read - q.window) < q.maxRequests)
  }

  /** Times and buckets only move forward, and a bucket opens when the one before has had its last record. */
  ghost predicate PairOk(a: Entry, b: Entry) {
    && a.time <= b.read && a.bucket <= b.bucket
    && (a.bucket < b.bucket ==> a.time <= b.bucket)
  }

  ghost predicate LogOk(log: seq<Entry>, q: Limits) {
    && (forall i :: 0 <= i < |log| ==> EntryOk(log, i, q))
    && (forall i, j :: 0 <= i < j < |log| ==> PairOk(log[i], log[j]))
  }

  /** The buckets are the log restricted to those live when the last call pruned. */
  ghost predicate LedgerOk(l: Ledger, read: int, last: int, q: Limits) {
    && LogOk(l.log, q)
    && read <= last && (forall i :: 0 <= i < |l.log| ==> l.log[i].time <= last)
    && l.buckets == Rebuilt(l.log, read - q.window)
  }

  lemma TotalsLast(bs: seq<Bucket>, b: Bucket)
    ensures Requests(bs + [b]) == Requests(bs) + b.requests && Bytes(bs + [b]) == Bytes(bs) + b.bytes
  {
    assert (bs + [b])[..|bs|] == bs;
  }

  lemma PutTotals(bs: seq<Bucket>, e: Entry)
    ensures Requests(Put(bs, e)) == Requests(bs) + e.requests && Bytes(Put(bs, e)) == Bytes(bs) + e.bytes
  {
    if bs != [] && bs[|bs|-1].start == e.bucket {
      var front, b := bs[..|bs|-1], bs[|bs|-1];
      SplitLast(bs);
      PutLast(front, b, e);
      TotalsLast(front, b);
      TotalsLast(front, Bucket(e.bucket, b.requests + e.requests, b.bytes + e.bytes));
    } else {
      TotalsLast(bs, Bucket(e.bucket, e.requests, e.bytes));
    }
  }

  lemma {:induction false} RebuiltTotals(log: seq<Entry>, cutoff: int)
    ensures Requests(Rebuilt(log, cutoff)) == RequestsSince(log, cutoff)
    ensures Bytes(Rebuilt(log, cutoff)) == BytesSince(log, cutoff)
  {
    if log == [] {
    } else {
      var n := |log| - 1;
      RebuiltTotals(log[..n], cutoff);
      PutTotals(Rebuilt(log[..n], cutoff), log[n]);
    }
  }

  /** The last rebuilt bucket is the last live entry's. */
  lemma {:induction false} LastRebuilt(log: seq<Entry>, cutoff: int)
    requires forall i, j :: 0 <= i < j < |log| ==> log[i].bucket <= log[j].bucket
    ensures var bs := Rebuilt(log, cutoff);
            bs != [] ==> log != [] && bs[|bs|-1].start == log[|log|-1].bucket && log[|log|-1].bucket > cutoff
    ensures Rebuilt(log, cutoff) == [] && log != [] ==> log[|log|-1].bucket <= cutoff
  {
    if log == [] {
    } else {
      var n := |log| - 1;
      LastRebuilt(log[..n], cutoff);
      if Rebuilt(log[..n], cutoff) != [] {
        assert log[n-1].bucket <= log[n].bucket;
      }
    }
  }

  lemma LiveLast(bs: seq<Bucket>, b: Bucket, cutoff: int)
    ensures Live(bs + [b], cutoff) == if b.start > cutoff then Live(bs, cutoff) + [b] else Live(bs, cutoff)
  {
    assert (bs + [b])[..|bs|] == bs;
  }

  lemma SplitLast(bs: seq<Bucket>)
    requires bs != []
    ensures bs == bs[..|bs|-1] + [bs[|bs|-1]]
  {
  }

  lemma PutLast(bs: seq<Bucket>, b: Bucket, e: Entry)
    requires b.start == e.bucket
    ensures Put(bs + [b], e) == bs + [Bucket(e.bucket, b.requests + e.requests, b.bytes + e.bytes)]
  {
  }

  lemma LiveMerge(bs: seq<Bucket>, b: Bucket, e: Entry, cutoff: int)
    requires b.start == e.bucket
    ensures Live(Put(bs + [b], e), cutoff) == if e.bucket > cutoff then Put(Live(bs + [b], cutoff), e) else Live(bs + [b], cutoff)
  {
    PutLast(bs, b, e);
    LiveLast(bs, b, cutoff);
    LiveLast(bs, Bucket(e.bucket, b.requests + e.requests, b.bytes + e.bytes), cutoff);
    PutLast(Live(bs, cutoff), b, e);
  }

  lemma LiveAppend(bs: seq<Bucket>, e: Entry, cutoff: int)
    requires Put(bs, e) == bs + [Bucket(e.bucket, e.requests, e.bytes)]
    requires var ls := Live(bs, cutoff); ls == [] || ls[|ls|-1].start != e.bucket
    ensures Live(Put(bs, e), cutoff) == if e.bucket > cutoff then Put(Live(bs, cutoff), e) else Live(bs, cutoff)
  {
    LiveLast(bs, Bucket(e.bucket, e.requests, e.bytes), cutoff);
  }

  /** Pruning rebuilt buckets is rebuilding with a later cutoff. */
  lemma {:induction false} PruneRebuilt(log: seq<Entry>, cutoff: int, later: int)
    requires cutoff <= later
    requires forall i, j :: 0 <= i < j < |log| ==> log[i].bucket <= log[j].bucket
    ensures Live(Rebuilt(log, cutoff), later) == Rebuilt(log, later)
  {
    if log == [] {
    } else {
      var n := |log| - 1;
      PruneRebuilt(log[..n], cutoff, later);
      LastRebuilt(log[..n], cutoff);
      LastRebuilt(log[..n], later);
      if log[n].bucket > cutoff {
        PruneOne(Rebuilt(log[..n], cutoff), log[n], later);
      }
    }
  }

  /** Pruning after one more record is pruning before it, and dropping the record with its bucket. */
  lemma PruneOne(bs: seq<Bucket>, e: Entry, later: int)
    requires var ls := Live(bs, later);
             ls != [] && ls[|ls|-1].start == e.bucket ==> bs != [] && bs[|bs|-1].start == e.bucket
    ensures Live(Put(bs, e), later) == if e.bucket > later then Put(Live(bs, later), e) else Live(bs, later)
  {
    if bs != [] && bs[|bs|-1].start == e.bucket {
      SplitLast(bs);
      LiveMerge(bs[..|bs|-1], bs[|bs|-1], e, later);
    } else {
      LiveAppend(bs, e, later);
    }
  }

  // ---- every call keeps the ledger ----

  lemma BucketsInOrder(log: seq<Entry>, q: Limits)
    requires LogOk(log, q)
    ensures forall i, j :: 0 <= i < j < |log| ==> log[i].bucket <= log[j].bucket
  {
    forall i, j | 0 <= i < j < |log| ensures log[i].bucket <= log[j].bucket {
      assert PairOk(log[i], log[j]);
    }
  }

  lemma PrunedLedger(l: Ledger, before: int, last: int, read: int, q: Limits)
    requires LedgerOk(l, before, last, q) && last <= read
    ensures LedgerOk(Ledger(Live(l.buckets, read - q.window), l.log), read, read, q)
  {
    PrunedBuckets(l.log, before - q.window, read - q.window, q);
  }

  lemma PrunedBuckets(log: seq<Entry>, cutoff: int, later: int, q: Limits)
    requires LogOk(log, q) && cutoff <= later
    ensures Live(Rebuilt(log, cutoff), later) == Rebuilt(log, later)
  {
    BucketsInOrder(log, q);
    PruneRebuilt(log, cutoff, later);
  }

  /** The bucket a new record goes into never lies before an older record's. */
  lemma NewestBucket(l: Ledger, read: int, add: int, q: Limits)
    requires LedgerOk(l, read, read, q) && read <= add && q.window > 0
    ensures var start := StartFor(l.buckets, add);
            && start <= add < start + MINUTE && start > read - q.window
            && (start == add || (l.log != [] && start == l.log[|l.log|-1].bucket))
  {
    BucketsInOrder(l.log, q);
    LastRebuilt(l.log, read - q.window);
    if l.log != [] {
      assert EntryOk(l.log, |l.log| - 1, q);
    }
  }

  lemma RecordedEntry(log: seq<Entry>, e: Entry, q: Limits)
    requires LogOk(log, q)
    requires e.bucket <= e.time < e.bucket + MINUTE && e.read <= e.time && e.bucket > e.read - q.window
    requires 0 <= e.requests <= 1
    requires e.requests == 1 ==> RequestsSince(log, e.read - q.window) < q.maxRequests
    requires forall i :: 0 <= i < |log| ==> PairOk(log[i], e)
    ensures LogOk(log + [e], q)
  {
    var n := |log|;
    var log' := log + [e];
    forall i | 0 <= i < |log'| ensures EntryOk(log', i, q) {
      assert log'[..i] == log[..i];
      if i < n {
        assert EntryOk(log, i, q);
      } else {
        assert log[..i] == log;
      }
    }
    forall i, j | 0 <= i < j < |log'| ensures PairOk(log'[i], log'[j]) {
      if j < n { assert PairOk(log[i], log[j]); }
    }
  }

  lemma RecordedLog(l: Ledger, read: int, add: int, requests: int, bytes: int, q: Limits)
    requires LedgerOk(l, read, read, q) && read <= add && q.window > 0 && 0 <= requests <= 1
    requires requests == 1 ==> Requests(l.buckets) < q.maxRequests
    ensures LogOk(Recorded(l.buckets, l.log, read, add, requests, bytes).log, q)
  {
    NewestBucket(l, read, add, q);
    RebuiltTotals(l.log, read - q.window);
    var e := Entry(read, add, StartFor(l.buckets, add), requests, bytes);
    var n := |l.log|;
    forall i | 0 <= i < n ensures PairOk(l.log[i], e) {
      assert EntryOk(l.log, i, q);
      if i < n - 1 { assert PairOk(l.log[i], l.log[n-1]); }
    }
    RecordedEntry(l.log, e, q);
  }

  lemma RecordedLedger(l: Ledger, read: int, add: int, requests: int, bytes: int, q: Limits)
    requires LedgerOk(l, read, read, q) && read <= add && q.window > 0 && 0 <= requests <= 1
    requires requests == 1 ==> Requests(l.buckets) < q.maxRequests
    ensures LedgerOk(Recorded(l.buckets, l.log, read, add, requests, bytes), read, add, q)
  {
    RecordedLog(l, read, add, requests, bytes, q);
    NewestBucket(l, read, add, q);
    var e := Entry(read, add, StartFor(l.buckets, add), requests, bytes);
    assert (l.log + [e])[..|l.log|] == l.log;
    BucketsInOrder(l.log, q);
    LastRebuilt(l.log, read - q.window);
    assert Put(l.buckets, e) == Added(l.buckets, add, requests, bytes);
  }

  /** Live buckets stay the recorded history restricted to live buckets. */
  lemma CallKeepsLedger(l: Ledger, before: int, last: int, op: Op, q: Limits)
    requires ValidLimits(q) && LedgerOk(l, before, last, q) && last <= op.read <= End(op)
    ensures LedgerOk(Call(l, op, q), op.read, End(op), q)
  {
    PrunedLedger(l, before, last, op.read, q);
    OnLiveKeeps(Ledger(Live(l.buckets, op.read - q.window), l.log), op, q);
  }

  lemma OnLiveKeeps(l: Ledger, op: Op, q: Limits)
    requires ValidLimits(q) && LedgerOk(l, op.read, op.read, q) && op.read <= End(op)
    ensures LedgerOk(OnLive(l, op, q), op.read, End(op), q)
  {
    if op.Admit? && Requests(l.buckets) < q.maxRequests {
      RecordedLedger(l, op.read, op.add, 1, 0, q);
    } else if op.RecordBytes? {
      RecordedLedger(l, op.read, op.add, 0, op.bytes, q);
    }
  }

  /** The same after a whole run, for the clock readings of the workspace's last call. */
  lemma {:induction false} RunKeepsLedger(ops: seq<Op>, ws: string, q: Limits) returns (read: int, last: int)
    requires Timed(ops) && ValidLimits(q)
    ensures LedgerOk(LedgerOf(ops, ws, q), read, last, q)
    ensures LedgerOf(ops, ws, q) != Ledger([], []) ==> ops != [] && last <= End(ops[|ops|-1])
  {
    if ops == [] {
      return 0, 0;
    }
    var n := |ops| - 1;
    read, last := RunKeepsLedger(ops[..n], ws, q);
    var l := LedgerOf(ops[..n], ws, q);
    if n > 0 { assert End(ops[n-1]) <= ops[n].read; }
    if ops[n].ws == ws {
      if l == Ledger([], []) {
        CallKeepsLedger(l, ops[n].read, ops[n].read, ops[n], q);
      } else {
        CallKeepsLedger(l, read, last, ops[n], q);
      }
      read, last := ops[n].read, End(ops[n]);
    }
  }

  // ---- the bounds ----

  lemma {:induction false} AdmittedIsRecent(log: seq<Entry>, from: int, to: int, cutoff: int, q: Limits)
    requires forall i :: 0 <= i < |log| ==> log[i].requests >= 0
    requires forall i :: 0 <= i < |log| && from <= log[i].time < to ==> log[i].bucket > cutoff
    ensures Admitted(log, from, to) <= RequestsSince(log, cutoff)
  {
    if log == [] {
    } else {
      var n := |log| - 1;
      AdmittedIsRecent(log[..n], from, to, cutoff, q);
    }
  }

  /** Requests in the interval that went into buckets opened inside it. */
  function AdmittedInside(log: seq<Entry>, from: int, to: int): int {
    if log == [] then 0
    else
      var n := |log| - 1;
      AdmittedInside(log[..n], from, to)
      + if from <= log[n].time < to && from <= log[n].bucket then log[n].requests else 0
  }

  /** Requests in the interval that went into a bucket opened before it. */
  function AdmittedAcross(log: seq<Entry>, from: int, to: int): int {
    if log == [] then 0
    else
      var n := |log| - 1;
      AdmittedAcross(log[..n], from, to)
      + if from <= log[n].time < to && log[n].bucket < from then log[n].requests else 0
  }

  lemma {:induction false} AdmittedSplits(log: seq<Entry>, from: int, to: int)
    ensures Admitted(log, from, to) == AdmittedInside(log, from, to) + AdmittedAcross(log, from, to)
  {
    if log == [] {
    } else {
      AdmittedSplits(log[..|log|-1], from, to);
    }
  }

  lemma PrefixOk(log: seq<Entry>, n: nat, q: Limits)
    requires LogOk(log, q) && n <= |log|
    ensures LogOk(log[..n], q)
  {
    forall i | 0 <= i < n ensures EntryOk(log[..n], i, q) {
      assert EntryOk(log, i, q);
      assert log[..n][..i] == log[..i];
    }
    forall i, j | 0 <= i < j < n ensures PairOk(log[..n][i], log[..n][j]) {
      assert PairOk(log[i], log[j]);
    }
  }

  /** No record is made `slack` or longer after its bucket opened. */
  predicate Slack(log: seq<Entry>, slack: int) {
    forall i :: 0 <= i < |log| ==> log[i].bucket > log[i].time - slack
  }

  /** No more than the cap in any interval whose length leaves room for the slack in the window. */
  lemma {:induction false} ShortIntervalBound(log: seq<Entry>, from: int, length: int, slack: int, q: Limits)
    requires LogOk(log, q) && ValidLimits(q) && Slack(log, slack) && length <= q.window - slack + 1
    ensures Admitted(log, from, from + length) <= q.maxRequests
  {
    if log == [] {
    } else {
      var n := |log| - 1;
      PrefixOk(log, n, q);
      ShortIntervalBound(log[..n], from, length, slack, q);
      var e := log[n];
      assert EntryOk(log, n, q);
      if from <= e.time < from + length && e.requests == 1 {
        forall i | 0 <= i < n ensures log[..n][i].requests >= 0 && (from <= log[..n][i].time ==> log[..n][i].bucket > e.read - q.window) {
          assert EntryOk(log, i, q);
        }
        AdmittedIsRecent(log[..n], from, from + length, e.read - q.window, q);
      }
    }
  }

  lemma {:induction false} InsideIsRecent(log: seq<Entry>, from: int, to: int, cutoff: int)
    requires forall i :: 0 <= i < |log| ==> log[i].requests >= 0
    requires cutoff < from
    ensures AdmittedInside(log, from, to) <= RequestsSince(log, cutoff)
  {
    if log == [] {
    } else {
      InsideIsRecent(log[..|log|-1], from, to, cutoff);
    }
  }

  lemma {:induction false} InsideBound(log: seq<Entry>, from: int, q: Limits)
    requires LogOk(log, q) && ValidLimits(q)
    ensures AdmittedInside(log, from, from + q.window) <= q.maxRequests
  {
    if log == [] {
    } else {
      var n := |log| - 1;
      PrefixOk(log, n, q);
      InsideBound(log[..n], from, q);
      var e := log[n];
      assert EntryOk(log, n, q);
      if from <= e.time < from + q.window && e.requests == 1 {
        forall i | 0 <= i < n ensures log[..n][i].requests >= 0 {
          assert EntryOk(log, i, q);
        }
        InsideIsRecent(log[..n], from, from + q.window, e.read - q.window);
      }
    }
  }

  lemma {:induction false} AcrossIsRecent(log: seq<Entry>, from: int, to: int, cutoff: int)
    requires forall i :: 0 <= i < |log| ==> log[i].requests >= 0
    requires forall i :: 0 <= i < |log| && from <= log[i].time && log[i].bucket < from ==> log[i].bucket > cutoff
    ensures AdmittedAcross(log, from, to) <= RequestsSince(log, cutoff)
  {
    if log == [] {
    } else {
      AcrossIsRecent(log[..|log|-1], from, to, cutoff);
    }
  }

  /** Only one bucket can straddle the start of an interval, and it never held more than the cap. */
  lemma {:induction false} AcrossBound(log: seq<Entry>, from: int, to: int, q: Limits)
    requires LogOk(log, q) && ValidLimits(q)
    ensures AdmittedAcross(log, from, to) <= q.maxRequests
  {
    if log == [] {
    } else {
      var n := |log| - 1;
      PrefixOk(log, n, q);
      AcrossBound(log[..n], from, to, q);
      var e := log[n];
      assert EntryOk(log, n, q);
      if from <= e.time && e.bucket < from && e.requests == 1 {
        forall i | 0 <= i < n
          ensures log[..n][i].requests >= 0
          ensures from <= log[..n][i].time && log[..n][i].bucket < from ==> log[..n][i].bucket > e.read - q.window
        {
          assert EntryOk(log, i, q);
          assert PairOk(log[i], log[n]);
        }
        AcrossIsRecent(log[..n], from, to, e.read - q.window);
      }
    }
  }

  /** After any run, any half-open interval of the window's length holds at most twice the cap. */
  lemma AdmissionsAreBounded(ops: seq<Op>, ws: string, q: Limits, from: int)
    requires Timed(ops) && ValidLimits(q)
    ensures Admitted(LedgerOf(ops, ws, q).log, from, from + q.window) <= 2 * q.maxRequests
  {
    var read, last := RunKeepsLedger(ops, ws, q);
    var log := LedgerOf(ops, ws, q).log;
    AdmittedSplits(log, from, from + q.window);
    InsideBound(log, from, q);
    AcrossBound(log, from, from + q.window, q);
  }

  /** The live totals that `Admit` and `BytesLeft` compare are those of the live history. */
  lemma LiveTotalsAreHistory(ops: seq<Op>, ws: string, q: Limits, now: int)
    requires Timed(ops) && ValidLimits(q)
    requires ops != [] ==> End(ops[|ops|-1]) <= now
    ensures var l := LedgerOf(ops, ws, q);
            var live := Live(l.buckets, now - q.window);
            && Requests(live) == RequestsSince(l.log, now - q.window)
            && Bytes(live) == BytesSince(l.log, now - q.window)
  {
    var l := LedgerOf(ops, ws, q);
    if l != Ledger([], []) {
      var read, last := RunKeepsLedger(ops, ws, q);
      PrunedLedger(l, read, last, now, q);
      RebuiltTotals(l.log, now - q.window);
    }
  }

  // ---- the object's map holds one such ledger per workspace ----

  /** The effect of one call on the whole map, as the methods of `WorkspaceQuota` state it. */
  function CallOn(m: Counters, op: Op, q: Limits): Counters {
    var live := Live(CountersOf(m, op.ws), op.read - q.window);
    match op
    case Admit(ws, _, add) => m[ws := if Requests(live) < q.maxRequests then Added(live, add, 1, 0) else live]
    case RecordBytes(ws, _, add, n) => m[ws := Added(live, add, 0, n)]
    case BytesLeft(ws, _) => m[ws := live]
  }

  function MapAfter(ops: seq<Op>, q: Limits): Counters {
    if ops == [] then map[] else CallOn(MapAfter(ops[..|ops|-1], q), ops[|ops|-1], q)
  }

  lemma {:induction false} WorkspacesAreIndependent(ops: seq<Op>, ws: string, q: Limits)
    ensures CountersOf(MapAfter(ops, q), ws) == LedgerOf(ops, ws, q).buckets
  {
    if ops == [] {
    } else {
      WorkspacesAreIndependent(ops[..|ops|-1], ws, q);
    }
  }
}
