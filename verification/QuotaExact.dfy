/**
  How sharp the quota's bounds are: runs that reach twice the cap, and exactly
  which interval lengths never hold more than the cap.
 */
module QuotaExact {
  import opened Quota
  import opened QuotaBound

  // ---- a run that admits twice the cap within one window ----

  /** `k` admissions in a row at time `t`. */
  function Burst(ws: string, t: int, k: nat): seq<Op> {
    seq(k, _ => Admit(ws, t, t))
  }

  function Calls(l: Ledger, ws: string, t: int, k: nat, q: Limits): Ledger {
    if k == 0 then l else Call(Calls(l, ws, t, k - 1, q), Admit(ws, t, t), q)
  }

  lemma {:induction false} BurstIsCalls(ops: seq<Op>, ws: string, t: int, k: nat, q: Limits)
    ensures LedgerOf(ops + Burst(ws, t, k), ws, q) == Calls(LedgerOf(ops, ws, q), ws, t, k, q)
  {
    if k == 0 {
      assert ops + Burst(ws, t, 0) == ops;
    } else {
      BurstIsCalls(ops, ws, t, k - 1, q);
      BurstGrows(ops, ws, t, k);
      OneMoreCall(ops + Burst(ws, t, k - 1), ops + Burst(ws, t, k), Admit(ws, t, t), ws, q);
    }
  }

  lemma BurstGrows(ops: seq<Op>, ws: string, t: int, k: nat)
    requires k > 0
    ensures ops + Burst(ws, t, k) == (ops + Burst(ws, t, k - 1)) + [Admit(ws, t, t)]
  {
  }

  lemma OneMoreCall(ops: seq<Op>, all: seq<Op>, op: Op, ws: string, q: Limits)
    requires all == ops + [op] && op.ws == ws
    ensures LedgerOf(all, ws, q) == Call(LedgerOf(ops, ws, q), op, q)
  {
    assert all[..|all|-1] == ops;
  }

  /** A call that is admitted into the one live bucket. */
  lemma AdmitIntoCurrent(l: Ledger, b: Bucket, ws: string, t: int, q: Limits)
    requires l.buckets == [b] && b.requests < q.maxRequests
    requires t - q.window < b.start && t - b.start < MINUTE
    ensures Call(l, Admit(ws, t, t), q) ==
            Ledger([Bucket(b.start, b.requests + 1, b.bytes)], l.log + [Entry(t, t, b.start, 1, 0)])
  {
    assert [b][..0] == [];
    assert Live([b], t - q.window) == [] + [b] == [b];
    assert Requests([b]) == b.requests;
    assert Added([b], t, 1, 0) == [Bucket(b.start, b.requests + 1, b.bytes + 0)];
  }

  /** A call that finds its only bucket expired opens a new one. */
  lemma AdmitAfterExpiry(l: Ledger, b: Bucket, ws: string, t: int, q: Limits)
    requires l.buckets == [b] && b.start <= t - q.window && ValidLimits(q)
    ensures Call(l, Admit(ws, t, t), q) == Ledger([Bucket(t, 1, 0)], l.log + [Entry(t, t, t, 1, 0)])
  {
    assert [b][..0] == [];
    assert Live([b], t - q.window) == [];
    assert [] + [Bucket(t, 1, 0)] == [Bucket(t, 1, 0)];
  }

  function Copies(e: Entry, k: nat): seq<Entry> {
    if k == 0 then [] else Copies(e, k - 1) + [e]
  }

  lemma {:induction false} AdmittedCopies(log: seq<Entry>, e: Entry, k: nat, from: int, to: int)
    requires from <= e.time < to && e.requests == 1
    ensures Admitted(log + Copies(e, k), from, to) == Admitted(log, from, to) + k
  {
    if k == 0 {
      assert log + [] == log;
    } else {
      AdmittedCopies(log, e, k - 1, from, to);
      var all := log + Copies(e, k);
      assert all[..|all|-1] == log + Copies(e, k - 1) && all[|all|-1] == e;
    }
  }

  lemma {:induction false} CallsFill(b: Bucket, log: seq<Entry>, ws: string, t: int, k: nat, q: Limits)
    requires b.requests + k <= q.maxRequests && t - q.window < b.start && t - b.start < MINUTE
    ensures Calls(Ledger([b], log), ws, t, k, q) ==
            Ledger([Bucket(b.start, b.requests + k, b.bytes)], log + Copies(Entry(t, t, b.start, 1, 0), k))
  {
    var e := Entry(t, t, b.start, 1, 0);
    if k == 0 {
      assert log + [] == log;
    } else {
      CallsFill(b, log, ws, t, k - 1, q);
      var c := Bucket(b.start, b.requests + (k - 1), b.bytes);
      AdmitIntoCurrent(Ledger([c], log + Copies(e, k - 1)), c, ws, t, q);
      CopiesGrow(log, e, k);
    }
  }

  lemma CopiesGrow(log: seq<Entry>, e: Entry, k: nat)
    requires k > 0
    ensures (log + Copies(e, k - 1)) + [e] == log + Copies(e, k)
  {
  }

  lemma {:induction false} CallsPeel(l: Ledger, ws: string, t: int, k: nat, q: Limits)
    requires k > 0
    ensures Calls(l, ws, t, k, q) == Calls(Call(l, Admit(ws, t, t), q), ws, t, k - 1, q)
  {
    if k > 1 { CallsPeel(l, ws, t, k - 1, q); }
  }

  /** The whole second burst, after the first bucket expired. */
  lemma CallsAfterExpiry(b: Bucket, log: seq<Entry>, ws: string, t: int, q: Limits)
    requires b.start <= t - q.window && ValidLimits(q)
    ensures Calls(Ledger([b], log), ws, t, q.maxRequests, q).log == log + Copies(Entry(t, t, t, 1, 0), q.maxRequests)
  {
    var e, max := Entry(t, t, t, 1, 0), q.maxRequests;
    var first := Ledger([Bucket(t, 1, 0)], log + [e]);
    assert Calls(Ledger([b], log), ws, t, max, q) == Calls(first, ws, t, max - 1, q) by {
      CallsPeel(Ledger([b], log), ws, t, max, q);
      AdmitAfterExpiry(Ledger([b], log), b, ws, t, q);
    }
    RestOfBurst(log, e, ws, t, max, q);
  }

  lemma RestOfBurst(log: seq<Entry>, e: Entry, ws: string, t: int, max: nat, q: Limits)
    requires e == Entry(t, t, t, 1, 0) && max == q.maxRequests && ValidLimits(q)
    ensures Calls(Ledger([Bucket(t, 1, 0)], log + [e]), ws, t, max - 1, q).log == log + Copies(e, max)
  {
    CallsFill(Bucket(t, 1, 0), log + [e], ws, t, max - 1, q);
    CopiesPeel(log, e, max);
  }

  lemma {:induction false} CopiesPeel(log: seq<Entry>, e: Entry, k: nat)
    requires k > 0
    ensures log + Copies(e, k) == log + [e] + Copies(e, k - 1)
  {
    if k <= 1 {
    } else {
      CopiesPeel(log, e, k - 1);
      assert log + Copies(e, k) == log + Copies(e, k - 1) + [e];
    }
  }

  /** The last tick of a bucket's minute at which the bucket is still live. */
  function LateTick(q: Limits): int {
    (if q.window < MINUTE then q.window else MINUTE) - 1
  }

  /** A record of bytes, a burst at the end of its minute, and a burst when its bucket expires. */
  function WorstRun(ws: string, q: Limits): seq<Op>
    requires ValidLimits(q)
  {
    [RecordBytes(ws, 0, 0, 0)] + Burst(ws, LateTick(q), q.maxRequests) + Burst(ws, q.window, q.maxRequests)
  }

  lemma WorstStart(ws: string, q: Limits)
    requires ValidLimits(q)
    ensures LedgerOf([RecordBytes(ws, 0, 0, 0)], ws, q) == Ledger([Bucket(0, 0, 0)], [Entry(0, 0, 0, 0, 0)])
  {
    assert [RecordBytes(ws, 0, 0, 0)][..0] == [];
    assert [] + [Bucket(0, 0, 0)] == [Bucket(0, 0, 0)] && [] + [Entry(0, 0, 0, 0, 0)] == [Entry(0, 0, 0, 0, 0)];
  }

  lemma WorstLog(ws: string, q: Limits)
    requires ValidLimits(q)
    ensures LedgerOf(WorstRun(ws, q), ws, q).log ==
            ([Entry(0, 0, 0, 0, 0)] + Copies(Entry(LateTick(q), LateTick(q), 0, 1, 0), q.maxRequests))
            + Copies(Entry(q.window, q.window, q.window, 1, 0), q.maxRequests)
  {
    var late, max := LateTick(q), q.maxRequests;
    var start, zero := [RecordBytes(ws, 0, 0, 0)], [Entry(0, 0, 0, 0, 0)];
    WorstStart(ws, q);
    BurstIsCalls(start, ws, late, max, q);
    CallsFill(Bucket(0, 0, 0), zero, ws, late, max, q);
    BurstIsCalls(start + Burst(ws, late, max), ws, q.window, max, q);
    CallsAfterExpiry(Bucket(0, max, 0), zero + Copies(Entry(late, late, 0, 1, 0), max), ws, q.window, q);
  }

  lemma BurstAt(ws: string, t: int, k: nat, i: nat)
    requires i < k
    ensures |Burst(ws, t, k)| == k && Burst(ws, t, k)[i] == Admit(ws, t, t)
  {
  }

  lemma WorstTimed(ws: string, q: Limits)
    requires ValidLimits(q)
    ensures Timed(WorstRun(ws, q)) && AtOnce(WorstRun(ws, q))
  {
    var ops, late, max := WorstRun(ws, q), LateTick(q), q.maxRequests;
    forall i | 0 <= i < |ops|
      ensures ops[i].read == End(ops[i]) == if i == 0 then 0 else if i <= max then late else q.window {
      if 0 < i <= max {
        BurstAt(ws, late, max, i - 1);
      } else if i > max {
        BurstAt(ws, q.window, max, i - 1 - max);
      }
    }
  }

  /** Both bursts fall into any interval that starts with the first and reaches the second. */
  lemma WorstAdmits(ws: string, q: Limits, to: int)
    requires ValidLimits(q) && to > q.window
    ensures Admitted(LedgerOf(WorstRun(ws, q), ws, q).log, LateTick(q), to) >= 2 * q.maxRequests
  {
    WorstLog(ws, q);
    TwoBursts([Entry(0, 0, 0, 0, 0)], Entry(LateTick(q), LateTick(q), 0, 1, 0),
              Entry(q.window, q.window, q.window, 1, 0), q.maxRequests, LateTick(q), to);
  }

  lemma TwoBursts(log: seq<Entry>, a: Entry, b: Entry, k: nat, from: int, to: int)
    requires |log| == 1 && log[0].requests == 0
    requires from <= a.time < to && from <= b.time < to && a.requests == 1 && b.requests == 1
    ensures Admitted((log + Copies(a, k)) + Copies(b, k), from, to) == 2 * k
  {
    AdmittedCopies(log, a, k, from, to);
    AdmittedCopies(log + Copies(a, k), b, k, from, to);
    assert log[..0] == [];
  }

  /** For every cap and every window of at least two ticks, twice the cap fits into one window. */
  lemma TwiceTheCapIsReached(ws: string, q: Limits)
    requires ValidLimits(q) && q.window >= 2
    ensures Timed(WorstRun(ws, q))
    ensures Admitted(LedgerOf(WorstRun(ws, q), ws, q).log, LateTick(q), LateTick(q) + q.window) == 2 * q.maxRequests
  {
    WorstTimed(ws, q);
    WorstAdmits(ws, q, LateTick(q) + q.window);
    AdmissionsAreBounded(WorstRun(ws, q), ws, q, LateTick(q));
  }

  // ---- exactly which intervals stay within the cap ----

  /** Every call reads the same time twice. */
  predicate AtOnce(ops: seq<Op>) {
    forall i :: 0 <= i < |ops| ==> ops[i].read == End(ops[i])
  }

  ghost predicate WithinCap(ops: seq<Op>, ws: string, q: Limits, from: int, length: int) {
    Admitted(LedgerOf(ops, ws, q).log, from, from + length) <= q.maxRequests
  }

  ghost predicate AlwaysWithinCap(q: Limits, length: int) {
    forall ops, ws, from :: Timed(ops) ==> WithinCap(ops, ws, q, from, length)
  }

  ghost predicate WithinCapAtOnce(q: Limits, length: int) {
    forall ops, ws, from :: Timed(ops) && AtOnce(ops) ==> WithinCap(ops, ws, q, from, length)
  }

  lemma {:induction false} MinuteSlack(log: seq<Entry>, q: Limits)
    requires LogOk(log, q)
    ensures Slack(log, MINUTE)
  {
    forall i | 0 <= i < |log| ensures log[i].bucket > log[i].time - MINUTE {
      assert EntryOk(log, i, q);
    }
  }

  lemma {:induction false} ReadOnce(ops: seq<Op>, ws: string, q: Limits)
    requires AtOnce(ops)
    ensures forall i :: 0 <= i < |LedgerOf(ops, ws, q).log| ==> LedgerOf(ops, ws, q).log[i].read == LedgerOf(ops, ws, q).log[i].time
  {
    if ops == [] {
    } else {
      ReadOnce(ops[..|ops|-1], ws, q);
      assert ops[|ops|-1].read == End(ops[|ops|-1]);
    }
  }

  lemma ShortSlack(ops: seq<Op>, ws: string, q: Limits)
    requires AtOnce(ops) && LogOk(LedgerOf(ops, ws, q).log, q)
    ensures Slack(LedgerOf(ops, ws, q).log, LateTick(q) + 1)
  {
    var log := LedgerOf(ops, ws, q).log;
    ReadOnce(ops, ws, q);
    forall i | 0 <= i < |log| ensures log[i].bucket > log[i].time - (LateTick(q) + 1) {
      assert EntryOk(log, i, q);
    }
  }

  /**
    The exact law for calls that take no time: every interval of this length stays
    within the cap in every run if and only if it is no longer than the window less
    the last tick at which a bucket still takes records.
   */
  lemma CapHoldsExactlyAtOnce(q: Limits, length: int)
    requires ValidLimits(q)
    ensures WithinCapAtOnce(q, length) <==> length <= q.window - LateTick(q)
  {
    if length <= q.window - LateTick(q) {
      forall ops, ws, from | Timed(ops) && AtOnce(ops) ensures WithinCap(ops, ws, q, from, length) {
        var read, last := RunKeepsLedger(ops, ws, q);
        ShortSlack(ops, ws, q);
        ShortIntervalBound(LedgerOf(ops, ws, q).log, from, length, LateTick(q) + 1, q);
      }
    } else {
      WorstTimed("", q);
      WorstAdmits("", q, LateTick(q) + length);
      assert !WithinCap(WorstRun("", q), "", q, LateTick(q), length);
    }
  }

  /** A record that opens a bucket, a call that prunes while it is live and counts late in its minute, and a burst then. */
  function DelayedRun(ws: string, q: Limits): seq<Op>
    requires ValidLimits(q)
  {
    [RecordBytes(ws, 0, 0, 0), Admit(ws, q.window - 1, MINUTE - 1)] + Burst(ws, MINUTE - 1, q.maxRequests)
  }

  lemma DelayedStart(ws: string, q: Limits)
    requires ValidLimits(q) && q.window < MINUTE
    ensures LedgerOf([RecordBytes(ws, 0, 0, 0), Admit(ws, q.window - 1, MINUTE - 1)], ws, q)
            == Ledger([Bucket(0, 1, 0)], [Entry(0, 0, 0, 0, 0), Entry(q.window - 1, MINUTE - 1, 0, 1, 0)])
  {
    var first, second := RecordBytes(ws, 0, 0, 0), Admit(ws, q.window - 1, MINUTE - 1);
    var b, e := Bucket(0, 0, 0), Entry(0, 0, 0, 0, 0);
    WorstStart(ws, q);
    OneMoreCall([first], [first, second], second, ws, q);
    assert [b][..0] == [];
    assert Live([b], q.window - 1 - q.window) == [] + [b] == [b];
    assert Requests([b]) == 0;
    assert Added([b], MINUTE - 1, 1, 0) == [Bucket(0, 1, 0)];
    assert [e] + [Entry(q.window - 1, MINUTE - 1, 0, 1, 0)] == [e, Entry(q.window - 1, MINUTE - 1, 0, 1, 0)];
  }

  lemma DelayedTimed(ws: string, q: Limits)
    requires ValidLimits(q) && q.window < MINUTE
    ensures Timed(DelayedRun(ws, q))
  {
    var ops, max := DelayedRun(ws, q), q.maxRequests;
    forall i | 2 <= i < |ops| ensures ops[i] == Admit(ws, MINUTE - 1, MINUTE - 1) {
      BurstAt(ws, MINUTE - 1, max, i - 2);
    }
  }

  lemma DelayedLog(ws: string, q: Limits, t: int)
    requires ValidLimits(q) && q.window < MINUTE && t == MINUTE - 1
    ensures LedgerOf(DelayedRun(ws, q), ws, q).log ==
            [Entry(0, 0, 0, 0, 0), Entry(q.window - 1, t, 0, 1, 0)] + Copies(Entry(t, t, t, 1, 0), q.maxRequests)
  {
    DelayedStart(ws, q);
    BurstIsCalls([RecordBytes(ws, 0, 0, 0), Admit(ws, q.window - 1, t)], ws, t, q.maxRequests, q);
    CallsAfterExpiry(Bucket(0, 1, 0), [Entry(0, 0, 0, 0, 0), Entry(q.window - 1, t, 0, 1, 0)], ws, t, q);
  }

  lemma DelayedAdmits(ws: string, q: Limits, length: int)
    requires ValidLimits(q) && q.window < MINUTE && length >= 1
    ensures Admitted(LedgerOf(DelayedRun(ws, q), ws, q).log, MINUTE - 1, MINUTE - 1 + length) == q.maxRequests + 1
  {
    var t := MINUTE - 1;
    DelayedLog(ws, q, t);
    OneAndABurst([Entry(0, 0, 0, 0, 0), Entry(q.window - 1, t, 0, 1, 0)], Entry(t, t, t, 1, 0), q.maxRequests, t, t + length);
  }

  lemma OneAndABurst(log: seq<Entry>, e: Entry, k: nat, from: int, to: int)
    requires |log| == 2 && log[0].requests == 0 && from <= log[1].time < to && log[1].requests == 1
    requires from <= e.time < to && e.requests == 1
    ensures Admitted(log + Copies(e, k), from, to) == k + 1
  {
    AdmittedCopies(log, e, k, from, to);
    assert |log[..1]| == 1 && log[..1][..0] == [];
    assert Admitted(log[..1], from, to) == 0;
  }

  lemma ShortStaysWithin(q: Limits, length: int)
    requires ValidLimits(q) && length <= q.window - MINUTE + 1
    ensures AlwaysWithinCap(q, length)
  {
    forall ops, ws, from | Timed(ops) ensures WithinCap(ops, ws, q, from, length) {
      var read, last := RunKeepsLedger(ops, ws, q);
      MinuteSlack(LedgerOf(ops, ws, q).log, q);
      ShortIntervalBound(LedgerOf(ops, ws, q).log, from, length, MINUTE, q);
    }
  }

  lemma LongExceeds(q: Limits, length: int)
    requires ValidLimits(q) && length >= 1 && length > q.window - MINUTE + 1
    ensures exists ops, ws, from :: Timed(ops) && !WithinCap(ops, ws, q, from, length)
  {
    if q.window >= MINUTE {
      WorstTimed("", q);
      WorstExceeds(q, length);
    } else {
      DelayedTimed("", q);
      DelayedExceeds(q, length);
    }
  }

  lemma WorstExceeds(q: Limits, length: int)
    requires ValidLimits(q) && q.window >= MINUTE && length > q.window - MINUTE + 1
    ensures !WithinCap(WorstRun("", q), "", q, LateTick(q), length)
  {
    WorstAdmits("", q, LateTick(q) + length);
  }

  lemma DelayedExceeds(q: Limits, length: int)
    requires ValidLimits(q) && q.window < MINUTE && length >= 1
    ensures !WithinCap(DelayedRun("", q), "", q, MINUTE - 1, length)
  {
    DelayedAdmits("", q, length);
  }

  /**
    The exact law for every run: whatever time passes between the two readings of a
    call, intervals of a positive length stay within the cap if and only if they are at
    least a minute, less one tick, shorter than the window.
   */
  lemma CapHoldsExactly(q: Limits, length: int)
    requires ValidLimits(q) && length >= 1
    ensures AlwaysWithinCap(q, length) <==> length <= q.window - 60 * 1_000_000_000 + 1
  {
    if length <= q.window - MINUTE + 1 {
      ShortStaysWithin(q, length);
    } else {
      LongExceeds(q, length);
    }
  }
}
