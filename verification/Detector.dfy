/**
  What one call of the 429 detector does when nothing interrupts it: which
  responses clear a relay, which start a probe, and exactly when it is drained.
 */
module Detector {
  import opened Wrappers
  import opened Fleet
  import opened Draining

  /** How many of the recorded 429s are dated after the cutoff. */
  function Recent(window: seq<int>, cutoff: int): nat {
    |set i | 0 <= i < |window| && window[i] > cutoff|
  }

  lemma RecentGrows(window: seq<int>, x: int, cutoff: int)
    ensures Recent(window + [x], cutoff) == Recent(window, cutoff) + if x > cutoff then 1 else 0
  {
    var n := |window|;
    var before := set i | 0 <= i < n && window[i] > cutoff;
    var after := set i | 0 <= i < n + 1 && (window + [x])[i] > cutoff;
    assert after == before + if x > cutoff then {n} else {};
  }

  lemma {:induction false} WithinSize(window: seq<int>, cutoff: int)
    ensures |Within(window, cutoff)| == Recent(window, cutoff)
  {
    if window == [] {
      assert Recent([], cutoff) == 0;
    } else {
      var n := |window| - 1;
      WithinSize(window[..n], cutoff);
      RecentGrows(window[..n], window[n], cutoff);
      assert window == window[..n] + [window[n]];
    }
  }

  /** The 429s after the cutoff are at least this share of all requests; with no request the share counts as zero. */
  predicate Stormy(c: Config, e: Entry, now: int) {
    if e.total == 0 then c.maxRate <= 0.0
    else Recent(e.window, now - c.span) as real >= c.maxRate * e.total as real
  }

  lemma Quotient(a: real, b: real, q: real)
    requires b > 0.0
    ensures a / b >= q <==> a >= q * b
  {
    var d := a / b;
    assert d * b == a;
    assert (d - q) * b == a - q * b;
    assert d >= q ==> (d - q) * b >= 0.0;
    assert d < q ==> (q - d) * b > 0.0;
  }

  lemma RateIsStorm(c: Config, relays: Relays, id: string, now: int)
    requires id in relays
    ensures Rate(Pruned(relays, id, now, c.span), id).0 >= c.maxRate <==> Stormy(c, relays[id], now)
    ensures Rate(Pruned(relays, id, now, c.span), id).1 == relays[id].probes
  {
    var e := relays[id];
    WithinSize(e.window, now - c.span);
    if e.total > 0 {
      Quotient(Recent(e.window, now - c.span) as real, e.total as real, c.maxRate);
    }
  }

  /** The task's own steps with nothing in between, until its detector call is over. */
  function Alone(c: Config, s: Sys, t: nat, envs: seq<Env>): Sys
    decreases |envs|
  {
    if envs == [] || t !in s.tasks || s.tasks[t].pc.Ended? then s
    else Alone(c, Advanced(c, s, t, envs[0]), t, envs[1..])
  }

  lemma OneStep(c: Config, s: Sys, t: nat, envs: seq<Env>, n: Sys)
    requires envs != [] && t in s.tasks && !s.tasks[t].pc.Ended? && n == Advanced(c, s, t, envs[0])
    ensures Alone(c, s, t, envs) == Alone(c, n, t, envs[1..])
  {
  }

  lemma Over(c: Config, s: Sys, t: nat, envs: seq<Env>)
    requires t !in s.tasks || s.tasks[t].pc.Ended?
    ensures Alone(c, s, t, envs) == s
  {
  }

  predicate Stands(s: Sys, t: nat, id: string, pc: PC) {
    t in s.tasks && s.tasks[t] == Task(id, pc)
  }

  /** Only this task differs, and its call is over. */
  predicate Done(s: Sys, n: Sys, t: nat, id: string) {
    n.tasks == s.tasks[t := Task(id, Ended)]
  }

  /** What is left of a window pruned at this cutoff. */
  ghost predicate Left(after: seq<int>, before: seq<int>, cutoff: int) {
    forall x :: multiset(after)[x] == if x > cutoff then multiset(before)[x] else 0
  }

  lemma PrunedLeft(window: seq<int>, cutoff: int)
    ensures Left(Within(window, cutoff), window, cutoff)
  {
    forall x ensures multiset(Within(window, cutoff))[x] == if x > cutoff then multiset(window)[x] else 0 {
      WithinCounts(window, cutoff, x);
    }
  }

  /** Of all relays only this one's window, probe count and mark differ, and the window by pruning alone. */
  ghost predicate Marks(a: Relays, b: Relays, id: string, probes: nat, draining: Option<Reason>, cutoff: int) {
    && id in a && id in b && b == a[id := b[id]]
    && b[id] == a[id].(window := b[id].window, probes := probes, draining := draining)
    && Left(b[id].window, a[id].window, cutoff)
  }

  /** The mark a storm check leaves, and its reason. */
  function MarkAfter(c: Config, e: Entry, probes: nat, now: int): Option<Reason> {
    if probes >= 3 then Some(ConsecutiveProbes) else if Stormy(c, e, now) then Some(StormRate) else e.draining
  }

  lemma StormStep(c: Config, s: Sys, t: nat, id: string, env: Env)
    requires Stands(s, t, id, Storm) && id in s.relays
    ensures var e := s.relays[id];
            Advanced(c, s, t, env) ==
            Sys(s.relays[id := e.(window := Within(e.window, env.now - c.span))], s.probed, s.tasks[t := Task(id,
              if e.probes >= 3 then Drain(ConsecutiveProbes) else if Stormy(c, e, env.now) then Drain(StormRate) else Ended)])
  {
    RateIsStorm(c, s.relays, id, env.now);
  }

  lemma DrainStep(c: Config, s: Sys, t: nat, id: string, why: Reason, env: Env)
    requires Stands(s, t, id, Drain(why)) && id in s.relays
    ensures Advanced(c, s, t, env) ==
            Sys(s.relays[id := s.relays[id].(draining := Some(why))], s.probed, s.tasks[t := Task(id, Ended)])
  {
  }

  lemma DrainEnds(c: Config, s: Sys, t: nat, id: string, why: Reason, envs: seq<Env>)
    requires Stands(s, t, id, Drain(why)) && id in s.relays && envs != []
    ensures Alone(c, s, t, envs) ==
            Sys(s.relays[id := s.relays[id].(draining := Some(why))], s.probed, s.tasks[t := Task(id, Ended)])
  {
    DrainStep(c, s, t, id, why, envs[0]);
    OneStep(c, s, t, envs, Advanced(c, s, t, envs[0]));
    Over(c, Advanced(c, s, t, envs[0]), t, envs[1..]);
  }

  lemma StormEnds(c: Config, s: Sys, t: nat, id: string, envs: seq<Env>, e: Entry, now: int)
    requires Stands(s, t, id, Storm) && id in s.relays && |envs| >= 2 && e == s.relays[id] && now == envs[0].now
    ensures Alone(c, s, t, envs) ==
            Sys(s.relays[id := e.(window := Within(e.window, now - c.span), draining := MarkAfter(c, e, e.probes, now))],
                s.probed, s.tasks[t := Task(id, Ended)])
  {
    var m := Advanced(c, s, t, envs[0]);
    StormStep(c, s, t, id, envs[0]);
    OneStep(c, s, t, envs, m);
    if e.probes >= 3 {
      DrainEnds(c, m, t, id, ConsecutiveProbes, envs[1..]);
    } else if Stormy(c, e, now) {
      DrainEnds(c, m, t, id, StormRate, envs[1..]);
    } else {
      Over(c, m, t, envs[1..]);
    }
  }

  lemma MarksBy(a: Relays, id: string, e: Entry, cutoff: int)
    requires id in a && e == a[id].(window := Within(a[id].window, cutoff), probes := e.probes, draining := e.draining)
    ensures Marks(a, a[id := e], id, e.probes, e.draining, cutoff)
  {
    PrunedLeft(a[id].window, cutoff);
  }

  /**
    The storm check, exactly: a listed relay is marked if and only if three probes
    failed or its recent 429s reach the rate, and the reason says which.
   */
  lemma StormExactly(c: Config, s: Sys, t: nat, id: string, envs: seq<Env>)
    requires Stands(s, t, id, Storm) && id in s.relays && |envs| >= 2
    ensures var n, e, now := Alone(c, s, t, envs), s.relays[id], envs[0].now;
            && Done(s, n, t, id) && n.probed == s.probed
            && Marks(s.relays, n.relays, id, e.probes, MarkAfter(c, e, e.probes, now), now - c.span)
  {
    var e, now := s.relays[id], envs[0].now;
    StormEnds(c, s, t, id, envs, e, now);
    MarksBy(s.relays, id, e.(window := Within(e.window, now - c.span), draining := MarkAfter(c, e, e.probes, now)), now - c.span);
  }

  lemma WatchStep(c: Config, s: Sys, t: nat, id: string, env: Env)
    requires Stands(s, t, id, Watch) && id in s.relays
    ensures var e := s.relays[id];
            Advanced(c, s, t, env) ==
            Sys(s.relays[id := e.(window := Within(e.window, env.now - c.span))], s.probed,
                if Stormy(c, e, env.now) then s.tasks[t := Task(id, WatchDrain)] else s.tasks - {t})
  {
    RateIsStorm(c, s.relays, id, env.now);
  }

  lemma WatchDrainEnds(c: Config, s: Sys, t: nat, id: string, envs: seq<Env>)
    requires Stands(s, t, id, WatchDrain) && id in s.relays && envs != []
    ensures Alone(c, s, t, envs) ==
            Sys(s.relays[id := s.relays[id].(draining := Some(StormRate))], s.probed, s.tasks - {t})
  {
    OneStep(c, s, t, envs, Advanced(c, s, t, envs[0]));
    Over(c, Advanced(c, s, t, envs[0]), t, envs[1..]);
  }

  /** The periodic check, exactly: it marks a listed relay if and only if its recent 429s reach the rate. */
  lemma WatchExactly(c: Config, s: Sys, t: nat, id: string, envs: seq<Env>)
    requires Stands(s, t, id, Watch) && id in s.relays && |envs| >= 2
    ensures var n, e, now := Alone(c, s, t, envs), s.relays[id], envs[0].now;
            && n.tasks == s.tasks - {t} && n.probed == s.probed
            && Marks(s.relays, n.relays, id, e.probes, if Stormy(c, e, now) then Some(StormRate) else e.draining, now - c.span)
  {
    var e, now := s.relays[id], envs[0].now;
    var m := Advanced(c, s, t, envs[0]);
    WatchStep(c, s, t, id, envs[0]);
    PrunedLeft(e.window, now - c.span);
    OneStep(c, s, t, envs, m);
    if Stormy(c, e, now) {
      WatchDrainEnds(c, m, t, id, envs[1..]);
      assert m.tasks - {t} == s.tasks - {t};
    } else {
      Over(c, m, t, envs[1..]);
    }
  }

  // ---- a whole call ----

  /** The relay's 429 state is gone and nothing else of it. */
  predicate Resets(a: Relays, b: Relays, id: string) {
    if id in a then b == a[id := a[id].(probes := 0, draining := None, window := [])] else b == a
  }

  lemma ClearingEnds(c: Config, s: Sys, t: nat, id: string, pc: PC, envs: seq<Env>)
    requires Stands(s, t, id, pc) && (pc.Recover? || (pc.Reported? && pc.status != 429)) && |envs| >= 2
    ensures var n := Alone(c, s, t, envs);
            Done(s, n, t, id) && n.probed == s.probed - {id} && Resets(s.relays, n.relays, id)
  {
    var m := Advanced(c, s, t, envs[0]);
    OneStep(c, s, t, envs, m);
    var n := Advanced(c, m, t, envs[1..][0]);
    OneStep(c, m, t, envs[1..], n);
    Over(c, n, t, envs[1..][1..]);
  }

  /** A response other than 429 ends a relay's 429 history and its probe record. */
  lemma AnswerClears(c: Config, s: Sys, t: nat, id: string, status: int, envs: seq<Env>)
    requires Stands(s, t, id, Reported(status)) && status != 429 && |envs| >= 2
    ensures var n := Alone(c, s, t, envs);
            Done(s, n, t, id) && n.probed == s.probed - {id} && Resets(s.relays, n.relays, id)
  {
    ClearingEnds(c, s, t, id, Reported(status), envs);
  }

  /** A 429 from a relay that was probed already, is not listed or has no endpoint changes nothing. */
  lemma KnownStormIgnored(c: Config, s: Sys, t: nat, id: string, envs: seq<Env>)
    requires Stands(s, t, id, Reported(429)) && |envs| >= 2
    requires id in s.probed || id !in s.relays || s.relays[id].peer.endpoint == ""
    ensures var n := Alone(c, s, t, envs);
            Done(s, n, t, id) && n.probed == s.probed && n.relays == s.relays
  {
    var m := Advanced(c, s, t, envs[0]);
    OneStep(c, s, t, envs, m);
    if id in s.probed {
      Over(c, m, t, envs[1..]);
    } else {
      var n := Advanced(c, m, t, envs[1..][0]);
      OneStep(c, m, t, envs[1..], n);
      Over(c, n, t, envs[1..][1..]);
    }
  }

  /** A first 429 records the probe before it is sent. */
  lemma ProbeStarts(c: Config, s: Sys, t: nat, id: string, envs: seq<Env>)
    requires Stands(s, t, id, Reported(429)) && |envs| >= 3
    requires id !in s.probed && id in s.relays && s.relays[id].peer.endpoint != ""
    ensures Alone(c, s, t, envs) == Alone(c, Sys(s.relays, s.probed + {id}, s.tasks[t := Task(id, Probing)]), t, envs[3..])
  {
    var m1 := Advanced(c, s, t, envs[0]);
    OneStep(c, s, t, envs, m1);
    var m2 := Advanced(c, m1, t, envs[1..][0]);
    OneStep(c, m1, t, envs[1..], m2);
    var m3 := Advanced(c, m2, t, envs[1..][1..][0]);
    OneStep(c, m2, t, envs[1..][1..], m3);
    assert envs[1..][1..][1..] == envs[3..];
    assert m3 == Sys(s.relays, s.probed + {id}, s.tasks[t := Task(id, Probing)]);
  }

  lemma ProbeDecides(c: Config, s: Sys, t: nat, id: string, envs: seq<Env>)
    requires Stands(s, t, id, Probing) && id in s.relays && |envs| >= 4
    ensures var n, e := Alone(c, s, t, envs), s.relays[id];
            && Done(s, n, t, id)
            && (!envs[0].ok ==> n.probed == s.probed && n.relays == s.relays)
            && (envs[0].ok && envs[0].status != 429 ==> n.probed == s.probed - {id} && Resets(s.relays, n.relays, id))
            && (envs[0].ok && envs[0].status == 429 ==>
                  && n.probed == s.probed
                  && Marks(s.relays, n.relays, id, e.probes + 1, MarkAfter(c, e, e.probes + 1, envs[2].now), envs[2].now - c.span))
  {
    var m := Advanced(c, s, t, envs[0]);
    OneStep(c, s, t, envs, m);
    if !envs[0].ok {
      Over(c, m, t, envs[1..]);
    } else if envs[0].status != 429 {
      ClearingEnds(c, m, t, id, Recover, envs[1..]);
    } else {
      SuspectEnds(c, m, t, id, envs[1..], Alone(c, m, t, envs[1..]), envs[2].now);
    }
  }

  lemma SuspectStep(c: Config, s: Sys, t: nat, id: string, env: Env, f: Entry)
    requires Stands(s, t, id, Suspect) && id in s.relays && f == s.relays[id].(probes := s.relays[id].probes + 1)
    ensures Advanced(c, s, t, env) == Sys(s.relays[id := f], s.probed, s.tasks[t := Task(id, Storm)])
  {
  }

  lemma SuspectRuns(c: Config, s: Sys, t: nat, id: string, envs: seq<Env>, f: Entry, g: Entry, now: int)
    requires Stands(s, t, id, Suspect) && id in s.relays && |envs| >= 3 && now == envs[1].now
    requires f == s.relays[id].(probes := s.relays[id].probes + 1)
    requires g == f.(window := Within(f.window, now - c.span), draining := MarkAfter(c, f, f.probes, now))
    ensures Alone(c, s, t, envs) == Sys(s.relays[id := g], s.probed, s.tasks[t := Task(id, Ended)])
  {
    SuspectStep(c, s, t, id, envs[0], f);
    var m := Sys(s.relays[id := f], s.probed, s.tasks[t := Task(id, Storm)]);
    OneStep(c, s, t, envs, m);
    StormEnds(c, m, t, id, envs[1..], f, now);
    assert m.relays[id := g] == s.relays[id := g];
    assert m.tasks[t := Task(id, Ended)] == s.tasks[t := Task(id, Ended)];
  }

  lemma CountedMarks(c: Config, a: Relays, id: string, f: Entry, g: Entry, now: int)
    requires id in a && f == a[id].(probes := a[id].probes + 1)
    requires g == f.(window := Within(f.window, now - c.span), draining := MarkAfter(c, f, f.probes, now))
    ensures Marks(a, a[id := g], id, a[id].probes + 1, MarkAfter(c, a[id], a[id].probes + 1, now), now - c.span)
  {
    assert Stormy(c, f, now) == Stormy(c, a[id], now);
    MarksBy(a, id, g, now - c.span);
  }

  lemma SuspectEnds(c: Config, s: Sys, t: nat, id: string, envs: seq<Env>, n: Sys, now: int)
    requires Stands(s, t, id, Suspect) && id in s.relays && |envs| >= 3 && n == Alone(c, s, t, envs) && now == envs[1].now
    ensures Done(s, n, t, id) && n.probed == s.probed
    ensures Marks(s.relays, n.relays, id, s.relays[id].probes + 1,
                  MarkAfter(c, s.relays[id], s.relays[id].probes + 1, now), now - c.span)
  {
    var f := s.relays[id].(probes := s.relays[id].probes + 1);
    var g := f.(window := Within(f.window, now - c.span), draining := MarkAfter(c, f, f.probes, now));
    SuspectRuns(c, s, t, id, envs, f, g, now);
    CountedMarks(c, s.relays, id, f, g, now);
  }

  /**
    A first 429, exactly: a probe that cannot be sent leaves only its record; one
    that passes clears the relay and the record; one that fails adds to the count
    and marks the relay if and only if that makes three or the rate is reached.
   */
  lemma FirstStormExactly(c: Config, s: Sys, t: nat, id: string, envs: seq<Env>)
    requires Stands(s, t, id, Reported(429)) && |envs| >= 7
    requires id !in s.probed && id in s.relays && s.relays[id].peer.endpoint != ""
    ensures var n, e, probe, now := Alone(c, s, t, envs), s.relays[id], envs[3], envs[5].now;
            && Done(s, n, t, id)
            && (!probe.ok ==> n.probed == s.probed + {id} && n.relays == s.relays)
            && (probe.ok && probe.status != 429 ==> n.probed == s.probed && Resets(s.relays, n.relays, id))
            && (probe.ok && probe.status == 429 ==>
                  && n.probed == s.probed + {id}
                  && Marks(s.relays, n.relays, id, e.probes + 1, MarkAfter(c, e, e.probes + 1, now), now - c.span))
  {
    ProbeStarts(c, s, t, id, envs);
    var m := Sys(s.relays, s.probed + {id}, s.tasks[t := Task(id, Probing)]);
    ProbeDecides(c, m, t, id, envs[3..]);
    assert (s.probed + {id}) - {id} == s.probed;
  }

  // ---- a whole request ----

  /** The task's own steps with nothing in between, until it is gone. */
  function Whole(c: Config, s: Sys, t: nat, envs: seq<Env>): Sys
    decreases |envs|
  {
    if envs == [] || t !in s.tasks then s else Whole(c, Advanced(c, s, t, envs[0]), t, envs[1..])
  }

  lemma Onwards(c: Config, s: Sys, t: nat, envs: seq<Env>, n: Sys)
    requires envs != [] && t in s.tasks && n == Advanced(c, s, t, envs[0])
    ensures Whole(c, s, t, envs) == Whole(c, n, t, envs[1..])
  {
  }

  lemma Gone(c: Config, s: Sys, t: nat, envs: seq<Env>)
    requires t !in s.tasks
    ensures Whole(c, s, t, envs) == s
  {
  }

  /** A selection or a look starts one task and changes nothing else; a look is at a listed relay without a mark. */
  lemma TasksStart(c: Config, s: Sys, t: nat, id: string)
    requires t !in s.tasks
    ensures Enabled(c, s, Select(t, id)) <==> Selectable(s.relays, c.thresholds, id)
    ensures Enabled(c, s, Look(t, id)) <==> id in s.relays && !Marked(s, id)
    ensures Next(c, s, Select(t, id)) == s.(tasks := s.tasks[t := Task(id, Picked)])
    ensures Next(c, s, Look(t, id)) == s.(tasks := s.tasks[t := Task(id, Watch)])
  {
  }

  /** A peer list or a health check may come in any state. */
  lemma UpdatesMayCome(c: Config, s: Sys, peers: seq<Peer>, id: string, ok: bool)
    ensures Enabled(c, s, Peers(peers)) && Next(c, s, Peers(peers)).relays.Keys == IDs(peers)
    ensures Enabled(c, s, Health(id, ok)) && Next(c, s, Health(id, ok)).relays.Keys == s.relays.Keys
  {
  }

  /** The relay as it is with one stream more. */
  function Busier(relays: Relays, id: string): (r: Relays)
    ensures id in relays ==> id in r && r == relays[id := r[id]] && r[id] == relays[id].(streams := relays[id].streams + 1)
    ensures id !in relays ==> r == relays
  {
    if id in relays then relays[id := relays[id].(streams := relays[id].streams + 1)] else relays
  }

  /** A request that cannot be built is gone without a trace. */
  lemma UnsentLeavesNothing(c: Config, s: Sys, t: nat, id: string, envs: seq<Env>)
    requires Stands(s, t, id, Picked) && envs != [] && !envs[0].ok
    ensures Whole(c, s, t, envs) == s.(tasks := s.tasks - {t})
  {
    var n := s.(tasks := s.tasks - {t});
    Onwards(c, s, t, envs, n);
    Gone(c, n, t, envs[1..]);
  }

  lemma SentIs(c: Config, s: Sys, t: nat, id: string, envs: seq<Env>, n: Sys)
    requires Stands(s, t, id, Picked) && envs != [] && envs[0].ok
    requires n == Sys(Busier(s.relays, id), s.probed, s.tasks[t := Task(id, Sent)])
    ensures Whole(c, s, t, envs) == Whole(c, n, t, envs[1..])
  {
    Onwards(c, s, t, envs, n);
  }

  lemma EndedIs(c: Config, s: Sys, t: nat, id: string, envs: seq<Env>, relays: Relays)
    requires Stands(s, t, id, Ended) && envs != [] && s.relays == Busier(relays, id)
    ensures Whole(c, s, t, envs) == Sys(relays, s.probed, s.tasks - {t})
  {
    var n := Advanced(c, s, t, envs[0]);
    assert n.relays == relays;
    Onwards(c, s, t, envs, n);
    Gone(c, n, t, envs[1..]);
  }

  /** The client hung up: the stream is counted and uncounted, and nothing else changes. */
  lemma HungUpLeavesNothing(c: Config, s: Sys, t: nat, id: string, envs: seq<Env>)
    requires Stands(s, t, id, Picked) && |envs| >= 3 && envs[0].ok && !envs[1].ok && envs[1].status == 0
    ensures Whole(c, s, t, envs) == s.(tasks := s.tasks - {t})
  {
    var m := Sys(Busier(s.relays, id), s.probed, s.tasks[t := Task(id, Sent)]);
    SentIs(c, s, t, id, envs, m);
    var n := m.(tasks := s.tasks[t := Task(id, Ended)]);
    Onwards(c, m, t, envs[1..], n);
    EndedIs(c, n, t, id, envs[1..][1..], s.relays);
    assert n.tasks - {t} == s.tasks - {t};
  }

  /** The relay as it is after one failed check more. */
  function Failing(relays: Relays, id: string): (r: Relays)
    ensures id in relays ==> id in r && r[id] == relays[id].(failures := relays[id].failures + 1, successes := 0)
    ensures r.Keys == relays.Keys && forall o :: o in relays && o != id ==> r[o] == relays[o]
  {
    if id in relays then relays[id := relays[id].(failures := relays[id].failures + 1, successes := 0)] else relays
  }

  lemma FailingBusier(relays: Relays, id: string)
    ensures Checked(Busier(relays, id), id, false) == Busier(Failing(relays, id), id)
  {
  }

  /** The relay could not be reached: that is one failed check, and the stream is gone again. */
  lemma UnreachableIsFailedCheck(c: Config, s: Sys, t: nat, id: string, envs: seq<Env>)
    requires Stands(s, t, id, Picked) && |envs| >= 4 && envs[0].ok && !envs[1].ok && envs[1].status != 0
    ensures Whole(c, s, t, envs) == Sys(Failing(s.relays, id), s.probed, s.tasks - {t})
  {
    var m := Sys(Busier(s.relays, id), s.probed, s.tasks[t := Task(id, Sent)]);
    SentIs(c, s, t, id, envs, m);
    var n := m.(tasks := s.tasks[t := Task(id, FailedSend)]);
    Onwards(c, m, t, envs[1..], n);
    var k := Sys(Busier(Failing(s.relays, id), id), s.probed, s.tasks[t := Task(id, Ended)]);
    FailingBusier(s.relays, id);
    Onwards(c, n, t, envs[1..][1..], k);
    EndedIs(c, k, t, id, envs[1..][1..][1..], Failing(s.relays, id));
    assert k.tasks - {t} == s.tasks - {t};
  }

  /** An answered request is recorded under its status with its stream still open, and then told to the detector. */
  lemma AnswerIsRecorded(c: Config, s: Sys, t: nat, id: string, envs: seq<Env>) returns (n: Sys)
    requires Stands(s, t, id, Picked) && |envs| >= 3 && envs[0].ok && envs[1].ok
    ensures Whole(c, s, t, envs) == Whole(c, n, t, envs[3..])
    ensures n.probed == s.probed && n.tasks == s.tasks[t := Task(id, Reported(envs[1].status))]
    ensures id !in s.relays ==> n.relays == s.relays
    ensures id in s.relays ==>
              var e := s.relays[id];
              && id in n.relays && n.relays == s.relays[id := n.relays[id]]
              && (envs[1].status != 429 ==> n.relays[id] == e.(streams := e.streams + 1, total := e.total + 1))
              && (envs[1].status == 429 ==>
                    && n.relays[id] == e.(streams := e.streams + 1, total := e.total + 1, hits := e.hits + 1,
                                          window := n.relays[id].window)
                    && Left(n.relays[id].window, e.window + [envs[2].stamp], envs[2].now - c.span))
  {
    var status := envs[1].status;
    var m := Sys(Busier(s.relays, id), s.probed, s.tasks[t := Task(id, Sent)]);
    SentIs(c, s, t, id, envs, m);
    var a := m.(tasks := s.tasks[t := Task(id, Answered(status))]);
    Onwards(c, m, t, envs[1..], a);
    n := Advanced(c, a, t, envs[2]);
    assert envs[1..][1..][0] == envs[2] && envs[1..][1..][1..] == envs[3..];
    Onwards(c, a, t, envs[1..][1..], n);
    if id in s.relays {
      PrunedLeft(s.relays[id].window + [envs[2].stamp], envs[2].now - c.span);
    }
  }
}
