/**
  The 429 detector as a step system: any number of proxied requests and
  periodic checks run at once, each step being what the code does under one
  lock, interleaved with peer updates and health checks in any order.
 */
module Draining {
  import opened Wrappers
  import opened Fleet

  const MAX_CONSECUTIVE: nat := 3

  datatype Config = Config(thresholds: Thresholds, span: int, maxRate: real)

  /** Where a request or a periodic check stands. */
  datatype PC =
    | Picked                  // relay chosen
    | Sent                    // stream counted, response outstanding
    | FailedSend              // upstream error to be counted
    | Answered(status: int)   // response copied, to be counted
    | Reported(status: int)   // counted, detector to be told
    | NotProbed               // detector: a 429, and no probe was recorded
    | Mark                    // detector: endpoint known, probe to be recorded
    | Probing                 // detector: probe outstanding
    | Suspect                 // detector: probe got 429
    | Storm                   // detector: thresholds to be evaluated
    | Drain(why: Reason)      // detector: relay to be marked draining
    | Recover                 // detector: probe succeeded, state to be cleared
    | Unmark                  // detector: probe record to be dropped
    | Ended                   // stream to be uncounted
    | Watch                   // periodic check: rate to be read
    | WatchDrain              // periodic check: relay to be marked draining

  datatype Task = Task(relay: string, pc: PC)

  datatype Sys = Sys(relays: Relays, probed: set<string>, tasks: map<nat, Task>)

  /** What a step learns from outside: a call's success, a status, and up to two clock readings. */
  datatype Env = Env(ok: bool, status: int, stamp: int, now: int)

  datatype Action =
    | Select(t: nat, id: string)
    | Look(t: nat, id: string)
    | Advance(t: nat, env: Env)
    | Peers(peers: seq<Peer>)
    | Health(id: string, ok: bool)

  const INIT := Sys(map[], {}, map[])

  /** Relays that a selection can return: eligible ones of the best tier. */
  ghost predicate Selectable(relays: Relays, t: Thresholds, id: string) {
    && id in relays
    && Eligible(relays[id], t)
    && (relays[id].peer.provider != "aws" ==>
          forall o :: o in relays && Eligible(relays[o], t) ==> relays[o].peer.provider != "aws")
    && (relays[id].peer.provider == "gcp" ==>
          forall o :: o in relays && Eligible(relays[o], t) ==> relays[o].peer.provider != "oci")
  }

  function At(s: Sys, t: nat, pc: PC): map<nat, Task>
    requires t in s.tasks
  {
    s.tasks[t := s.tasks[t].(pc := pc)]
  }

  /** One step of task `t`. */
  function Advanced(c: Config, s: Sys, t: nat, env: Env): Sys
    requires t in s.tasks
  {
    var id := s.tasks[t].relay;
    match s.tasks[t].pc
    case Picked =>
      if env.ok then Sys(Opened(s.relays, id), s.probed, At(s, t, Sent)) else s.(tasks := s.tasks - {t})
    case Sent =>
      if env.ok then s.(tasks := At(s, t, Answered(env.status)))
      else if env.status == 0 then s.(tasks := At(s, t, Ended))
      else s.(tasks := At(s, t, FailedSend))
    case FailedSend => Sys(Checked(s.relays, id, false), s.probed, At(s, t, Ended))
    case Answered(status) =>
      Sys(Recorded(s.relays, id, status, env.stamp, env.now, c.span), s.probed, At(s, t, Reported(status)))
    case Reported(status) =>
      if status != 429 then Sys(Cleared(s.relays, id), s.probed, At(s, t, Unmark))
      else s.(tasks := At(s, t, if id in s.probed then Ended else NotProbed))
    case NotProbed =>
      s.(tasks := At(s, t, if id in s.relays && s.relays[id].peer.endpoint != "" then Mark else Ended))
    case Mark => Sys(s.relays, s.probed + {id}, At(s, t, Probing))
    case Probing =>
      s.(tasks := At(s, t, if !env.ok then Ended else if env.status == 429 then Suspect else Recover))
    case Suspect => Sys(Suspected(s.relays, id), s.probed, At(s, t, Storm))
    case Storm =>
      var relays := Pruned(s.relays, id, env.now, c.span);
      var (rate, consecutive) := Rate(relays, id);
      Sys(relays, s.probed, At(s, t,
        if consecutive >= MAX_CONSECUTIVE then Drain(ConsecutiveProbes)
        else if rate >= c.maxRate then Drain(StormRate)
        else Ended))
    case Drain(why) => Sys(Drained(s.relays, id, why), s.probed, At(s, t, Ended))
    case Recover => Sys(Cleared(s.relays, id), s.probed, At(s, t, Unmark))
    case Unmark => Sys(s.relays, s.probed - {id}, At(s, t, Ended))
    case Ended => Sys(Closed(s.relays, id), s.probed, s.tasks - {t})
    case Watch =>
      var relays := Pruned(s.relays, id, env.now, c.span);
      if Rate(relays, id).0 >= c.maxRate then Sys(relays, s.probed, At(s, t, WatchDrain))
      else Sys(relays, s.probed, s.tasks - {t})
    case WatchDrain => Sys(Drained(s.relays, id, StormRate), s.probed, s.tasks - {t})
  }

  ghost predicate Enabled(c: Config, s: Sys, a: Action) {
    match a
    case Select(t, id) => t !in s.tasks && Selectable(s.relays, c.thresholds, id)
    case Look(t, id) => t !in s.tasks && id in s.relays && s.relays[id].draining.None?
    case Advance(t, _) => t in s.tasks
    case Peers(_) => true
    case Health(_, _) => true
  }

  function Next(c: Config, s: Sys, a: Action): Sys
    requires a.Advance? ==> a.t in s.tasks
  {
    match a
    case Select(t, id) => s.(tasks := s.tasks[t := Task(id, Picked)])
    case Look(t, id) => s.(tasks := s.tasks[t := Task(id, Watch)])
    case Advance(t, env) => Advanced(c, s, t, env)
    case Peers(peers) => s.(relays := Updated(s.relays, peers))
    case Health(id, ok) => s.(relays := Checked(s.relays, id, ok))
  }

  /** `run` is a sequence of states, each reached from the one before by the matching action. */
  ghost predicate Run(c: Config, run: seq<Sys>, acts: seq<Action>) {
    && |run| == |acts| + 1
    && forall i :: 0 <= i < |acts| ==> Enabled(c, run[i], acts[i]) && run[i+1] == Next(c, run[i], acts[i])
  }

  /** A step moves one task and leaves the others alone. */
  lemma OtherTask(c: Config, s: Sys, t: nat, env: Env, u: nat)
    requires t in s.tasks
    ensures var n := Advanced(c, s, t, env).tasks;
            && (u != t ==> (u in n <==> u in s.tasks))
            && (u in n ==> u in s.tasks && n[u].relay == s.tasks[u].relay)
            && (u != t && u in n ==> n[u] == s.tasks[u])
  {
  }

  // ---- a marked relay stays out ----

  predicate Marked(s: Sys, id: string) {
    id in s.relays && s.relays[id].draining.Some?
  }

  predicate InFlight(pc: PC) {
    !pc.Watch? && !pc.WatchDrain?
  }

  /** No proxied request to this relay is in flight. */
  ghost predicate Quiet(s: Sys, id: string) {
    forall t :: t in s.tasks && s.tasks[t].relay == id ==> !InFlight(s.tasks[t].pc)
  }

  /** The step is one that clears the mark: a response other than 429, a passing probe, or removal. */
  predicate Clears(s: Sys, a: Action, id: string) {
    match a
    case Advance(t, _) =>
      t in s.tasks && s.tasks[t].relay == id &&
      (s.tasks[t].pc.Recover? || (s.tasks[t].pc.Reported? && s.tasks[t].pc.status != 429))
    case Peers(peers) => id !in IDs(peers)
    case _ => false
  }

  lemma MarkClearedExactly(c: Config, s: Sys, a: Action, id: string)
    requires Enabled(c, s, a) && Marked(s, id)
    ensures Marked(Next(c, s, a), id) <==> !Clears(s, a, id)
  {
    if a.Peers? {
      LastPeerIs(a.peers, id);
    }
  }

  predicate Keeps(a: Action, id: string) {
    a.Peers? ==> id in IDs(a.peers)
  }

  lemma QuietStep(c: Config, s: Sys, a: Action, id: string)
    requires Enabled(c, s, a) && Keeps(a, id) && Marked(s, id) && Quiet(s, id)
    ensures Marked(Next(c, s, a), id) && Quiet(Next(c, s, a), id)
    ensures !(a.Select? && a.id == id)
  {
    MarkClearedExactly(c, s, a, id);
  }

  /**
    Once a relay is marked draining and no request to it is in flight, no run that
    keeps it in the peer list ever clears the mark or selects it again.
   */
  lemma {:induction false} MarkedStaysOut(c: Config, run: seq<Sys>, acts: seq<Action>, id: string, n: nat)
    requires Run(c, run, acts) && n <= |acts|
    requires Marked(run[0], id) && Quiet(run[0], id)
    requires forall i :: 0 <= i < |acts| ==> Keeps(acts[i], id)
    ensures Marked(run[n], id) && Quiet(run[n], id)
    ensures n < |acts| ==> !(acts[n].Select? && acts[n].id == id)
  {
    if n == 0 {
    } else {
      MarkedStaysOut(c, run, acts, id, n - 1);
      QuietStep(c, run[n-1], acts[n-1], id);
    }
    if n < |acts| {
      QuietStep(c, run[n], acts[n], id);
    }
  }

  // ---- the stream counter ----

  predicate Streaming(pc: PC) {
    InFlight(pc) && !pc.Picked?
  }

  /** The requests to `id` whose stream has started and not ended. */
  function Flying(s: Sys, id: string): set<nat> {
    set t | t in s.tasks && s.tasks[t].relay == id && Streaming(s.tasks[t].pc)
  }

  function Streams(s: Sys, id: string): nat {
    if id in s.relays then s.relays[id].streams else 0
  }

  ghost predicate Counted(s: Sys, id: string) {
    Streams(s, id) == |Flying(s, id)|
  }

  /** The step drops the relay under open streams, or opens one on a relay already dropped. */
  predicate Loses(s: Sys, a: Action, id: string) {
    match a
    case Peers(peers) => id !in IDs(peers) && Flying(s, id) != {}
    case Advance(t, env) => t in s.tasks && s.tasks[t] == Task(id, Picked) && env.ok && id !in s.relays
    case _ => false
  }

  /** Whether task `t` has an open stream after its step. */
  lemma OwnStream(c: Config, s: Sys, t: nat, env: Env)
    requires t in s.tasks
    ensures var n := Advanced(c, s, t, env).tasks;
            t in n && Streaming(n[t].pc) <==>
            if s.tasks[t].pc.Picked? then env.ok else Streaming(s.tasks[t].pc) && !s.tasks[t].pc.Ended?
  {
  }

  lemma FlyingAdvance(c: Config, s: Sys, t: nat, env: Env, id: string)
    requires t in s.tasks
    ensures var n := Flying(Advanced(c, s, t, env), id);
            if s.tasks[t].relay != id then n == Flying(s, id)
            else if s.tasks[t].pc.Picked? && env.ok then n == Flying(s, id) + {t} && t !in Flying(s, id)
            else if s.tasks[t].pc.Ended? then n == Flying(s, id) - {t} && t in Flying(s, id)
            else n == Flying(s, id)
  {
    OwnStream(c, s, t, env);
    forall u {
      OtherTask(c, s, t, env, u);
    }
  }

  lemma StreamsAdvance(c: Config, s: Sys, t: nat, env: Env, id: string)
    requires t in s.tasks
    ensures var n := Streams(Advanced(c, s, t, env), id);
            if s.tasks[t].relay != id || id !in s.relays then n == Streams(s, id)
            else if s.tasks[t].pc.Picked? && env.ok then n == Streams(s, id) + 1
            else if s.tasks[t].pc.Ended? then n == if Streams(s, id) > 0 then Streams(s, id) - 1 else 0
            else n == Streams(s, id)
  {
  }

  lemma CountedAdvance(c: Config, s: Sys, t: nat, env: Env, id: string)
    requires t in s.tasks && Counted(s, id)
    ensures Counted(Advanced(c, s, t, env), id) <==> !Loses(s, Advance(t, env), id)
  {
    FlyingAdvance(c, s, t, env, id);
    StreamsAdvance(c, s, t, env, id);
  }

  lemma CountedPeers(s: Sys, peers: seq<Peer>, id: string)
    requires Counted(s, id)
    ensures Counted(s.(relays := Updated(s.relays, peers)), id) <==> !Loses(s, Peers(peers), id)
  {
    LastPeerIs(peers, id);
    assert Flying(s.(relays := Updated(s.relays, peers)), id) == Flying(s, id);
  }

  /** Exactly which steps make the active-stream counter disagree with the open streams. */
  lemma CountedExactly(c: Config, s: Sys, a: Action, id: string)
    requires Enabled(c, s, a) && Counted(s, id)
    ensures Counted(Next(c, s, a), id) <==> !Loses(s, a, id)
  {
    match a
    case Advance(t, env) => CountedAdvance(c, s, t, env, id);
    case Peers(peers) => CountedPeers(s, peers, id);
    case _ => assert Flying(Next(c, s, a), id) == Flying(s, id);
  }

  /** In every run that keeps the relay listed, its counter is the number of its open streams. */
  lemma {:induction false} StreamsAreCounted(c: Config, run: seq<Sys>, acts: seq<Action>, id: string, n: nat)
    requires Run(c, run, acts) && n <= |acts|
    requires id in run[0].relays && Counted(run[0], id)
    requires forall i :: 0 <= i < |acts| ==> Keeps(acts[i], id)
    ensures id in run[n].relays && Counted(run[n], id)
  {
    if n == 0 {
    } else {
      StreamsAreCounted(c, run, acts, id, n - 1);
      CountedExactly(c, run[n-1], acts[n-1], id);
      StaysListed(c, run[n-1], acts[n-1], id);
    }
  }

  lemma StaysListed(c: Config, s: Sys, a: Action, id: string)
    requires Enabled(c, s, a) && id in s.relays && Keeps(a, id)
    ensures id in Next(c, s, a).relays
  {
  }

  // ---- what selection returns ----

  /** Relays are filed under their own ID, as every peer update leaves them. */
  ghost predicate Filed(relays: Relays) {
    forall id :: id in relays ==> relays[id].peer.id == id
  }

  lemma {:induction false} AlwaysFiled(c: Config, run: seq<Sys>, acts: seq<Action>, n: nat)
    requires Run(c, run, acts) && run[0] == INIT && n <= |acts|
    ensures Filed(run[n].relays)
  {
    if n == 0 {
    } else {
      AlwaysFiled(c, run, acts, n - 1);
      FiledStep(c, run[n-1], acts[n-1]);
    }
  }

  lemma FiledStep(c: Config, s: Sys, a: Action)
    requires Enabled(c, s, a) && Filed(s.relays)
    ensures Filed(Next(c, s, a).relays)
  {
    if a.Peers? {
      forall id | id in IDs(a.peers) ensures Updated(s.relays, a.peers)[id].peer.id == id {
        LastPeerIs(a.peers, id);
      }
    }
  }

  /** Whatever the map order and the draw, a selection returns a relay of the best tier. */
  lemma DrawnIsSelectable(relays: Relays, t: Thresholds, order: seq<string>, draw: real, p: Peer)
    requires Iterates(order, relays) && Filed(relays)
    requires Drawn(Candidates(relays, t, order), t, draw, p)
    ensures Selectable(relays, t, p.id) && relays[p.id].peer == p
  {
    var cs := Candidates(relays, t, order);
    var i :| 0 <= i < |cs| && cs[i].peer == p;
    assert cs[i] in cs;
    CandidatesExactly(relays, t, order, cs[i]);
  }

  lemma Signed(x: real, total: real)
    requires total > 0.0
    ensures x * total > 0.0 ==> x > 0.0
    ensures x * total >= 0.0 ==> x >= 0.0
  {
  }

  lemma Halfway(low: real, high: real, total: real)
    requires 0.0 <= low < high <= total && total > 0.0
    ensures 0.0 <= low / total < high / total <= 1.0
    ensures var draw := (low / total + high / total) / 2.0;
            low / total < draw < high / total && 0.0 <= draw < 1.0
  {
    var a, b := low / total, high / total;
    assert a * total == low && b * total == high;
    Signed(a, total);
    Signed(b - a, total);
    Signed(1.0 - b, total);
  }

  /** And every such relay is returned for some draw, whatever the map order. */
  lemma SelectableIsDrawn(relays: Relays, t: Thresholds, order: seq<string>, id: string) returns (draw: real)
    requires Iterates(order, relays) && Selectable(relays, t, id)
    ensures 0.0 <= draw < 1.0 && Drawn(Candidates(relays, t, order), t, draw, relays[id].peer)
  {
    var cs := Candidates(relays, t, order);
    CandidatesExactly(relays, t, order, relays[id]);
    var i :| 0 <= i < |cs| && cs[i] == relays[id];
    CandidatesWeigh(relays, t, order, cs);
    draw := DrawFor(Weights(cs, t), i);
  }

  lemma DrawFor(ws: seq<real>, i: nat) returns (draw: real)
    requires i < |ws| && Positive(ws)
    ensures 0.0 <= draw < 1.0 && InSlot(ws, i, Point(ws, draw))
  {
    CumulativeGrows(ws, 0, i);
    CumulativeGrows(ws, i, i + 1);
    CumulativeGrows(ws, i + 1, |ws|);
    var low, high, total := Cumulative(ws, i), Cumulative(ws, i + 1), Total(ws);
    Halfway(low, high, total);
    draw := (low / total + high / total) / 2.0;
    SharesAreWeights(ws, i, draw);
  }

  lemma CandidatesWeigh(relays: Relays, t: Thresholds, order: seq<string>, cs: seq<Entry>)
    requires Iterates(order, relays) && cs == Candidates(relays, t, order)
    ensures Positive(Weights(cs, t))
  {
    var ws := Weights(cs, t);
    forall k | 0 <= k < |ws| ensures ws[k] > 0.0 {
      assert cs[k] in cs;
      CandidatesExactly(relays, t, order, cs[k]);
      EligibleWeighs(cs[k], t);
    }
  }

  /** In every run the two health streaks exclude each other. */
  lemma {:induction false} StreaksExclude(c: Config, run: seq<Sys>, acts: seq<Action>, n: nat)
    requires Run(c, run, acts) && run[0] == INIT && n <= |acts|
    ensures OneStreak(run[n].relays)
  {
    if n == 0 {
    } else {
      StreaksExclude(c, run, acts, n - 1);
      StreakStep(c, run[n-1], acts[n-1]);
    }
  }

  lemma StreakStep(c: Config, s: Sys, a: Action)
    requires Enabled(c, s, a) && OneStreak(s.relays)
    ensures OneStreak(Next(c, s, a).relays)
  {
    if a.Peers? {
      forall id | id in IDs(a.peers)
        ensures Updated(s.relays, a.peers)[id].failures == 0 || Updated(s.relays, a.peers)[id].successes == 0 {
        LastPeerIs(a.peers, id);
      }
    }
  }
}
