/**
  How far the detector's probe counter can climb: at most one while the
  detector's calls for a relay do not overlap, and to the draining threshold
  once two of them may.
 */
module Probes {
  import opened Wrappers
  import opened Fleet
  import opened Draining

  /** The request is inside the detector's OnResponse. */
  predicate InCall(pc: PC) {
    match pc
    case NotProbed => true
    case Mark => true
    case Probing => true
    case Suspect => true
    case Storm => true
    case Drain(_) => true
    case Recover => true
    case Unmark => true
    case _ => false
  }

  predicate InCallAt(s: Sys, t: nat, id: string) {
    t in s.tasks && s.tasks[t].relay == id && InCall(s.tasks[t].pc)
  }

  ghost predicate NoOverlap(s: Sys, id: string) {
    forall t, u :: InCallAt(s, t, id) && InCallAt(s, u, id) ==> t == u
  }

  function Count(s: Sys, id: string): nat {
    if id in s.relays then s.relays[id].probes else 0
  }

  /** What a call at this point knows about the counter and the probe record. */
  predicate Knows(s: Sys, id: string, pc: PC) {
    match pc
    case NotProbed => Count(s, id) == 0
    case Mark => Count(s, id) == 0
    case Probing => id in s.probed && Count(s, id) == 0
    case Suspect => id in s.probed && Count(s, id) == 0
    case Storm => id in s.probed
    case Drain(why) => id in s.probed && why == StormRate
    case Recover => id in s.probed
    case Unmark => Count(s, id) == 0
    case _ => true
  }

  ghost predicate Inv(s: Sys, id: string) {
    && Count(s, id) <= 1
    && (Count(s, id) == 1 ==> id in s.probed)
    && (Marked(s, id) ==> s.relays[id].draining == Some(StormRate))
    && forall t :: t in s.tasks && s.tasks[t].relay == id ==> Knows(s, id, s.tasks[t].pc)
  }

  lemma AdvanceOwn(c: Config, s: Sys, t: nat, env: Env, id: string)
    requires t in s.tasks && s.tasks[t].relay == id
    requires Inv(s, id) && NoOverlap(s, id)
    ensures var n := Advanced(c, s, t, env);
            && Count(n, id) <= 1
            && (Count(n, id) == 1 ==> id in n.probed)
            && (Marked(n, id) ==> n.relays[id].draining == Some(StormRate))
            && (t in n.tasks ==> Knows(n, id, n.tasks[t].pc))
  {
    assert Knows(s, id, s.tasks[t].pc);
  }

  lemma OtherRelays(c: Config, s: Sys, t: nat, env: Env, id: string)
    requires t in s.tasks && s.tasks[t].relay != id
    ensures var n := Advanced(c, s, t, env);
            && (id in n.probed <==> id in s.probed)
            && (id in n.relays <==> id in s.relays)
            && (id in n.relays ==> n.relays[id] == s.relays[id])
  {
  }

  lemma OutsideCalls(c: Config, s: Sys, t: nat, env: Env, id: string)
    requires t in s.tasks && !InCall(s.tasks[t].pc)
    ensures var n := Advanced(c, s, t, env);
            n.probed == s.probed && (Count(n, id) == Count(s, id) || Count(n, id) == 0)
  {
  }

  lemma InvStep(c: Config, s: Sys, a: Action, id: string)
    requires Enabled(c, s, a) && Inv(s, id) && NoOverlap(s, id)
    ensures Inv(Next(c, s, a), id)
  {
    var n := Next(c, s, a);
    match a
    case Advance(t, env) =>
      if s.tasks[t].relay == id {
        AdvanceOwn(c, s, t, env, id);
      } else {
        OtherRelays(c, s, t, env, id);
      }
      forall u | u in n.tasks && n.tasks[u].relay == id ensures Knows(n, id, n.tasks[u].pc) {
        OtherTask(c, s, t, env, u);
        if u != t {
          assert Knows(s, id, s.tasks[u].pc);
          if s.tasks[t].relay == id && InCall(s.tasks[u].pc) {
            assert InCallAt(s, u, id) && !InCallAt(s, t, id);
            OutsideCalls(c, s, t, env, id);
          }
        }
      }
    case Peers(peers) =>
      LastPeerIs(peers, id);
    case _ =>
  }

  lemma {:induction false} InvHolds(c: Config, run: seq<Sys>, acts: seq<Action>, id: string, n: nat)
    requires Run(c, run, acts) && run[0] == INIT && n <= |acts|
    requires forall i :: 0 <= i < |run| ==> NoOverlap(run[i], id)
    ensures Inv(run[n], id)
  {
    if n == 0 {
    } else {
      InvHolds(c, run, acts, id, n - 1);
      assert NoOverlap(run[n-1], id);
      InvStep(c, run[n-1], acts[n-1], id);
    }
  }

  /**
    While the detector's calls for a relay never overlap, its counter of failed
    probes never passes one, so only the rate test ever marks it draining.
   */
  lemma ProbesNeverPassOne(c: Config, run: seq<Sys>, acts: seq<Action>, id: string, n: nat)
    requires Run(c, run, acts) && run[0] == INIT && n <= |acts|
    requires forall i :: 0 <= i < |run| ==> NoOverlap(run[i], id)
    ensures Count(run[n], id) <= 1
    ensures Marked(run[n], id) ==> run[n].relays[id].draining == Some(StormRate)
  {
    InvHolds(c, run, acts, id, n);
  }

  // ---- two calls at a time ----

  /** At most the tasks `x` and `y` are inside the detector for this relay. */
  ghost predicate Only(s: Sys, id: string, x: nat, y: nat) {
    forall t :: InCallAt(s, t, id) ==> t == x || t == y
  }

  ghost predicate AtMostTwo(s: Sys, id: string) {
    exists x, y :: Only(s, id, x, y)
  }

  /** `u` is reached from `s` by a run in which no three calls for the relay overlap. */
  ghost predicate Leads(c: Config, s: Sys, u: Sys, id: string) {
    exists run, acts :: && Run(c, run, acts) && run[0] == s && run[|acts|] == u
                        && forall i :: 0 <= i < |run| ==> AtMostTwo(run[i], id)
  }

  lemma LeadsNowhere(c: Config, s: Sys, id: string, x: nat, y: nat)
    requires Only(s, id, x, y)
    ensures Leads(c, s, s, id)
  {
    var run := [s];
    assert Run(c, run, []) && run[0] == s && AtMostTwo(run[0], id);
  }

  lemma LeadsStep(c: Config, s: Sys, u: Sys, a: Action, id: string, x: nat, y: nat)
    requires Leads(c, s, u, id) && Enabled(c, u, a) && Only(Next(c, u, a), id, x, y)
    ensures Leads(c, s, Next(c, u, a), id)
  {
    var run, acts :| && Run(c, run, acts) && run[0] == s && run[|acts|] == u
                     && forall i :: 0 <= i < |run| ==> AtMostTwo(run[i], id);
    var longer := run + [Next(c, u, a)];
    assert AtMostTwo(Next(c, u, a), id);
    RunGrows(c, run, acts, a);
    forall i | 0 <= i < |longer| ensures AtMostTwo(longer[i], id) { }
    assert longer[0] == s && longer[|acts + [a]|] == Next(c, u, a);
  }

  lemma RunGrows(c: Config, run: seq<Sys>, acts: seq<Action>, a: Action)
    requires Run(c, run, acts) && Enabled(c, run[|acts|], a)
    ensures Run(c, run + [Next(c, run[|acts|], a)], acts + [a])
  {
  }

  /** One step of a task that is one of the two, or stays outside the detector. */
  lemma Move(c: Config, o: Sys, s: Sys, t: nat, env: Env, n: Sys, id: string, x: nat, y: nat)
    requires Leads(c, o, s, id) && t in s.tasks && n == Advanced(c, s, t, env) && Only(s, id, x, y)
    requires t == x || t == y || !InCallAt(n, t, id)
    ensures Leads(c, o, n, id) && Only(n, id, x, y)
  {
    forall u | InCallAt(n, u, id) ensures u == x || u == y {
      OtherTask(c, s, t, env, u);
      if u != t {
        assert InCallAt(s, u, id);
      }
    }
    LeadsStep(c, o, s, Advance(t, env), id, x, y);
  }

  /** Only the peer record, the health counters and the mark decide selection. */
  lemma SelectableSame(relays: Relays, t: Thresholds, id: string, e: Entry)
    requires Selectable(relays, t, id)
    requires e.peer == relays[id].peer && e.failures == relays[id].failures
             && e.successes == relays[id].successes && e.draining == relays[id].draining
    ensures Selectable(relays[id := e], t, id)
  {
  }

  /** Task `t` stands at `pc` for this relay; everything else is as it was. */
  predicate Moved(s: Sys, n: Sys, t: nat, id: string, pc: PC) {
    n.tasks == s.tasks[t := Task(id, pc)]
  }

  /** The relay is known, can be probed, and has failed `k` probes. */
  predicate Stands(s: Sys, id: string, k: nat) {
    id in s.relays && s.relays[id].peer.endpoint != "" && s.relays[id].probes == k
  }

  /** A new request to `id` is answered and about to report its status. */
  lemma Arrives(c: Config, o: Sys, s: Sys, t: nat, id: string, status: int, k: nat, x: nat, y: nat) returns (n: Sys)
    requires Leads(c, o, s, id) && Only(s, id, x, y) && t !in s.tasks
    requires Selectable(s.relays, c.thresholds, id) && Stands(s, id, k)
    ensures Leads(c, o, n, id) && Only(n, id, x, y) && Moved(s, n, t, id, Reported(status)) && n.probed == s.probed
    ensures Selectable(n.relays, c.thresholds, id) && Stands(n, id, k)
  {
    var s1, s2 := Dispatches(c, o, s, t, id, x, y);
    n := Answers(c, o, s2, t, id, status, x, y);
    SelectableSame(s.relays, c.thresholds, id, n.relays[id]);
    assert n.relays == s.relays[id := n.relays[id]];
    assert n.tasks == s.tasks[t := Task(id, Reported(status))];
  }

  lemma Answers(c: Config, o: Sys, s: Sys, t: nat, id: string, status: int, x: nat, y: nat) returns (n: Sys)
    requires Leads(c, o, s, id) && Only(s, id, x, y) && t in s.tasks && s.tasks[t] == Task(id, Sent) && id in s.relays
    ensures Leads(c, o, n, id) && Only(n, id, x, y)
    ensures n.probed == s.probed && n.tasks == s.tasks[t := Task(id, Reported(status))]
    ensures id in n.relays && n.relays == s.relays[id := n.relays[id]]
    ensures n.relays[id].peer == s.relays[id].peer && n.relays[id].draining == s.relays[id].draining
    ensures n.relays[id].probes == s.relays[id].probes
    ensures n.relays[id].failures == s.relays[id].failures && n.relays[id].successes == s.relays[id].successes
  {
    var got := Env(true, status, 0, 0);
    var a := s.(tasks := s.tasks[t := Task(id, Answered(status))]);
    Move(c, o, s, t, got, a, id, x, y);
    n := Advanced(c, a, t, got);
    Move(c, o, a, t, got, n, id, x, y);
  }

  lemma Dispatches(c: Config, o: Sys, s: Sys, t: nat, id: string, x: nat, y: nat) returns (s1: Sys, s2: Sys)
    requires Leads(c, o, s, id) && Only(s, id, x, y) && t !in s.tasks && Selectable(s.relays, c.thresholds, id)
    ensures s2 == Sys(s.relays[id := s.relays[id].(streams := s.relays[id].streams + 1)], s.probed,
                      s.tasks[t := Task(id, Sent)])
    ensures Leads(c, o, s2, id) && Only(s2, id, x, y)
  {
    s1 := s.(tasks := s.tasks[t := Task(id, Picked)]);
    assert Only(s1, id, x, y) by {
      forall u | InCallAt(s1, u, id) ensures u == x || u == y {
        assert InCallAt(s, u, id);
      }
    }
    LeadsStep(c, o, s, Select(t, id), id, x, y);
    s2 := Sys(s.relays[id := s.relays[id].(streams := s.relays[id].streams + 1)], s.probed, s.tasks[t := Task(id, Sent)]);
    Move(c, o, s1, t, Env(true, 0, 0, 0), s2, id, x, y);
  }

  /** A reported 429 finds no probe recorded. */
  lemma Enters(c: Config, o: Sys, s: Sys, t: nat, id: string, k: nat, x: nat, y: nat) returns (n: Sys)
    requires Leads(c, o, s, id) && Only(s, id, x, y) && (t == x || t == y)
    requires t in s.tasks && s.tasks[t] == Task(id, Reported(429)) && id !in s.probed && Stands(s, id, k)
    ensures Leads(c, o, n, id) && Only(n, id, x, y) && Moved(s, n, t, id, NotProbed)
    ensures n.probed == s.probed && Stands(n, id, k)
  {
    n := s.(tasks := s.tasks[t := Task(id, NotProbed)]);
    Move(c, o, s, t, Env(true, 429, 0, 0), n, id, x, y);
  }

  /** The call's own probe gets 429 as well. */
  lemma Climbs(c: Config, o: Sys, s: Sys, t: nat, id: string, k: nat, x: nat, y: nat) returns (n: Sys)
    requires Leads(c, o, s, id) && Only(s, id, x, y) && (t == x || t == y)
    requires t in s.tasks && s.tasks[t] == Task(id, NotProbed) && Stands(s, id, k)
    ensures Leads(c, o, n, id) && Only(n, id, x, y) && Moved(s, n, t, id, Storm)
    ensures n.probed == s.probed + {id} && Stands(n, id, k + 1)
  {
    var got := Env(true, 429, 0, 0);
    var s1 := s.(tasks := s.tasks[t := Task(id, Mark)]);
    Move(c, o, s, t, got, s1, id, x, y);
    var s2 := Sys(s.relays, s.probed + {id}, s.tasks[t := Task(id, Probing)]);
    Move(c, o, s1, t, got, s2, id, x, y);
    var s3 := s2.(tasks := s.tasks[t := Task(id, Suspect)]);
    Move(c, o, s2, t, got, s3, id, x, y);
    n := Sys(Suspected(s.relays, id), s2.probed, s.tasks[t := Task(id, Storm)]);
    Move(c, o, s3, t, got, n, id, x, y);
  }

  /** Whatever the storm test finds, the call ends and the count stays. */
  lemma Leaves(c: Config, o: Sys, s: Sys, t: nat, id: string, k: nat, x: nat, y: nat) returns (n: Sys)
    requires Leads(c, o, s, id) && Only(s, id, x, y) && (t == x || t == y)
    requires t in s.tasks && s.tasks[t] == Task(id, Storm) && Stands(s, id, k)
    ensures Leads(c, o, n, id) && Only(n, id, x, y) && Moved(s, n, t, id, Ended)
    ensures n.probed == s.probed && Stands(n, id, k)
  {
    var got := Env(true, 429, 0, 0);
    n := Advanced(c, s, t, got);
    Move(c, o, s, t, got, n, id, x, y);
    if n.tasks[t].pc.Drain? {
      var m := Advanced(c, n, t, got);
      Move(c, o, n, t, got, m, id, x, y);
      n := m;
      assert n.tasks == s.tasks[t := Task(id, Ended)];
    }
  }

  lemma Drains(c: Config, o: Sys, s: Sys, t: nat, id: string, k: nat, x: nat, y: nat) returns (n: Sys)
    requires Leads(c, o, s, id) && Only(s, id, x, y) && (t == x || t == y)
    requires t in s.tasks && s.tasks[t] == Task(id, Storm) && Stands(s, id, k) && k >= MAX_CONSECUTIVE
    ensures Leads(c, o, n, id) && Draining.Marked(n, id) && n.relays[id].draining == Some(ConsecutiveProbes)
  {
    var got := Env(true, 429, 0, 0);
    var s1 := Advanced(c, s, t, got);
    Move(c, o, s, t, got, s1, id, x, y);
    n := Advanced(c, s1, t, got);
    Move(c, o, s1, t, got, n, id, x, y);
  }

  /** A response other than 429 clears the state; its probe record is dropped later. */
  lemma Clears(c: Config, o: Sys, s: Sys, t: nat, id: string, k: nat, x: nat, y: nat) returns (n: Sys)
    requires Leads(c, o, s, id) && Only(s, id, x, y) && (t == x || t == y)
    requires t in s.tasks && s.tasks[t] == Task(id, Reported(200)) && Stands(s, id, k)
    ensures Leads(c, o, n, id) && Only(n, id, x, y) && Moved(s, n, t, id, Unmark)
    ensures n.probed == s.probed && Stands(n, id, 0)
  {
    n := Sys(Cleared(s.relays, id), s.probed, s.tasks[t := Task(id, Unmark)]);
    Move(c, o, s, t, Env(true, 200, 0, 0), n, id, x, y);
  }

  lemma Unmarks(c: Config, o: Sys, s: Sys, t: nat, id: string, k: nat, x: nat, y: nat) returns (n: Sys)
    requires Leads(c, o, s, id) && Only(s, id, x, y) && (t == x || t == y)
    requires t in s.tasks && s.tasks[t] == Task(id, Unmark) && Stands(s, id, k)
    ensures Leads(c, o, n, id) && Only(n, id, x, y) && Moved(s, n, t, id, Ended)
    ensures n.probed == s.probed - {id} && Stands(n, id, k)
  {
    n := Sys(s.relays, s.probed - {id}, s.tasks[t := Task(id, Ended)]);
    Move(c, o, s, t, Env(true, 200, 0, 0), n, id, x, y);
  }

  /** Only two others may be inside once these two have left. */
  lemma OthersMay(s: Sys, id: string, x: nat, y: nat, u: nat, v: nat)
    requires Only(s, id, x, y) && !InCallAt(s, x, id) && !InCallAt(s, y, id)
    ensures Only(s, id, u, v)
  {
  }

  predicate AllDiffer(a: nat, b: nat, d: nat, e: nat) {
    a != b && a != d && a != e && b != d && b != e && d != e
  }

  /** Four answered requests, none yet inside the detector: one got 200, three got 429. */
  lemma FourArrive(c: Config, s: Sys, id: string, a: nat, b: nat, d: nat, e: nat) returns (n: Sys)
    requires Selectable(s.relays, c.thresholds, id) && s.relays[id].peer.endpoint != ""
    requires forall t :: !InCallAt(s, t, id)
    requires a !in s.tasks && b !in s.tasks && d !in s.tasks && e !in s.tasks
    requires AllDiffer(a, b, d, e)
    ensures Leads(c, s, n, id) && n.probed == s.probed && id in n.relays && n.relays[id].peer.endpoint != ""
    ensures forall t :: !InCallAt(n, t, id)
    ensures n.tasks == s.tasks[a := Task(id, Reported(200))][b := Task(id, Reported(429))]
                              [d := Task(id, Reported(429))][e := Task(id, Reported(429))]
  {
    var k := s.relays[id].probes;
    assert Only(s, id, a, a);
    LeadsNowhere(c, s, id, a, a);
    var s1 := Arrives(c, s, s, a, id, 200, k, a, a);
    var s2 := Arrives(c, s, s1, b, id, 429, k, a, a);
    var s3 := Arrives(c, s, s2, d, id, 429, k, a, a);
    n := Arrives(c, s, s3, e, id, 429, k, a, a);
  }

  /** The first two calls, one inside the other, leave a failed probe counted and no probe recorded. */
  lemma FirstTwo(c: Config, o: Sys, s: Sys, id: string, a: nat, b: nat) returns (n: Sys)
    requires Leads(c, o, s, id) && id in s.relays && s.relays[id].peer.endpoint != "" && id !in s.probed && a != b
    requires a in s.tasks && s.tasks[a] == Task(id, Reported(200))
    requires b in s.tasks && s.tasks[b] == Task(id, Reported(429))
    requires forall t :: !InCallAt(s, t, id)
    ensures Leads(c, o, n, id) && Stands(n, id, 1) && id !in n.probed
    ensures n.tasks == s.tasks[a := Task(id, Ended)][b := Task(id, Ended)]
    ensures Only(n, id, a, b)
  {
    assert Only(s, id, a, b);
    var s1 := Clears(c, o, s, a, id, s.relays[id].probes, a, b);
    var s2 := Enters(c, o, s1, b, id, 0, a, b);
    var s3 := Climbs(c, o, s2, b, id, 0, a, b);
    var s4 := Leaves(c, o, s3, b, id, 1, a, b);
    n := Unmarks(c, o, s4, a, id, 1, a, b);
    assert n.tasks == s.tasks[a := Task(id, Ended)][b := Task(id, Ended)];
  }

  /** The next two both find no probe recorded, and the second of them drains the relay. */
  lemma NextTwo(c: Config, o: Sys, s: Sys, id: string, d: nat, e: nat) returns (n: Sys)
    requires Leads(c, o, s, id) && Stands(s, id, 1) && id !in s.probed && d != e && Only(s, id, d, e)
    requires d in s.tasks && s.tasks[d] == Task(id, Reported(429))
    requires e in s.tasks && s.tasks[e] == Task(id, Reported(429))
    ensures Leads(c, o, n, id) && Draining.Marked(n, id) && n.relays[id].draining == Some(ConsecutiveProbes)
  {
    var s1 := Enters(c, o, s, d, id, 1, d, e);
    var s2 := Enters(c, o, s1, e, id, 1, d, e);
    var s3 := Climbs(c, o, s2, d, id, 1, d, e);
    var s4 := Leaves(c, o, s3, d, id, 2, d, e);
    var s5 := Climbs(c, o, s4, e, id, 2, d, e);
    n := Drains(c, o, s5, e, id, 3, d, e);
  }

  /**
    No overlap is exactly the boundary: from any state in which a relay is selectable, unprobed
    and outside every call, a run in which never more than two calls overlap drains it by the
    probe counter, whatever its rate.
   */
  lemma TwoAtATimeDrain(c: Config, s: Sys, id: string, a: nat, b: nat, d: nat, e: nat)
    requires Selectable(s.relays, c.thresholds, id) && s.relays[id].peer.endpoint != "" && id !in s.probed
    requires forall t :: !InCallAt(s, t, id)
    requires a !in s.tasks && b !in s.tasks && d !in s.tasks && e !in s.tasks
    requires AllDiffer(a, b, d, e)
    ensures exists n :: Leads(c, s, n, id) && Draining.Marked(n, id) && n.relays[id].draining == Some(ConsecutiveProbes)
  {
    var s1 := FourArrive(c, s, id, a, b, d, e);
    var s2 := FirstTwo(c, s, s1, id, a, b);
    OthersMay(s2, id, a, b, d, e);
    var n := NextTwo(c, s, s2, id, d, e);
  }
}
