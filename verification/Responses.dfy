/**
  The traffic counters of a relay against the responses of a run: the totals
  count those since it was listed, and the window holds the 429s that no clear
  and no pruning has taken since.
 */
module Responses {
  import opened Wrappers
  import opened Fleet
  import opened Draining

  /** The step moves a task of this relay. */
  predicate Moves(s: Sys, a: Action, id: string) {
    a.Advance? && a.t in s.tasks && s.tasks[a.t].relay == id
  }

  /** The step reports a response of this relay. */
  predicate Reports(s: Sys, a: Action, id: string) {
    Moves(s, a, id) && s.tasks[a.t].pc.Answered?
  }

  predicate Storms(s: Sys, a: Action, id: string) {
    Reports(s, a, id) && s.tasks[a.t].pc.status == 429
  }

  /** The step forgets the relay's 429s: a response other than 429, or a probe that passed. */
  predicate Forgets(s: Sys, a: Action, id: string) {
    Moves(s, a, id) &&
    (s.tasks[a.t].pc.Recover? || (s.tasks[a.t].pc.Reported? && s.tasks[a.t].pc.status != 429))
  }

  /** The step drops 429s that have left the window: a new one, a storm check or a periodic check. */
  predicate Prunes(s: Sys, a: Action, id: string) {
    Storms(s, a, id) || (Moves(s, a, id) && (s.tasks[a.t].pc.Storm? || s.tasks[a.t].pc.Watch?))
  }

  // ---- one step ----

  lemma TotalStep(c: Config, s: Sys, a: Action, id: string)
    requires Enabled(c, s, a) && id in Next(c, s, a).relays
    ensures id in s.relays ==>
              && Next(c, s, a).relays[id].total == s.relays[id].total + (if Reports(s, a, id) then 1 else 0)
              && Next(c, s, a).relays[id].hits == s.relays[id].hits + (if Storms(s, a, id) then 1 else 0)
    ensures id !in s.relays ==>
              Next(c, s, a).relays[id].total == 0 && Next(c, s, a).relays[id].hits == 0 && Next(c, s, a).relays[id].window == []
  {
  }

  function Cutoff(c: Config, a: Action): int
    requires a.Advance?
  {
    a.env.now - c.span
  }

  lemma WindowStep(c: Config, s: Sys, a: Action, id: string)
    requires Enabled(c, s, a) && id in Next(c, s, a).relays && id in s.relays
    ensures var w := s.relays[id].window;
            Next(c, s, a).relays[id].window ==
            if Forgets(s, a, id) then []
            else if Storms(s, a, id) then Within(w + [a.env.stamp], Cutoff(c, a))
            else if Prunes(s, a, id) then Within(w, Cutoff(c, a))
            else w
  {
  }

  // ---- totals ----

  /** The relay is listed from state `j` to state `n`. */
  ghost predicate Listed(run: seq<Sys>, id: string, j: int, n: int)
    requires 0 <= j && n < |run|
  {
    forall i :: j <= i <= n ==> id in run[i].relays
  }

  /** The responses reported by the first `n` steps since the relay was last listed. */
  ghost function Since(run: seq<Sys>, acts: seq<Action>, id: string, n: nat): set<int>
    requires n <= |acts| && |run| == |acts| + 1
  {
    set j | 0 <= j < n && Reports(run[j], acts[j], id) && Listed(run, id, j, n)
  }

  ghost function StormsSince(run: seq<Sys>, acts: seq<Action>, id: string, n: nat): set<int>
    requires n <= |acts| && |run| == |acts| + 1
  {
    set j | 0 <= j < n && Storms(run[j], acts[j], id) && Listed(run, id, j, n)
  }

  lemma ListedOneMore(run: seq<Sys>, id: string, j: int, n: nat)
    requires 0 <= j <= n && n + 1 < |run|
    ensures Listed(run, id, j, n + 1) <==> Listed(run, id, j, n) && id in run[n+1].relays
  {
  }

  lemma SinceStep(run: seq<Sys>, acts: seq<Action>, id: string, n: nat)
    requires n < |acts| && |run| == |acts| + 1 && id in run[n+1].relays
    ensures id !in run[n].relays ==> Since(run, acts, id, n + 1) == {} && StormsSince(run, acts, id, n + 1) == {}
    ensures id in run[n].relays ==>
              && Since(run, acts, id, n + 1) == Since(run, acts, id, n) + (if Reports(run[n], acts[n], id) then {n} else {})
              && StormsSince(run, acts, id, n + 1)
                 == StormsSince(run, acts, id, n) + (if Storms(run[n], acts[n], id) then {n} else {})
  {
    forall j | 0 <= j <= n ensures Listed(run, id, j, n + 1) <==> Listed(run, id, j, n) && id in run[n+1].relays {
      ListedOneMore(run, id, j, n);
    }
    assert id !in run[n].relays ==> forall j :: 0 <= j <= n ==> !Listed(run, id, j, n);
  }

  lemma TotalsOneMore(c: Config, run: seq<Sys>, acts: seq<Action>, id: string, n: nat)
    requires n < |acts| && |run| == |acts| + 1 && Enabled(c, run[n], acts[n]) && run[n+1] == Next(c, run[n], acts[n])
    requires id in run[n+1].relays
    requires id in run[n].relays ==> run[n].relays[id].total == |Since(run, acts, id, n)|
                                     && run[n].relays[id].hits == |StormsSince(run, acts, id, n)|
    ensures run[n+1].relays[id].total == |Since(run, acts, id, n + 1)|
    ensures run[n+1].relays[id].hits == |StormsSince(run, acts, id, n + 1)|
  {
    TotalStep(c, run[n], acts[n], id);
    SinceStep(run, acts, id, n);
  }

  /** In every run a listed relay's counters are the responses, and the 429s among them, reported since it was listed. */
  lemma {:induction false} TotalsCountResponses(c: Config, run: seq<Sys>, acts: seq<Action>, id: string, n: nat)
    requires Run(c, run, acts) && run[0] == INIT && n <= |acts| && id in run[n].relays
    ensures run[n].relays[id].total == |Since(run, acts, id, n)|
    ensures run[n].relays[id].hits == |StormsSince(run, acts, id, n)|
  {
    if n == 0 {
    } else {
      var k := n - 1;
      assert Enabled(c, run[k], acts[k]) && run[k+1] == Next(c, run[k], acts[k]);
      if id in run[k].relays {
        TotalsCountResponses(c, run, acts, id, k);
      }
      TotalsOneMore(c, run, acts, id, k);
    }
  }

  // ---- the window ----

  /** The 429 of step `j` is still remembered after `n` steps: the relay stayed listed and nothing forgot or pruned it. */
  ghost predicate Remembered(c: Config, run: seq<Sys>, acts: seq<Action>, id: string, j: int, n: nat)
    requires 0 <= j < n <= |acts| && |run| == |acts| + 1
  {
    && Storms(run[j], acts[j], id) && Listed(run, id, j, n)
    && (forall k :: j < k < n ==> !Forgets(run[k], acts[k], id))
    && (forall k :: j <= k < n && Prunes(run[k], acts[k], id) ==> acts[j].env.stamp > acts[k].env.now - c.span)
  }

  /** Those dated `x`. */
  ghost function RememberedAt(c: Config, run: seq<Sys>, acts: seq<Action>, id: string, n: nat, x: int): set<int>
    requires n <= |acts| && |run| == |acts| + 1
  {
    set j | 0 <= j < n && Remembered(c, run, acts, id, j, n) && acts[j].env.stamp == x
  }

  lemma RememberedOneMore(c: Config, run: seq<Sys>, acts: seq<Action>, id: string, j: int, n: nat)
    requires 0 <= j < n < |acts| && |run| == |acts| + 1 && id in run[n+1].relays
    ensures Remembered(c, run, acts, id, j, n + 1) <==>
              && Remembered(c, run, acts, id, j, n) && !Forgets(run[n], acts[n], id)
              && (Prunes(run[n], acts[n], id) ==> acts[j].env.stamp > Cutoff(c, acts[n]))
  {
    ListedOneMore(run, id, j, n);
  }

  lemma RememberedNow(c: Config, run: seq<Sys>, acts: seq<Action>, id: string, n: nat)
    requires n < |acts| && |run| == |acts| + 1 && id in run[n+1].relays && id in run[n].relays
    ensures Remembered(c, run, acts, id, n, n + 1) <==>
              Storms(run[n], acts[n], id) && acts[n].env.stamp > Cutoff(c, acts[n])
  {
  }

  /** What a step makes of the remembered 429s of one date. */
  lemma RememberedStep(c: Config, run: seq<Sys>, acts: seq<Action>, id: string, n: nat, x: int)
    requires n < |acts| && |run| == |acts| + 1 && id in run[n+1].relays && id in run[n].relays
    ensures var before, a := RememberedAt(c, run, acts, id, n, x), acts[n];
            RememberedAt(c, run, acts, id, n + 1, x) ==
            if Forgets(run[n], a, id) || (Prunes(run[n], a, id) && x <= Cutoff(c, a)) then {}
            else if Storms(run[n], a, id) && a.env.stamp == x then before + {n} else before
  {
    forall j | 0 <= j < n ensures Remembered(c, run, acts, id, j, n + 1) <==>
              && Remembered(c, run, acts, id, j, n) && !Forgets(run[n], acts[n], id)
              && (Prunes(run[n], acts[n], id) ==> acts[j].env.stamp > Cutoff(c, acts[n]))
    {
      RememberedOneMore(c, run, acts, id, j, n);
    }
    RememberedNow(c, run, acts, id, n);
  }

  lemma OneMoreTime(w: seq<int>, y: int, x: int)
    ensures multiset(w + [y])[x] == multiset(w)[x] + if x == y then 1 else 0
  {
  }

  lemma WindowCounts(c: Config, s: Sys, a: Action, id: string, x: int)
    requires Enabled(c, s, a) && id in Next(c, s, a).relays && id in s.relays
    ensures var before := multiset(s.relays[id].window)[x];
            multiset(Next(c, s, a).relays[id].window)[x] ==
            if Forgets(s, a, id) || (Prunes(s, a, id) && x <= Cutoff(c, a)) then 0
            else if Storms(s, a, id) && a.env.stamp == x then before + 1 else before
  {
    WindowStep(c, s, a, id);
    var w := s.relays[id].window;
    if Prunes(s, a, id) {
      if Storms(s, a, id) {
        OneMoreTime(w, a.env.stamp, x);
        WithinCounts(w + [a.env.stamp], Cutoff(c, a), x);
      } else {
        WithinCounts(w, Cutoff(c, a), x);
      }
    }
  }

  lemma WindowOneMore(c: Config, run: seq<Sys>, acts: seq<Action>, id: string, n: nat, x: int)
    requires n < |acts| && |run| == |acts| + 1 && Enabled(c, run[n], acts[n]) && run[n+1] == Next(c, run[n], acts[n])
    requires id in run[n+1].relays && id in run[n].relays
    requires multiset(run[n].relays[id].window)[x] == |RememberedAt(c, run, acts, id, n, x)|
    ensures multiset(run[n+1].relays[id].window)[x] == |RememberedAt(c, run, acts, id, n + 1, x)|
  {
    RememberedStep(c, run, acts, id, n, x);
    WindowCounts(c, run[n], acts[n], id, x);
  }

  /** In every run a listed relay's window holds each date as often as there are remembered 429s of it. */
  lemma {:induction false} WindowRemembers(c: Config, run: seq<Sys>, acts: seq<Action>, id: string, n: nat, x: int)
    requires Run(c, run, acts) && run[0] == INIT && n <= |acts| && id in run[n].relays
    ensures multiset(run[n].relays[id].window)[x] == |RememberedAt(c, run, acts, id, n, x)|
  {
    if n == 0 {
    } else {
      var k := n - 1;
      assert Enabled(c, run[k], acts[k]) && run[k+1] == Next(c, run[k], acts[k]);
      if id in run[k].relays {
        WindowRemembers(c, run, acts, id, k, x);
        WindowOneMore(c, run, acts, id, k, x);
      } else {
        TotalStep(c, run[k], acts[k], id);
        Unlisted(c, run, acts, id, n, x);
      }
    }
  }

  lemma Unlisted(c: Config, run: seq<Sys>, acts: seq<Action>, id: string, n: nat, x: int)
    requires 0 < n <= |acts| && |run| == |acts| + 1 && id !in run[n-1].relays
    ensures RememberedAt(c, run, acts, id, n, x) == {}
  {
    forall j | 0 <= j < n ensures !Remembered(c, run, acts, id, j, n) {
      NotListed(run, id, j, n);
    }
  }

  lemma NotListed(run: seq<Sys>, id: string, j: int, n: nat)
    requires 0 <= j < n < |run| && id !in run[n-1].relays
    ensures !Listed(run, id, j, n)
  {
  }
}
