/**
  The relay fleet: per-relay health and 429 state, peer updates, and the
  weighted selection.  Weights and the random draw are reals; the order in
  which the relay map is iterated is a parameter.
 */
module Fleet {
  import opened Wrappers

  datatype Peer = Peer(id: string, endpoint: string, provider: string, state: string, token: string)

  /** Why a relay was marked draining. */
  datatype Reason = ConsecutiveProbes | StormRate

  datatype Entry = Entry(
    peer: Peer,
    failures: nat,          // consecutive failed health checks
    successes: nat,         // consecutive passed health checks
    window: seq<int>,       // times of recent 429 responses
    probes: nat,            // consecutive 429 probes
    draining: Option<Reason>,
    total: nat,
    hits: nat,              // 429 responses ever
    streams: nat)

  type Relays = map<string, Entry>

  function NewEntry(p: Peer): Entry {
    Entry(p, 0, 0, [], 0, None, 0, 0, 0)
  }

  datatype Thresholds = Thresholds(unhealthy: int, healthy: int)

  function HealthState(e: Entry, t: Thresholds): string {
    if e.peer.state == "draining" then "draining"
    else if e.failures >= t.unhealthy then "unhealthy"
    else if t.healthy > 0 && e.successes >= t.healthy then "healthy"
    else e.peer.state
  }

  predicate Eligible(e: Entry, t: Thresholds) {
    e.peer.state != "draining" && HealthState(e, t) != "unhealthy" && e.draining.None?
  }

  function RelayWeight(provider: string, peerState: string, healthState: string): real {
    if healthState == "unhealthy" then 0.0
    else
      var w := if provider == "aws" then 1000.0 else if provider == "oci" then 100.0 else 1.0;
      if peerState == "suspect" || healthState == "suspect" then w * 0.1 else w
  }

  function WeightOf(e: Entry, t: Thresholds): real {
    RelayWeight(e.peer.provider, e.peer.state, HealthState(e, t))
  }

  /**
    Who decides a relay's state: the controller if it drains the relay, then a
    streak of failures, then one of successes if there is a threshold for it,
    and the controller again in all other cases.
   */
  lemma HealthExactly(e: Entry, t: Thresholds)
    ensures e.peer.state == "draining" ==> HealthState(e, t) == "draining"
    ensures e.peer.state != "draining" && t.unhealthy <= e.failures ==> HealthState(e, t) == "unhealthy"
    ensures e.peer.state != "draining" && e.failures < t.unhealthy && 0 < t.healthy <= e.successes ==>
              HealthState(e, t) == "healthy"
    ensures e.failures < t.unhealthy && (t.healthy <= 0 || e.successes < t.healthy) ==> HealthState(e, t) == e.peer.state
    ensures Eligible(e, t) <==> HealthState(e, t) !in {"draining", "unhealthy"} && e.draining == None
  {
  }

  /** The controller or the health checks suspect this relay. */
  predicate Suspicious(e: Entry, t: Thresholds) {
    e.peer.state == "suspect" || HealthState(e, t) == "suspect"
  }

  /** Weights, exactly: AWS ten times OCI, OCI a hundred times any other, a suspect a tenth of its like, an unhealthy relay nothing. */
  lemma WeightsExactly(e: Entry, o: Entry, t: Thresholds)
    ensures WeightOf(e, t) == 0.0 <==> HealthState(e, t) == "unhealthy"
    ensures HealthState(e, t) != "unhealthy" && HealthState(o, t) != "unhealthy" ==>
              && (e.peer.provider == o.peer.provider && Suspicious(e, t) && !Suspicious(o, t) ==>
                    10.0 * WeightOf(e, t) == WeightOf(o, t))
              && (Suspicious(e, t) == Suspicious(o, t) ==>
                    && (e.peer.provider == o.peer.provider ==> WeightOf(e, t) == WeightOf(o, t))
                    && (e.peer.provider == "aws" && o.peer.provider == "oci" ==> WeightOf(e, t) == 10.0 * WeightOf(o, t))
                    && (e.peer.provider == "oci" && o.peer.provider !in {"aws", "oci"} ==>
                          WeightOf(e, t) == 100.0 * WeightOf(o, t)))
  {
  }

  // ---- peer updates ----

  /** The last entry of the peer list with this ID. */
  function LastPeer(peers: seq<Peer>, id: string): Option<Peer> {
    if peers == [] then None
    else if peers[|peers|-1].id == id then Some(peers[|peers|-1])
    else LastPeer(peers[..|peers|-1], id)
  }

  function IDs(peers: seq<Peer>): set<string> {
    set p | p in peers :: p.id
  }

  lemma {:induction false} LastPeerIs(peers: seq<Peer>, id: string)
    ensures LastPeer(peers, id).Some? <==> id in IDs(peers)
    ensures LastPeer(peers, id).Some? ==> LastPeer(peers, id).value.id == id
  {
    if peers == [] {
    } else {
      var n := |peers| - 1;
      LastPeerIs(peers[..n], id);
      assert peers == peers[..n] + [peers[n]];
      assert IDs(peers) == IDs(peers[..n]) + {peers[n].id};
    }
  }

  /** Kept relays keep all their state and take the new peer record; new ones start empty. */
  function Updated(relays: Relays, peers: seq<Peer>): Relays {
    map id | id in IDs(peers) ::
      LastPeerIs(peers, id);
      var p := LastPeer(peers, id).value;
      if id in relays then relays[id].(peer := p) else NewEntry(p)
  }

  function Put(relays: Relays, p: Peer): Relays {
    relays[p.id := if p.id in relays then relays[p.id].(peer := p) else NewEntry(p)]
  }

  function PutAll(relays: Relays, peers: seq<Peer>): Relays {
    if peers == [] then relays else Put(PutAll(relays, peers[..|peers|-1]), peers[|peers|-1])
  }

  lemma {:induction false} PutAllAt(relays: Relays, peers: seq<Peer>, id: string)
    ensures id in PutAll(relays, peers) <==> id in relays || LastPeer(peers, id).Some?
    ensures LastPeer(peers, id).Some? ==>
              PutAll(relays, peers)[id] ==
              if id in relays then relays[id].(peer := LastPeer(peers, id).value) else NewEntry(LastPeer(peers, id).value)
    ensures LastPeer(peers, id).None? && id in relays ==> PutAll(relays, peers)[id] == relays[id]
  {
    if peers == [] {
    } else {
      PutAllAt(relays, peers[..|peers|-1], id);
    }
  }

  /** Dropping the unlisted relays after all listed ones are put leaves the update. */
  lemma KeptAreUpdated(relays: Relays, peers: seq<Peer>)
    ensures var all := PutAll(relays, peers);
            (map id | id in all && id in IDs(peers) :: all[id]) == Updated(relays, peers)
  {
    var all := PutAll(relays, peers);
    forall id | id in IDs(peers) ensures id in all && all[id] == Updated(relays, peers)[id] {
      LastPeerIs(peers, id);
      PutAllAt(relays, peers, id);
    }
  }

  // ---- 429 state ----

  function Within(window: seq<int>, cutoff: int): seq<int> {
    if window == [] then []
    else
      var n := |window| - 1;
      if window[n] > cutoff then Within(window[..n], cutoff) + [window[n]] else Within(window[..n], cutoff)
  }

  /** Pruning keeps exactly the times after the cutoff, each as often as before. */
  lemma {:induction false} WithinCounts(window: seq<int>, cutoff: int, x: int)
    ensures multiset(Within(window, cutoff))[x] == if x > cutoff then multiset(window)[x] else 0
  {
    if window == [] {
    } else {
      WithinCounts(window[..|window|-1], cutoff, x);
      assert window == window[..|window|-1] + [window[|window|-1]];
    }
  }

  /** One request counted; a 429 is dated `stamp`, and the window pruned at `now`. */
  function Recorded(relays: Relays, id: string, status: int, stamp: int, now: int, span: int): Relays {
    if id !in relays then relays
    else
      var e := relays[id];
      if status == 429 then relays[id := e.(total := e.total + 1, hits := e.hits + 1, window := Within(e.window + [stamp], now - span))]
      else relays[id := e.(total := e.total + 1)]
  }

  function Cleared(relays: Relays, id: string): Relays {
    if id in relays then relays[id := relays[id].(probes := 0, draining := None, window := [])] else relays
  }

  function Suspected(relays: Relays, id: string): Relays {
    if id in relays then relays[id := relays[id].(probes := relays[id].probes + 1)] else relays
  }

  function Drained(relays: Relays, id: string, why: Reason): Relays {
    if id in relays then relays[id := relays[id].(draining := Some(why))] else relays
  }

  function Pruned(relays: Relays, id: string, now: int, span: int): Relays {
    if id in relays then relays[id := relays[id].(window := Within(relays[id].window, now - span))] else relays
  }

  function Checked(relays: Relays, id: string, ok: bool): Relays {
    if id !in relays then relays
    else if ok then relays[id := relays[id].(failures := 0, successes := relays[id].successes + 1)]
    else relays[id := relays[id].(failures := relays[id].failures + 1, successes := 0)]
  }

  function Opened(relays: Relays, id: string): Relays {
    if id in relays then relays[id := relays[id].(streams := relays[id].streams + 1)] else relays
  }

  function Closed(relays: Relays, id: string): Relays {
    if id !in relays then relays
    else relays[id := relays[id].(streams := if relays[id].streams > 0 then relays[id].streams - 1 else 0)]
  }

  /** 429s in the window over all requests ever made, and the probe count. */
  function Rate(relays: Relays, id: string): (real, nat) {
    if id !in relays then (0.0, 0)
    else
      var e := relays[id];
      (if e.total > 0 then |e.window| as real / e.total as real else 0.0, e.probes)
  }

  /** Only relay `id` may differ. */
  ghost predicate Elsewhere(a: Relays, b: Relays, id: string) {
    a.Keys == b.Keys && forall o :: o in a && o != id ==> a[o] == b[o]
  }

  ghost predicate SameEligible(a: Relays, b: Relays, t: Thresholds) {
    a.Keys == b.Keys && forall o :: o in a ==> Eligible(a[o], t) == Eligible(b[o], t)
  }

  /** No relay has a streak of failures and one of successes at once. */
  ghost predicate OneStreak(relays: Relays) {
    forall id :: id in relays ==> relays[id].failures == 0 || relays[id].successes == 0
  }

  /** What still decides once a check has passed: the controller's state, the 429 mark, and the healthy streak. */
  predicate Passing(e: Entry, t: Thresholds) {
    && e.peer.state != "draining" && e.draining.None?
    && (e.peer.state != "unhealthy" || (t.healthy > 0 && e.successes >= t.healthy))
  }

  function Checks(relays: Relays, id: string, ok: bool, k: nat): (r: Relays)
    ensures r.Keys == relays.Keys
  {
    if k == 0 then relays else Checked(Checks(relays, id, ok, k - 1), id, ok)
  }

  lemma {:induction false} StreakGrows(relays: Relays, id: string, ok: bool, k: nat)
    requires id in relays && k > 0
    ensures id in Checks(relays, id, ok, k) && Checks(relays, id, ok, k)[id].peer == relays[id].peer
    ensures Checks(relays, id, ok, k)[id].draining == relays[id].draining
    ensures if ok then Checks(relays, id, ok, k)[id].failures == 0 && Checks(relays, id, ok, k)[id].successes >= k
            else Checks(relays, id, ok, k)[id].successes == 0 && Checks(relays, id, ok, k)[id].failures >= k
  {
    if k == 1 {
      assert Checks(relays, id, ok, 0) == relays;
    } else {
      StreakGrows(relays, id, ok, k - 1);
    }
  }

  /**
    From any state, a threshold's worth of failed checks in a row takes a relay out, and a
    threshold's worth of passed ones brings it back whatever state the controller last wrote,
    unless that is draining or the relay carries the 429 mark.
   */
  lemma StreaksDecide(relays: Relays, id: string, t: Thresholds, k: nat)
    requires id in relays && k > 0 && t.unhealthy > 0
    ensures k >= t.unhealthy ==> !Eligible(Checks(relays, id, false, k)[id], t)
    ensures t.healthy > 0 && k >= t.healthy ==>
              (Eligible(Checks(relays, id, true, k)[id], t)
               <==> relays[id].peer.state != "draining" && relays[id].draining.None?)
  {
    StreakGrows(relays, id, false, k);
    StreakGrows(relays, id, true, k);
  }

  // ---- selection ----

  predicate HasProvider(es: seq<Entry>, provider: string) {
    exists i :: 0 <= i < |es| && es[i].peer.provider == provider
  }

  /** The tiers: AWS alone if it has an eligible relay, else no GCP beside OCI. */
  predicate InTier(e: Entry, es: seq<Entry>) {
    && (HasProvider(es, "aws") ==> e.peer.provider == "aws")
    && (HasProvider(es, "oci") ==> e.peer.provider != "gcp")
  }

  function Chosen(es: seq<Entry>, all: seq<Entry>): seq<Entry> {
    if es == [] then []
    else
      var n := |es| - 1;
      if InTier(es[n], all) then Chosen(es[..n], all) + [es[n]] else Chosen(es[..n], all)
  }

  function Weights(es: seq<Entry>, t: Thresholds): (ws: seq<real>)
    ensures |ws| == |es|
  {
    seq(|es|, i requires 0 <= i < |es| => WeightOf(es[i], t))
  }

  predicate Positive(ws: seq<real>) {
    forall k :: 0 <= k < |ws| ==> ws[k] > 0.0
  }

  /** Sum of the first `n` weights. */
  function Cumulative(ws: seq<real>, n: nat): real
    requires n <= |ws|
  {
    if n == 0 then 0.0 else Cumulative(ws, n - 1) + ws[n-1]
  }

  function Total(ws: seq<real>): real {
    Cumulative(ws, |ws|)
  }

  /** The draw, scaled to the total weight. */
  function Point(ws: seq<real>, draw: real): real {
    Times(draw, Total(ws))
  }

  function Times(x: real, y: real): real {
    x * y
  }

  /** The scaled draw lies in candidate `i`'s interval of the cumulative weights. */
  predicate InSlot(ws: seq<real>, i: nat, r: real)
    requires i < |ws|
  {
    (i == 0 || Cumulative(ws, i) < r) && r <= Cumulative(ws, i + 1)
  }

  /** The draw falls in the interval of a candidate with peer record `p`. */
  ghost predicate Drawn(cs: seq<Entry>, t: Thresholds, draw: real, p: Peer) {
    var ws := Weights(cs, t);
    exists i :: 0 <= i < |cs| && cs[i].peer == p && InSlot(ws, i, Point(ws, draw))
  }

  function EligibleOf(relays: Relays, t: Thresholds, order: seq<string>): seq<Entry>
    requires forall i :: 0 <= i < |order| ==> order[i] in relays
  {
    if order == [] then []
    else
      var n := |order| - 1;
      var e := relays[order[n]];
      if Eligible(e, t) then EligibleOf(relays, t, order[..n]) + [e] else EligibleOf(relays, t, order[..n])
  }

  /** `order` is one way of iterating the relay map. */
  ghost predicate Iterates(order: seq<string>, relays: Relays) {
    && (forall i :: 0 <= i < |order| ==> order[i] in relays)
    && (forall id :: id in relays ==> id in order)
  }

  function Candidates(relays: Relays, t: Thresholds, order: seq<string>): seq<Entry>
    requires forall i :: 0 <= i < |order| ==> order[i] in relays
  {
    var es := EligibleOf(relays, t, order);
    Chosen(es, es)
  }

  lemma {:induction false} EligibleMeans(relays: Relays, t: Thresholds, order: seq<string>)
    requires forall i :: 0 <= i < |order| ==> order[i] in relays
    ensures forall e :: e in EligibleOf(relays, t, order) <==>
              exists i :: 0 <= i < |order| && relays[order[i]] == e && Eligible(e, t)
  {
    if order == [] {
    } else {
      var n := |order| - 1;
      EligibleMeans(relays, t, order[..n]);
      assert forall i :: 0 <= i < n ==> order[..n][i] == order[i];
    }
  }

  lemma EligibleFacts(relays: Relays, t: Thresholds, order: seq<string>)
    requires Iterates(order, relays)
    ensures forall e :: e in EligibleOf(relays, t, order) ==> Eligible(e, t)
    ensures EligibleOf(relays, t, order) != [] <==> exists id :: id in relays && Eligible(relays[id], t)
  {
    var es := EligibleOf(relays, t, order);
    EligibleMeans(relays, t, order);
    if es != [] {
      assert es[0] in es;
    }
    if id :| id in relays && Eligible(relays[id], t) {
      assert relays[id] in es;
    }
  }

  lemma {:induction false} ChosenMeans(es: seq<Entry>, all: seq<Entry>)
    ensures forall e :: e in Chosen(es, all) <==> e in es && InTier(e, all)
  {
    if es == [] {
    } else {
      var n := |es| - 1;
      ChosenMeans(es[..n], all);
      assert es == es[..n] + [es[n]];
    }
  }

  /** Some eligible relay is always in its tier. */
  lemma TierNotEmpty(es: seq<Entry>)
    requires es != []
    ensures Chosen(es, es) != []
  {
    ChosenMeans(es, es);
    var e := es[0];
    if HasProvider(es, "aws") {
      var i :| 0 <= i < |es| && es[i].peer.provider == "aws";
      e := es[i];
    } else if HasProvider(es, "oci") {
      var i :| 0 <= i < |es| && es[i].peer.provider == "oci";
      e := es[i];
    }
    assert e in es && InTier(e, es);
  }

  lemma EligibleWeighs(e: Entry, t: Thresholds)
    requires Eligible(e, t)
    ensures WeightOf(e, t) > 0.0
  {
  }

  lemma {:induction false} CumulativeGrows(ws: seq<real>, i: nat, j: nat)
    requires i <= j <= |ws| && Positive(ws)
    ensures if i < j then Cumulative(ws, i) < Cumulative(ws, j) else Cumulative(ws, i) == Cumulative(ws, j)
    decreases j
  {
    if i == j {
    } else {
      CumulativeGrows(ws, i, j - 1);
    }
  }

  lemma {:induction false} CumulativeExtends(ws: seq<real>, w: real, n: nat)
    requires n <= |ws|
    ensures Cumulative(ws + [w], n) == Cumulative(ws, n)
  {
    if n == 0 {
    } else {
      CumulativeExtends(ws, w, n - 1);
    }
  }

  lemma WeightsGrow(cs: seq<Entry>, e: Entry, ws: seq<real>, w: real, t: Thresholds)
    requires ws == Weights(cs, t) && w == WeightOf(e, t)
    ensures ws + [w] == Weights(cs + [e], t) && Total(ws + [w]) == Total(ws) + w
  {
    CumulativeExtends(ws, w, |ws|);
  }

  lemma TotalPositive(ws: seq<real>)
    requires ws != [] && Positive(ws)
    ensures Total(ws) > 0.0
  {
    CumulativeGrows(ws, 0, |ws|);
  }

  lemma Scaled(draw: real, total: real)
    requires 0.0 <= draw < 1.0 && total > 0.0
    ensures 0.0 <= Times(draw, total) < total
  {
  }

  lemma DrawnHere(cs: seq<Entry>, t: Thresholds, ws: seq<real>, draw: real, i: nat)
    requires i < |cs| && ws == Weights(cs, t) && InSlot(ws, i, Point(ws, draw))
    ensures Drawn(cs, t, draw, cs[i].peer)
  {
    var p := cs[i].peer;
    assert cs[i].peer == p && InSlot(Weights(cs, t), i, Point(Weights(cs, t), draw));
  }

  /** A draw lies in at most one interval. */
  lemma SlotIsUnique(ws: seq<real>, i: nat, j: nat, r: real)
    requires i < |ws| && j < |ws| && Positive(ws)
    requires InSlot(ws, i, r) && InSlot(ws, j, r)
    ensures i == j
  {
    if i < j {
      CumulativeGrows(ws, i + 1, j);
    } else if j < i {
      CumulativeGrows(ws, j + 1, i);
    }
  }

  /** Every candidate's share of the draws is its weight over the total weight. */
  lemma SharesAreWeights(ws: seq<real>, i: nat, draw: real)
    requires i < |ws| && Positive(ws)
    ensures Total(ws) > 0.0
    ensures InSlot(ws, i, Point(ws, draw)) <==>
              (i == 0 || Cumulative(ws, i) / Total(ws) < draw) && draw <= Cumulative(ws, i + 1) / Total(ws)
    ensures Cumulative(ws, i + 1) / Total(ws) - Cumulative(ws, i) / Total(ws) == ws[i] / Total(ws)
  {
    CumulativeGrows(ws, 0, |ws|);
    Scales(Cumulative(ws, i), draw, Total(ws));
    Scales(Cumulative(ws, i + 1), draw, Total(ws));
  }

  /** The length of the interval of draws that select candidate `i`. */
  function Share(ws: seq<real>, i: nat): real
    requires i < |ws| && Total(ws) != 0.0
  {
    Cumulative(ws, i + 1) / Total(ws) - Cumulative(ws, i) / Total(ws)
  }

  /** Among the candidates a suspect relay is drawn a tenth as often as a trusted one of its provider. */
  lemma SuspectsAreDrawnATenth(cs: seq<Entry>, t: Thresholds, i: nat, j: nat)
    requires i < |cs| && j < |cs| && (forall e :: e in cs ==> Eligible(e, t))
    requires cs[i].peer.provider == cs[j].peer.provider && Suspicious(cs[i], t) && !Suspicious(cs[j], t)
    ensures Total(Weights(cs, t)) > 0.0 && 10.0 * Share(Weights(cs, t), i) == Share(Weights(cs, t), j)
  {
    var ws := Weights(cs, t);
    forall k | 0 <= k < |cs| ensures ws[k] > 0.0 {
      EligibleWeighs(cs[k], t);
    }
    SharesAreWeights(ws, i, 0.0);
    SharesAreWeights(ws, j, 0.0);
    assert cs[i] in cs && cs[j] in cs;
    WeightsExactly(cs[i], cs[j], t);
    Tenth(ws[i], ws[j], Total(ws));
  }

  lemma Tenth(a: real, b: real, total: real)
    requires total > 0.0 && 10.0 * a == b
    ensures 10.0 * (a / total) == b / total
  {
    var q := a / total;
    assert q * total == a;
    assert (10.0 * q) * total == b;
  }

  lemma Scales(c: real, draw: real, total: real)
    requires total > 0.0
    ensures c < draw * total <==> c / total < draw
  {
    var q := c / total;
    assert q * total == c;
    if q < draw {
      assert (draw - q) * total > 0.0;
    } else {
      assert (q - draw) * total >= 0.0;
    }
  }

  lemma ChosenWeigh(es: seq<Entry>, t: Thresholds)
    requires forall e :: e in es ==> Eligible(e, t)
    ensures Positive(Weights(Chosen(es, es), t))
  {
    ChosenMeans(es, es);
    var cs := Chosen(es, es);
    forall k | 0 <= k < |cs| ensures WeightOf(cs[k], t) > 0.0 {
      assert cs[k] in cs;
      EligibleWeighs(cs[k], t);
    }
  }

  /** Exactly which relays can be picked: the eligible ones, AWS alone if there is one, no GCP beside OCI. */
  lemma CandidatesExactly(relays: Relays, t: Thresholds, order: seq<string>, e: Entry)
    requires Iterates(order, relays)
    ensures e in Candidates(relays, t, order) <==>
              && (exists id :: id in relays && relays[id] == e && Eligible(e, t))
              && (e.peer.provider != "aws" ==>
                    forall id :: id in relays && Eligible(relays[id], t) ==> relays[id].peer.provider != "aws")
              && (e.peer.provider == "gcp" ==>
                    forall id :: id in relays && Eligible(relays[id], t) ==> relays[id].peer.provider != "oci")
  {
    var es := EligibleOf(relays, t, order);
    EligibleMeans(relays, t, order);
    ChosenMeans(es, es);
    ProviderMeans(relays, t, order, "aws");
    ProviderMeans(relays, t, order, "oci");
  }

  lemma ProviderMeans(relays: Relays, t: Thresholds, order: seq<string>, provider: string)
    requires Iterates(order, relays)
    ensures HasProvider(EligibleOf(relays, t, order), provider) <==>
              exists id :: id in relays && Eligible(relays[id], t) && relays[id].peer.provider == provider
  {
    var es := EligibleOf(relays, t, order);
    EligibleMeans(relays, t, order);
    if HasProvider(es, provider) {
      var i :| 0 <= i < |es| && es[i].peer.provider == provider;
      assert es[i] in es;
    }
    if id :| id in relays && Eligible(relays[id], t) && relays[id].peer.provider == provider {
      assert relays[id] in es;
    }
  }

  class RelayFleet {
    const thresholds: Thresholds
    const span: int            // the 429 detection window
    var relays: Relays

    constructor (thresholds: Thresholds, span: int)
      ensures this.thresholds == thresholds && this.span == span && relays == map[]
    {
      this.thresholds := thresholds;
      this.span := span;
      relays := map[];
    }

    method UpdatePeers(peers: seq<Peer>)
      modifies this
      ensures relays == Updated(old(relays), peers)
    {
      ghost var before := relays;
      var newSet: set<string> := {};
      for i := 0 to |peers|
        invariant newSet == IDs(peers[..i])
        invariant relays == PutAll(before, peers[..i])
      {
        var p := peers[i];
        assert peers[..i+1] == peers[..i] + [p] && peers[..i+1][..i] == peers[..i];
        newSet := newSet + {p.id};
        if p.id in relays {
          relays := relays[p.id := relays[p.id].(peer := p)];
        } else {
          relays := relays[p.id := NewEntry(p)];
        }
      }
      assert peers[..|peers|] == peers;
      KeptAreUpdated(before, peers);
      relays := map id | id in relays && id in newSet :: relays[id];
    }

    method HasHealthyRelay(order: seq<string>) returns (ok: bool)
      requires Iterates(order, relays)
      ensures ok <==> exists id :: id in relays && Eligible(relays[id], thresholds)
    {
      var es := EligibleRelays(order);
      ok := |es| > 0;
    }

    method EligibleRelays(order: seq<string>) returns (es: seq<Entry>)
      requires Iterates(order, relays)
      ensures es == EligibleOf(relays, thresholds, order)
      ensures forall e :: e in es ==> Eligible(e, thresholds)
      ensures es != [] <==> exists id :: id in relays && Eligible(relays[id], thresholds)
    {
      es := [];
      for i := 0 to |order|
        invariant es == EligibleOf(relays, thresholds, order[..i])
      {
        assert order[..i+1][..i] == order[..i];
        if Eligible(relays[order[i]], thresholds) {
          es := es + [relays[order[i]]];
        }
      }
      assert order[..|order|] == order;
      EligibleFacts(relays, thresholds, order);
    }

    /** Weighted random selection; `draw` is the generator's next value. */
    method SelectRelay(order: seq<string>, draw: real) returns (res: Option<Peer>)
      requires Iterates(order, relays) && 0.0 <= draw < 1.0
      ensures res.Some? <==> exists id :: id in relays && Eligible(relays[id], thresholds)
      ensures res.Some? ==> Drawn(Candidates(relays, thresholds, order), thresholds, draw, res.value)
    {
      var eligible := EligibleRelays(order);
      if |eligible| == 0 {
        return None;
      }
      var p := Choose(eligible, draw);
      return Some(p);
    }

    method Choose(eligible: seq<Entry>, draw: real) returns (p: Peer)
      requires eligible != [] && 0.0 <= draw < 1.0
      requires forall e :: e in eligible ==> Eligible(e, thresholds)
      ensures Drawn(Chosen(eligible, eligible), thresholds, draw, p)
    {
      TierNotEmpty(eligible);
      ChosenWeigh(eligible, thresholds);
      var cs, ws, total := Weigh(eligible);
      p := ChooseFrom(cs, ws, total, draw);
    }

    method ChooseFrom(cs: seq<Entry>, ws: seq<real>, total: real, draw: real) returns (p: Peer)
      requires cs != [] && ws == Weights(cs, thresholds) && Positive(ws) && total == Total(ws) && 0.0 <= draw < 1.0
      ensures Drawn(cs, thresholds, draw, p)
    {
      TotalPositive(ws);
      Scaled(draw, total);
      var i := Pick(ws, total, Times(draw, total));
      DrawnHere(cs, thresholds, ws, draw, i);
      p := cs[i].peer;
    }

    /** The first candidate whose cumulative weight reaches the scaled draw, else the last. */
    static method Pick(ws: seq<real>, ghost total: real, r: real) returns (i: nat)
      requires ws != [] && total == Total(ws) && 0.0 <= r < total
      ensures i < |ws| && InSlot(ws, i, r)
    {
      i := |ws| - 1;
      var cumulative := 0.0;
      for k := 0 to |ws|
        invariant i == |ws| - 1
        invariant cumulative == Cumulative(ws, k)
        invariant k == 0 || cumulative < r
      {
        cumulative := cumulative + ws[k];
        if r <= cumulative {
          i := k;
          break;
        }
      }
    }

    /** The candidates of the best tier, their weights and the total weight. */
    method Weigh(eligible: seq<Entry>) returns (cs: seq<Entry>, ws: seq<real>, total: real)
      requires forall e :: e in eligible ==> Eligible(e, thresholds)
      ensures cs == Chosen(eligible, eligible) && ws == Weights(cs, thresholds) && total == Total(ws)
    {
      var hasAWS := HasProvider(eligible, "aws");
      var hasOCI := !hasAWS && HasProvider(eligible, "oci");
      cs, ws, total := [], [], 0.0;
      for i := 0 to |eligible|
        invariant cs == Chosen(eligible[..i], eligible) && ws == Weights(cs, thresholds) && total == Total(ws)
      {
        assert eligible[..i+1][..i] == eligible[..i];
        assert eligible[i] in eligible;
        var w := TierWeight(eligible[i], hasAWS, hasOCI, eligible);
        if w > 0.0 {
          WeightsGrow(cs, eligible[i], ws, w, thresholds);
          cs, ws, total := cs + [eligible[i]], ws + [w], total + w;
        }
      }
      assert eligible[..|eligible|] == eligible;
    }

    /** A relay's weight, or zero outside the best tier. */
    method TierWeight(e: Entry, hasAWS: bool, hasOCI: bool, ghost eligible: seq<Entry>) returns (w: real)
      requires Eligible(e, thresholds) && hasAWS == HasProvider(eligible, "aws")
      requires hasOCI == (!hasAWS && HasProvider(eligible, "oci"))
      ensures if InTier(e, eligible) then w == WeightOf(e, thresholds) && w > 0.0 else w == 0.0
    {
      EligibleWeighs(e, thresholds);
      w := WeightOf(e, thresholds);
      if hasAWS && e.peer.provider != "aws" {
        w := 0.0;
      } else if hasOCI && e.peer.provider == "gcp" {
        w := 0.0;
      }
    }

    static method Prune(window: seq<int>, cutoff: int) returns (filtered: seq<int>)
      ensures filtered == Within(window, cutoff)
    {
      filtered := [];
      for i := 0 to |window|
        invariant filtered == Within(window[..i], cutoff)
      {
        assert window[..i+1][..i] == window[..i];
        if window[i] > cutoff {
          filtered := filtered + [window[i]];
        }
      }
      assert window[..|window|] == window;
    }

    method RecordRequest(id: string, status: int, stamp: int, now: int)
      modifies this
      ensures relays == Recorded(old(relays), id, status, stamp, now, span)
    {
      if id in relays {
        var e := relays[id].(total := relays[id].total + 1);
        if status == 429 {
          var window := Prune(e.window + [stamp], now - span);
          e := e.(hits := e.hits + 1, window := window);
        }
        relays := relays[id := e];
      }
    }

    method Relay429Rate(id: string, now: int) returns (rate: real, consecutive: nat)
      modifies this
      ensures relays == Pruned(old(relays), id, now, span)
      ensures (rate, consecutive) == Rate(relays, id)
    {
      rate, consecutive := 0.0, 0;
      if id in relays {
        var window := Prune(relays[id].window, now - span);
        relays := relays[id := relays[id].(window := window)];
        if relays[id].total > 0 {
          rate := |window| as real / relays[id].total as real;
        }
        consecutive := relays[id].probes;
      }
    }

    method RecordHealthCheck(id: string, ok: bool)
      modifies this
      ensures relays == Checked(old(relays), id, ok) && Elsewhere(relays, old(relays), id)
      ensures OneStreak(old(relays)) ==> OneStreak(relays)
      ensures id in relays && !ok && relays[id].failures >= thresholds.unhealthy ==> !Eligible(relays[id], thresholds)
      ensures id in relays && ok && thresholds.unhealthy > 0 ==>
                (Eligible(relays[id], thresholds) <==> Passing(relays[id], thresholds))
    {
      if id in relays {
        var e := relays[id];
        if ok {
          relays := relays[id := e.(failures := 0, successes := e.successes + 1)];
        } else {
          relays := relays[id := e.(successes := 0, failures := e.failures + 1)];
        }
      }
    }

    method RecordStreamStart(id: string)
      modifies this
      ensures relays == Opened(old(relays), id) && Elsewhere(relays, old(relays), id)
      ensures Closed(relays, id) == old(relays)
      ensures SameEligible(relays, old(relays), thresholds)
    {
      if id in relays {
        relays := relays[id := relays[id].(streams := relays[id].streams + 1)];
      }
    }

    method RecordStreamEnd(id: string)
      modifies this
      ensures relays == Closed(old(relays), id) && Elsewhere(relays, old(relays), id)
      ensures id in old(relays) && old(relays)[id].streams > 0 ==> Opened(relays, id) == old(relays)
      ensures SameEligible(relays, old(relays), thresholds)
    {
      if id in relays {
        var streams := relays[id].streams - 1;
        if streams < 0 {
          streams := 0;
        }
        relays := relays[id := relays[id].(streams := streams)];
      }
    }

    method Mark429Draining(id: string, why: Reason)
      modifies this
      ensures relays == Drained(old(relays), id, why) && Elsewhere(relays, old(relays), id)
      ensures id in relays ==> !Eligible(relays[id], thresholds)
    {
      if id in relays {
        relays := relays[id := relays[id].(draining := Some(why))];
      }
    }

    method Mark429Suspect(id: string)
      modifies this
      ensures relays == Suspected(old(relays), id) && Elsewhere(relays, old(relays), id)
      ensures id in relays ==> Rate(relays, id) == (Rate(old(relays), id).0, Rate(old(relays), id).1 + 1)
      ensures SameEligible(relays, old(relays), thresholds)
    {
      if id in relays {
        relays := relays[id := relays[id].(probes := relays[id].probes + 1)];
      }
    }

    method Clear429State(id: string)
      modifies this
      ensures relays == Cleared(old(relays), id) && Elsewhere(relays, old(relays), id)
      ensures Rate(relays, id) == (0.0, 0)
      ensures id in relays ==>
                (Eligible(relays[id], thresholds) <==>
                 relays[id].peer.state != "draining" && HealthState(relays[id], thresholds) != "unhealthy")
    {
      if id in relays {
        relays := relays[id := relays[id].(probes := 0, draining := None, window := [])];
      }
    }
  }
}
