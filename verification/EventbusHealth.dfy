/**
  The event bus health collector: per-group gauges, the stall verdicts and the
  edge-triggered log lines, over any run of snapshots and failed probes.
 */
module EventbusHealth {
  import opened Wrappers

  const STALL_PENDING_IDLE: int := 300   // seconds
  const STALL_LAG: int := 100
  const ERR_EVERY: nat := 10

  datatype Group = Group(name: string, lag: int, pending: int, consumers: int, idle: int)

  datatype Reason = NoConsumers | StalePending | Backlog

  function Classify(g: Group): Option<Reason> {
    if g.consumers == 0 && (g.lag > 0 || g.pending > 0) then Some(NoConsumers)
    else if g.idle >= STALL_PENDING_IDLE then Some(StalePending)
    else if g.lag >= STALL_LAG then Some(Backlog)
    else None
  }

  /** No one to read what is waiting. */
  predicate Deserted(g: Group) {
    g.consumers == 0 && !(g.lag <= 0 && g.pending <= 0)
  }

  /** The verdicts, exactly: deserted first, then five minutes idle, then a lag of a hundred, else healthy. */
  lemma VerdictsExactly(g: Group)
    ensures Classify(g) == Some(NoConsumers) <==> Deserted(g)
    ensures Classify(g) == Some(StalePending) <==> !Deserted(g) && 300 <= g.idle
    ensures Classify(g) == Some(Backlog) <==> !Deserted(g) && g.idle < 300 && 100 <= g.lag
    ensures Classify(g) == None <==> !Deserted(g) && g.idle < 300 && g.lag < 100
  {
  }

  /** The exported series of one group: its raw numbers and the stalled flag. */
  datatype Gauges = Gauges(lag: int, pending: int, consumers: int, idle: int, stalled: bool)

  function GaugesOf(g: Group): Gauges {
    Gauges(g.lag, g.pending, g.consumers, g.idle, Classify(g).Some?)
  }

  datatype Log = Stalled(name: string, reason: Reason) | Recovered(name: string, previous: Reason) | ProbeFailed(streak: nat)

  datatype Health = Health(
    series: map<string, Gauges>,
    stalled: map<string, Reason>,
    seen: set<string>,
    errStreak: nat,
    logs: seq<Log>)

  const EMPTY := Health(map[], map[], {}, 0, [])

  function Last(h: Health, name: string): Option<Reason> {
    if name in h.stalled then Some(h.stalled[name]) else None
  }

  /** One group of a snapshot. */
  function Observed(h: Health, g: Group): Health {
    var shown := h.(series := h.series[g.name := GaugesOf(g)]);
    var verdict, prev := Classify(g), Last(h, g.name);
    if verdict.Some? && prev != verdict then
      shown.(stalled := h.stalled[g.name := verdict.value], logs := h.logs + [Stalled(g.name, verdict.value)])
    else if verdict.None? && prev.Some? then
      shown.(stalled := h.stalled - {g.name}, logs := h.logs + [Recovered(g.name, prev.value)])
    else shown
  }

  function ObservedAll(h: Health, groups: seq<Group>): Health {
    if groups == [] then h else Observed(ObservedAll(h, groups[..|groups|-1]), groups[|groups|-1])
  }

  function Names(groups: seq<Group>): set<string> {
    set g | g in groups :: g.name
  }

  /** One tick: a failed probe, or a snapshot whose vanished groups lose their series. */
  function Collected(h: Health, snap: Option<seq<Group>>): Health {
    match snap
    case None =>
      var streak := h.errStreak + 1;
      h.(errStreak := streak,
         logs := if streak == 1 || streak % ERR_EVERY == 0 then h.logs + [ProbeFailed(streak)] else h.logs)
    case Some(groups) =>
      var o := ObservedAll(h, groups);
      var gone := h.seen - Names(groups);
      o.(errStreak := 0, seen := Names(groups), series := o.series - gone, stalled := o.stalled - gone)
  }

  class Collector {
    var series: map<string, Gauges>
    var stalled: map<string, Reason>
    var seen: set<string>
    var errStreak: nat
    var logs: seq<Log>

    function Now(): Health
      reads this
    {
      Health(series, stalled, seen, errStreak, logs)
    }

    constructor ()
      ensures Now() == EMPTY
    {
      series, stalled, seen, errStreak, logs := map[], map[], {}, 0, [];
    }

    method Observe(g: Group)
      modifies this
      ensures Now() == Observed(old(Now()), g)
    {
      var verdict := Classify(g);
      series := series[g.name := Gauges(g.lag, g.pending, g.consumers, g.idle, verdict.Some?)];
      var prev := if g.name in stalled then Some(stalled[g.name]) else None;
      if verdict.Some? && prev != verdict {
        logs := logs + [Stalled(g.name, verdict.value)];
        stalled := stalled[g.name := verdict.value];
      } else if verdict.None? && prev.Some? {
        logs := logs + [Recovered(g.name, prev.value)];
        stalled := stalled - {g.name};
      }
    }

    method ObserveAll(groups: seq<Group>) returns (current: set<string>)
      modifies this
      ensures Now() == ObservedAll(old(Now()), groups) && current == Names(groups)
    {
      ghost var start := Now();
      current := {};
      for i := 0 to |groups|
        invariant current == Names(groups[..i])
        invariant Now() == ObservedAll(start, groups[..i])
      {
        assert groups[..i+1] == groups[..i] + [groups[i]] && groups[..i+1][..i] == groups[..i];
        current := current + {groups[i].name};
        Observe(groups[i]);
      }
      assert groups[..|groups|] == groups;
    }

    /** Groups of the last snapshot that are absent from this one lose their series and verdict. */
    method DropVanished(current: set<string>)
      modifies this
      ensures Now() == Health(old(series) - (old(seen) - current), old(stalled) - (old(seen) - current),
                              old(seen), old(errStreak), old(logs))
    {
      var todo := seen;
      while todo != {}
        invariant todo <= seen && seen == old(seen) && errStreak == old(errStreak) && logs == old(logs)
        invariant series == old(series) - ((seen - todo) - current)
        invariant stalled == old(stalled) - ((seen - todo) - current)
        decreases |todo|
      {
        assert (forall g :: g !in todo) ==> todo == {};
        var name :| name in todo;
        assert (seen - (todo - {name})) - current == ((seen - todo) - current) + ({name} - current);
        todo := todo - {name};
        if name !in current {
          series := series - {name};
          stalled := stalled - {name};
        }
      }
    }

    method Collect(snap: Option<seq<Group>>)
      modifies this
      ensures Now() == Collected(old(Now()), snap)
    {
      if snap.None? {
        errStreak := errStreak + 1;
        if errStreak == 1 || errStreak % ERR_EVERY == 0 {
          logs := logs + [ProbeFailed(errStreak)];
        }
        return;
      }
      StreakAside(Now(), snap.value);
      Unseen(Now(), snap.value);
      errStreak := 0;
      var current := ObserveAll(snap.value);
      DropVanished(current);
      seen := current;
    }
  }

  /** Observing leaves the seen set alone and does not read the error streak. */
  lemma {:induction false} StreakAside(h: Health, groups: seq<Group>)
    ensures ObservedAll(h.(errStreak := 0), groups) == ObservedAll(h, groups).(errStreak := 0)
  {
    if groups == [] {
    } else {
      StreakAside(h, groups[..|groups|-1]);
    }
  }

  lemma {:induction false} Unseen(h: Health, groups: seq<Group>)
    ensures ObservedAll(h, groups).seen == h.seen && ObservedAll(h, groups).errStreak == h.errStreak
  {
    if groups == [] {
    } else {
      Unseen(h, groups[..|groups|-1]);
    }
  }

  // ---- what a run of ticks leaves behind ----

  predicate Distinct(groups: seq<Group>) {
    forall i, j :: 0 <= i < j < |groups| ==> groups[i].name != groups[j].name
  }

  function Find(groups: seq<Group>, name: string): Option<Group> {
    if groups == [] then None
    else if groups[|groups|-1].name == name then Some(groups[|groups|-1])
    else Find(groups[..|groups|-1], name)
  }

  lemma {:induction false} FindIs(groups: seq<Group>, name: string)
    ensures Find(groups, name).Some? <==> name in Names(groups)
    ensures Find(groups, name).Some? ==> Find(groups, name).value in groups && Find(groups, name).value.name == name
  {
    if groups == [] {
    } else {
      var n := |groups| - 1;
      FindIs(groups[..n], name);
      assert groups == groups[..n] + [groups[n]];
    }
  }

  /** The verdict a snapshot gives a name: none when the group is healthy or absent. */
  function Verdict(groups: seq<Group>, name: string): Option<Reason> {
    match Find(groups, name)
    case Some(g) => Classify(g)
    case None => None
  }

  function Warned(l: Log, name: string): nat {
    if l.Stalled? && l.name == name then 1 else 0
  }

  function Warnings(logs: seq<Log>, name: string): nat {
    if logs == [] then 0 else Warnings(logs[..|logs|-1], name) + Warned(logs[|logs|-1], name)
  }

  function Restored(l: Log, name: string): nat {
    if l.Recovered? && l.name == name then 1 else 0
  }

  function Recoveries(logs: seq<Log>, name: string): nat {
    if logs == [] then 0 else Recoveries(logs[..|logs|-1], name) + Restored(logs[|logs|-1], name)
  }

  /** A change into a stall reason. */
  function Stalls(prev: Option<Reason>, now: Option<Reason>): nat {
    if now.Some? && now != prev then 1 else 0
  }

  /** A stalled group that is listed and healthy again. */
  function Recovers(prev: Option<Reason>, groups: seq<Group>, name: string): nat {
    if prev.Some? && Find(groups, name).Some? && Verdict(groups, name).None? then 1 else 0
  }

  lemma LogGrows(logs: seq<Log>, l: Log, name: string)
    ensures Warnings(logs + [l], name) == Warnings(logs, name) + Warned(l, name)
    ensures Recoveries(logs + [l], name) == Recoveries(logs, name) + Restored(l, name)
  {
    assert (logs + [l])[..|logs|] == logs;
  }

  function Shown(h: Health, name: string): Option<Gauges> {
    if name in h.series then Some(h.series[name]) else None
  }

  /** The line logged when a group's verdict goes from `prev` to `now`, if any. */
  function Line(name: string, prev: Option<Reason>, now: Option<Reason>): seq<Log> {
    if now.Some? && prev != now then [Stalled(name, now.value)]
    else if now.None? && prev.Some? then [Recovered(name, prev.value)]
    else []
  }

  lemma LineCounts(logs: seq<Log>, g: string, prev: Option<Reason>, now: Option<Reason>, name: string)
    ensures Warnings(logs + Line(g, prev, now), name)
            == Warnings(logs, name) + if g == name then Stalls(prev, now) else 0
    ensures Recoveries(logs + Line(g, prev, now), name)
            == Recoveries(logs, name) + if g == name && prev.Some? && now.None? then 1 else 0
  {
    if Line(g, prev, now) == [] {
      assert logs + [] == logs;
    } else {
      LogGrows(logs, Line(g, prev, now)[0], name);
    }
  }

  lemma ObservedIs(h: Health, g: Group, name: string)
    ensures var o := Observed(h, g);
            && o.logs == h.logs + Line(g.name, Last(h, g.name), Classify(g))
            && Shown(o, name) == (if g.name == name then Some(GaugesOf(g)) else Shown(h, name))
            && Last(o, name) == (if g.name == name then Classify(g) else Last(h, name))
  {
  }

  lemma ObserveOther(h: Health, g: Group, name: string)
    requires g.name != name
    ensures var o := Observed(h, g);
            Shown(o, name) == Shown(h, name) && Last(o, name) == Last(h, name)
            && Warnings(o.logs, name) == Warnings(h.logs, name) && Recoveries(o.logs, name) == Recoveries(h.logs, name)
  {
    ObservedIs(h, g, name);
    LineCounts(h.logs, g.name, Last(h, g.name), Classify(g), name);
  }

  lemma ObserveOwn(h: Health, g: Group)
    ensures var o := Observed(h, g);
            && Shown(o, g.name) == Some(GaugesOf(g)) && Last(o, g.name) == Classify(g)
            && Warnings(o.logs, g.name) == Warnings(h.logs, g.name) + Stalls(Last(h, g.name), Classify(g))
            && Recoveries(o.logs, g.name)
               == Recoveries(h.logs, g.name) + if Last(h, g.name).Some? && Classify(g).None? then 1 else 0
  {
    ObservedIs(h, g, g.name);
    LineCounts(h.logs, g.name, Last(h, g.name), Classify(g), g.name);
  }

  /** What a name's series, verdict and log counts are once a whole snapshot is observed. */
  lemma {:induction false} ObservedAt(h: Health, groups: seq<Group>, name: string)
    requires Distinct(groups)
    ensures var o := ObservedAll(h, groups);
            match Find(groups, name)
            case None =>
              Shown(o, name) == Shown(h, name) && Last(o, name) == Last(h, name)
              && Warnings(o.logs, name) == Warnings(h.logs, name)
              && Recoveries(o.logs, name) == Recoveries(h.logs, name)
            case Some(g) =>
              Shown(o, name) == Some(GaugesOf(g)) && Last(o, name) == Classify(g)
              && Warnings(o.logs, name) == Warnings(h.logs, name) + Stalls(Last(h, name), Classify(g))
              && Recoveries(o.logs, name) == Recoveries(h.logs, name) + Recovers(Last(h, name), groups, name)
  {
    if groups == [] {
    } else {
      var n := |groups| - 1;
      var before := ObservedAll(h, groups[..n]);
      ObservedAt(h, groups[..n], name);
      if groups[n].name == name {
        FindIs(groups[..n], name);
        assert Find(groups[..n], name).None?;
        ObserveOwn(before, groups[n]);
      } else {
        ObserveOther(before, groups[n], name);
      }
    }
  }

  /** Series and verdicts are only kept for groups of the last snapshot. */
  ghost predicate Tidy(h: Health) {
    h.series.Keys <= h.seen && h.stalled.Keys <= h.seen
  }

  /** A snapshot leaves exactly its own groups' series and verdicts, whatever was there before. */
  lemma SnapshotAt(h: Health, groups: seq<Group>, name: string)
    requires Tidy(h) && Distinct(groups)
    ensures var o := Collected(h, Some(groups));
            && Shown(o, name) == (match Find(groups, name) case Some(g) => Some(GaugesOf(g)) case None => None)
            && Last(o, name) == Verdict(groups, name)
            && Warnings(o.logs, name) == Warnings(h.logs, name) + Stalls(Last(h, name), Verdict(groups, name))
            && Recoveries(o.logs, name) == Recoveries(h.logs, name) + Recovers(Last(h, name), groups, name)
            && (name in o.seen <==> Find(groups, name).Some?)
  {
    ObservedAt(h, groups, name);
    FindIs(groups, name);
  }

  lemma StaysTidy(h: Health, snap: Option<seq<Group>>)
    requires Tidy(h) && (snap.Some? ==> Distinct(snap.value))
    ensures Tidy(Collected(h, snap))
  {
    if snap.Some? {
      forall name {
        SnapshotAt(h, snap.value, name);
      }
    }
  }

  function After(ticks: seq<Option<seq<Group>>>): Health {
    if ticks == [] then EMPTY else Collected(After(ticks[..|ticks|-1]), ticks[|ticks|-1])
  }

  /** The last snapshot that succeeded; no groups before the first. */
  function Latest(ticks: seq<Option<seq<Group>>>): seq<Group> {
    if ticks == [] then []
    else if ticks[|ticks|-1].Some? then ticks[|ticks|-1].value
    else Latest(ticks[..|ticks|-1])
  }

  /** How often a group's verdict changed into a stall reason. */
  function StallCount(ticks: seq<Option<seq<Group>>>, name: string): nat {
    if ticks == [] then 0
    else
      var most, last := ticks[..|ticks|-1], ticks[|ticks|-1];
      StallCount(most, name) +
      if last.Some? then Stalls(Verdict(Latest(most), name), Verdict(last.value, name)) else 0
  }

  function RecoveryCount(ticks: seq<Option<seq<Group>>>, name: string): nat {
    if ticks == [] then 0
    else
      var most, last := ticks[..|ticks|-1], ticks[|ticks|-1];
      RecoveryCount(most, name) +
      if last.Some? then Recovers(Verdict(Latest(most), name), last.value, name) else 0
  }

  lemma FailureAt(h: Health, name: string)
    ensures var o := Collected(h, None);
            && Shown(o, name) == Shown(h, name) && Last(o, name) == Last(h, name)
            && Warnings(o.logs, name) == Warnings(h.logs, name) && Recoveries(o.logs, name) == Recoveries(h.logs, name)
  {
    LogGrows(h.logs, ProbeFailed(h.errStreak + 1), name);
  }

  predicate AllDistinct(ticks: seq<Option<seq<Group>>>) {
    forall i :: 0 <= i < |ticks| && ticks[i].Some? ==> Distinct(ticks[i].value)
  }

  lemma {:induction false} AlwaysTidy(ticks: seq<Option<seq<Group>>>)
    requires AllDistinct(ticks)
    ensures Tidy(After(ticks))
  {
    if ticks == [] {
    } else {
      AlwaysTidy(ticks[..|ticks|-1]);
      StaysTidy(After(ticks[..|ticks|-1]), ticks[|ticks|-1]);
    }
  }

  lemma {:induction false} TicksAt(ticks: seq<Option<seq<Group>>>, name: string)
    requires AllDistinct(ticks)
    ensures Shown(After(ticks), name)
            == (match Find(Latest(ticks), name) case Some(g) => Some(GaugesOf(g)) case None => None)
    ensures Last(After(ticks), name) == Verdict(Latest(ticks), name)
    ensures Warnings(After(ticks).logs, name) == StallCount(ticks, name)
    ensures Recoveries(After(ticks).logs, name) == RecoveryCount(ticks, name)
  {
    if ticks == [] {
    } else {
      var most, last := ticks[..|ticks|-1], ticks[|ticks|-1];
      TicksAt(most, name);
      if last.Some? {
        AlwaysTidy(most);
        assert last == Some(last.value) && Distinct(last.value);
        SnapshotAt(After(most), last.value, name);
      } else {
        FailureAt(After(most), name);
      }
    }
  }

  /**
    After any run of ticks, failed probes included: the exported series and the stall
    verdicts are those of the last good snapshot, and each group was warned about once
    per change into a stall reason and reported recovered once per return to health.
   */
  lemma HealthTellsTheLastSnapshot(ticks: seq<Option<seq<Group>>>)
    requires AllDistinct(ticks)
    ensures After(ticks).series.Keys == Names(Latest(ticks))
    ensures forall g :: g in Latest(ticks) ==> After(ticks).series[g.name] == GaugesOf(g)
    ensures After(ticks).stalled.Keys <= Names(Latest(ticks))
    ensures forall g :: g in Latest(ticks) ==>
              match Classify(g)
              case Some(r) => g.name in After(ticks).stalled && After(ticks).stalled[g.name] == r
              case None => g.name !in After(ticks).stalled
    ensures forall name :: Warnings(After(ticks).logs, name) == StallCount(ticks, name)
    ensures forall name :: Recoveries(After(ticks).logs, name) == RecoveryCount(ticks, name)
  {
    var h, groups := After(ticks), Latest(ticks);
    LatestDistinct(ticks);
    forall name
      ensures Warnings(h.logs, name) == StallCount(ticks, name)
      ensures Recoveries(h.logs, name) == RecoveryCount(ticks, name)
      ensures name in h.series <==> name in Names(groups)
      ensures Last(h, name) == Verdict(groups, name) {
      TicksAt(ticks, name);
      FindIs(groups, name);
    }
    forall g | g in groups ensures g.name in h.series && h.series[g.name] == GaugesOf(g) && Last(h, g.name) == Classify(g) {
      TicksAt(ticks, g.name);
      FindOwn(groups, g);
    }
    forall name | name in h.stalled ensures name in Names(groups) {
      FindIs(groups, name);
      assert Last(h, name) == Verdict(groups, name);
    }
  }

  lemma {:induction false} LatestDistinct(ticks: seq<Option<seq<Group>>>)
    requires AllDistinct(ticks)
    ensures Distinct(Latest(ticks))
  {
    if ticks == [] {
    } else {
      LatestDistinct(ticks[..|ticks|-1]);
    }
  }

  lemma FindOwn(groups: seq<Group>, g: Group)
    requires Distinct(groups) && g in groups
    ensures Find(groups, g.name) == Some(g)
  {
    FindIs(groups, g.name);
    var f := Find(groups, g.name).value;
    var i :| 0 <= i < |groups| && groups[i] == g;
    var j :| 0 <= j < |groups| && groups[j] == f;
    assert i < j || j < i || i == j;
  }

  // ---- failed probes ----

  function Failures(h: Health, k: nat): Health {
    if k == 0 then h else Collected(Failures(h, k - 1), None)
  }

  /** A streak of failed probes changes only the streak and the log, and logs its first and every tenth. */
  lemma {:induction false} FailuresOnlyLog(h: Health, k: nat)
    requires h.errStreak == 0
    ensures Failures(h, k) == h.(errStreak := k, logs := Failures(h, k).logs)
    ensures |Failures(h, k).logs| == |h.logs| + (if k > 0 then 1 else 0) + k / ERR_EVERY
  {
    if k == 0 {
    } else {
      FailuresOnlyLog(h, k - 1);
    }
  }

  /** Failed probes since the last good one. */
  function Trailing(ticks: seq<Option<seq<Group>>>): nat {
    if ticks == [] || ticks[|ticks|-1].Some? then 0 else Trailing(ticks[..|ticks|-1]) + 1
  }

  /** Failed probes that were the first of their streak or a tenth of it. */
  function Announced(ticks: seq<Option<seq<Group>>>): nat {
    if ticks == [] then 0
    else
      Announced(ticks[..|ticks|-1])
      + if Trailing(ticks) > 0 && (Trailing(ticks) == 1 || Trailing(ticks) % 10 == 0) then 1 else 0
  }

  function FailureLines(logs: seq<Log>): nat {
    if logs == [] then 0 else FailureLines(logs[..|logs|-1]) + if logs[|logs|-1].ProbeFailed? then 1 else 0
  }

  lemma FailureLinesGrow(logs: seq<Log>, l: Log)
    ensures FailureLines(logs + [l]) == FailureLines(logs) + if l.ProbeFailed? then 1 else 0
  {
    assert (logs + [l])[..|logs|] == logs;
  }

  lemma {:induction false} ObservingIsSilent(h: Health, groups: seq<Group>)
    ensures FailureLines(ObservedAll(h, groups).logs) == FailureLines(h.logs)
  {
    if groups == [] {
    } else {
      var n := |groups| - 1;
      ObservingIsSilent(h, groups[..n]);
      var o, g := ObservedAll(h, groups[..n]), groups[n];
      ObservedIs(o, g, g.name);
      var line := Line(g.name, Last(o, g.name), Classify(g));
      if line == [] {
        assert o.logs + line == o.logs;
      } else {
        FailureLinesGrow(o.logs, line[0]);
      }
    }
  }

  /** Over any ticks the streak is the failures since the last good probe, and each streak logs its first and every tenth. */
  lemma {:induction false} StreakCountsFailures(ticks: seq<Option<seq<Group>>>)
    ensures After(ticks).errStreak == Trailing(ticks)
    ensures FailureLines(After(ticks).logs) == Announced(ticks)
  {
    if ticks == [] {
    } else {
      var n := |ticks| - 1;
      StreakCountsFailures(ticks[..n]);
      var h := After(ticks[..n]);
      if ticks[n].Some? {
        ObservingIsSilent(h, ticks[n].value);
      } else {
        FailureLinesGrow(h.logs, ProbeFailed(h.errStreak + 1));
      }
    }
  }
}
