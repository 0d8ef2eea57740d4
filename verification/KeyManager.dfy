/**
  The replica-local half of the HPKE keypair machinery: the loaded resolvers,
  the drop deadlines of prior keys and the high-water mark.

  A keyID is "hpke-g" followed by the generation in decimal, so it is modelled
  by the generation itself.  Times are integers (nanoseconds).
 */
module KeyManager {
  import opened Wrappers

  /** The payload of the private-key Secret. */
  datatype KeyPair = KeyPair(priv: string, pub: string, gen: int)

  /** The payload of the public-key Secret. */
  datatype PubPayload = PubPayload(pub: string, gen: int)

  function Public(kp: KeyPair): PubPayload {
    PubPayload(kp.pub, kp.gen)
  }

  /** Public key of a private key; `None` when the private key does not parse. */
  type Derivation = string -> Option<string>

  predicate Parses(kp: KeyPair) {
    kp.priv != "" && kp.pub != "" && kp.gen >= 1
  }

  /** The self-contained assert run on every load, against the mark `prev`. */
  predicate Asserts(derive: Derivation, kp: KeyPair, prev: int) {
    kp.gen >= prev && derive(kp.priv) == Some(kp.pub)
  }

  datatype Replica = Replica(resolvers: map<int, string>, priorDrop: map<int, int>, highwater: int)

  const EMPTY_REPLICA := Replica(map[], map[], 0)

  predicate Expired(v: Replica, g: int, now: int) {
    g in v.priorDrop && now > v.priorDrop[g]
  }

  function Swept(v: Replica, now: int): Replica {
    Replica(
      map g | g in v.resolvers && !Expired(v, g, now) :: v.resolvers[g],
      map g | g in v.priorDrop && !Expired(v, g, now) :: v.priorDrop[g],
      v.highwater)
  }

  /** Every resolver without a deadline gets `dropAt`. */
  function Stamped(v: Replica, dropAt: int): map<int, int> {
    map g | g in v.resolvers.Keys + v.priorDrop.Keys ::
      if g in v.priorDrop then v.priorDrop[g] else dropAt
  }

  /**
    The write-locked half of a load: sweep at `sweepAt`, then (for a new
    generation) stamp every other key with a deadline read off the clock at
    `stampAt`, then install the resolver.
   */
  function Installed(v: Replica, kp: KeyPair, sweepAt: int, stampAt: int, retention: int): Replica {
    var w := Swept(v, sweepAt);
    var u := if kp.gen > w.highwater
             then w.(priorDrop := Stamped(w, stampAt + retention), highwater := kp.gen)
             else w;
    u.(resolvers := u.resolvers[kp.gen := kp.priv])
  }

  /** What `Resolve` finds for generation `g` at time `at`. */
  function Found(v: Replica, g: int, at: int): Option<string> {
    if g in v.resolvers && !Expired(v, g, at) then Some(v.resolvers[g]) else None
  }

  /** A missed lookup sweeps; a hit changes nothing. */
  function AfterLookup(v: Replica, g: int, at: int, sweepAt: int): Replica {
    if Found(v, g, at).Some? then v else Swept(v, sweepAt)
  }

  /** A hit leaves all keys; a miss drops exactly those past their deadline. */
  lemma LookupDropsExactly(v: Replica, g: int, at: int, sweepAt: int, k: int)
    ensures Found(v, g, at).Some? ==> AfterLookup(v, g, at, sweepAt) == v
    ensures Found(v, g, at).None? ==>
              (k in AfterLookup(v, g, at, sweepAt).resolvers <==>
               k in v.resolvers && (k in v.priorDrop ==> sweepAt <= v.priorDrop[k]))
  {
  }

  /** How a load ends: installed, or corrupt at the generation it could name. */
  datatype Load = Loaded | Corrupt(gen: int)

  function LoadOutcome(derive: Derivation, payload: Option<KeyPair>, prev: int): Load {
    if payload.None? || !Parses(payload.value) then Corrupt(0)
    else if !Asserts(derive, payload.value, prev) then Corrupt(payload.value.gen)
    else Loaded
  }

  /** What a load asks of a payload: all fields there, its own public key, and no generation below the mark. */
  predicate LoadsAt(derive: Derivation, kp: KeyPair, mark: int) {
    && kp.priv != "" && kp.pub != "" && kp.gen >= 1
    && mark <= kp.gen && derive(kp.priv) == Some(kp.pub)
  }

  /** The generation a refusal names: that of the payload if it has all its fields, else zero. */
  function RefusedAt(payload: Option<KeyPair>): int {
    match payload
    case Some(KeyPair(priv, pub, gen)) => if |priv| > 0 && |pub| > 0 && gen > 0 then gen else 0
    case None => 0
  }

  /** Exactly which payloads a load takes, and the generation each refusal carries into recovery. */
  lemma LoadExactly(derive: Derivation, payload: Option<KeyPair>, mark: int)
    ensures LoadOutcome(derive, payload, mark) ==
            if payload.Some? && LoadsAt(derive, payload.value, mark) then Loaded else Corrupt(RefusedAt(payload))
  {
  }

  const DEFAULT_RETENTION := 600_000_000_000

  /** The manager object: three fields updated under one lock. */
  class Manager {
    const retention: int
    const derive: Derivation
    var resolvers: map<int, string>
    var priorDrop: map<int, int>
    var highwater: int

    function View(): Replica
      reads this
    {
      Replica(resolvers, priorDrop, highwater)
    }

    constructor (retention: int, derive: Derivation)
      ensures View() == EMPTY_REPLICA && this.derive == derive
      ensures this.retention == if retention > 0 then retention else 10 * 60 * 1_000_000_000
    {
      this.retention := if retention <= 0 then DEFAULT_RETENTION else retention;
      this.derive := derive;
      resolvers, priorDrop, highwater := map[], map[], 0;
    }

    /** The loop over the deadlines that deletes expired keys from both maps. */
    method SweepExpired(now: int)
      modifies this
      ensures View() == Swept(old(View()), now)
    {
      ghost var v := View();
      var todo := priorDrop.Keys;
      while todo != {}
        invariant todo <= v.priorDrop.Keys
        invariant highwater == v.highwater
        invariant resolvers == map g | g in v.resolvers && (g in todo || !Expired(v, g, now)) :: v.resolvers[g]
        invariant priorDrop == map g | g in v.priorDrop && (g in todo || !Expired(v, g, now)) :: v.priorDrop[g]
        decreases todo
      {
        assert (forall g :: g !in todo) ==> todo == {};
        var id :| id in todo;
        if now > priorDrop[id] {
          resolvers := resolvers - {id};
          priorDrop := priorDrop - {id};
        }
        todo := todo - {id};
      }
    }

    /** The loop over the resolvers that stamps the ones without a deadline. */
    method StampPriors(dropAt: int)
      modifies this`priorDrop
      ensures priorDrop == Stamped(old(View()), dropAt)
    {
      ghost var v := View();
      var todo := resolvers.Keys;
      while todo != {}
        invariant todo <= v.resolvers.Keys
        invariant priorDrop == map g | g in (v.resolvers.Keys - todo) + v.priorDrop.Keys ::
                                 if g in v.priorDrop then v.priorDrop[g] else dropAt
        decreases todo
      {
        assert (forall g :: g !in todo) ==> todo == {};
        var id :| id in todo;
        if id !in priorDrop {
          priorDrop := priorDrop[id := dropAt];
        }
        todo := todo - {id};
      }
    }

    method Install(kp: KeyPair, sweepAt: int, stampAt: int)
      modifies this
      ensures View() == Installed(old(View()), kp, sweepAt, stampAt, retention)
    {
      SweepExpired(sweepAt);
      if kp.gen > highwater {
        StampPriors(stampAt + retention);
        highwater := kp.gen;
      }
      resolvers := resolvers[kp.gen := kp.priv];
    }

    /** A load that no other goroutine interrupts between its two lock sections. */
    method ApplyLoaded(payload: Option<KeyPair>, sweepAt: int, stampAt: int) returns (r: Load)
      modifies this
      ensures r == LoadOutcome(derive, payload, old(highwater))
      ensures r.Loaded? <==> payload.Some? && LoadsAt(derive, payload.value, old(highwater))
      ensures r.Corrupt? ==> r.gen == RefusedAt(payload)
      ensures View() == if r.Loaded? then Installed(old(View()), payload.value, sweepAt, stampAt, retention)
                        else old(View())
    {
      if payload.None? || !Parses(payload.value) {
        return Corrupt(0);
      }
      var prev := highwater;
      if !Asserts(derive, payload.value, prev) {
        return Corrupt(payload.value.gen);
      }
      Install(payload.value, sweepAt, stampAt);
      return Loaded;
    }

    method Resolve(g: int, at: int, sweepAt: int) returns (r: Option<string>)
      modifies this
      ensures r == Found(old(View()), g, at)
      ensures View() == AfterLookup(old(View()), g, at, sweepAt)
      ensures r.Some? ==> View() == old(View())
      ensures r.None? ==> forall k :: k in resolvers <==>
                            k in old(resolvers) && (k in old(priorDrop) ==> sweepAt <= old(priorDrop)[k])
    {
      if g !in resolvers || (g in priorDrop && at > priorDrop[g]) {
        SweepExpired(sweepAt);
        return None;
      }
      return Some(resolvers[g]);
    }
  }
}

/**
  The retention law over whole histories of one replica, stated without the
  maps: which generations were loaded, and when the first higher one was.
 */
module KeyRetention {
  import opened Wrappers
  import opened KeyManager

  /** Lock sections of one replica, with the clock readings each one takes. */
  datatype Event =
    | Install(kp: KeyPair, sweepAt: int, stampAt: int)
    | Lookup(gen: int, at: int, sweepAt: int)

  function Begin(e: Event): int {
    match e case Install(_, s, _) => s case Lookup(_, a, _) => a
  }

  function End(e: Event): int {
    match e case Install(_, _, s) => s case Lookup(_, _, s) => s
  }

  function Apply(v: Replica, e: Event, retention: int): Replica {
    match e
    case Install(kp, s, t) => Installed(v, kp, s, t, retention)
    case Lookup(g, a, s) => AfterLookup(v, g, a, s)
  }

  function After(es: seq<Event>, retention: int): Replica {
    if es == [] then EMPTY_REPLICA else Apply(After(es[..|es|-1], retention), es[|es|-1], retention)
  }

  // ---- the history read on its own ----

  predicate Installs(e: Event, g: int) {
    e.Install? && e.kp.gen == g
  }

  predicate Supersedes(e: Event, g: int) {
    e.Install? && e.kp.gen > g
  }

  /** The clock never runs backwards. */
  ghost predicate Timed(es: seq<Event>) {
    && (forall i :: 0 <= i < |es| ==> Begin(es[i]) <= End(es[i]))
    && (forall i, j :: 0 <= i < j < |es| ==> End(es[i]) <= Begin(es[j]))
  }

  /** Only payloads that parse are installed. */
  predicate Positive(es: seq<Event>) {
    forall i :: 0 <= i < |es| && es[i].Install? ==> es[i].kp.gen >= 1
  }

  ghost predicate EverLoaded(es: seq<Event>, g: int) {
    exists i :: 0 <= i < |es| && Installs(es[i], g)
  }

  /** The first install of a higher generation, plus the retention. */
  function Deadline(es: seq<Event>, g: int, retention: int): (d: Option<int>)
    ensures d.None? <==> forall i :: 0 <= i < |es| ==> !Supersedes(es[i], g)
    ensures d.Some? ==> exists i :: 0 <= i < |es| && Supersedes(es[i], g) && d.value == es[i].stampAt + retention
                                    && forall j :: 0 <= j < i ==> !Supersedes(es[j], g)
  {
    if es == [] then None
    else
      var n := |es| - 1;
      var d := Deadline(es[..n], g, retention);
      assert forall i :: 0 <= i < n ==> es[i] == es[..n][i];
      if d.Some? then d
      else if Supersedes(es[n], g) then Some(es[n].stampAt + retention)
      else None
  }

  /** The key of the last install of `g`. */
  function KeyOf(es: seq<Event>, g: int): (k: Option<string>)
    ensures k.Some? <==> EverLoaded(es, g)
  {
    if es == [] then None
    else
      var n := |es| - 1;
      var k := KeyOf(es[..n], g);
      assert EverLoaded(es, g) <==> EverLoaded(es[..n], g) || Installs(es[n], g) by {
        if EverLoaded(es[..n], g) {
          var i :| 0 <= i < n && Installs(es[..n][i], g);
          assert Installs(es[i], g);
        }
        if EverLoaded(es, g) && !Installs(es[n], g) {
          var i :| 0 <= i < |es| && Installs(es[i], g);
          assert Installs(es[..n][i], g);
        }
      }
      if Installs(es[n], g) then Some(es[n].kp.priv) else k
  }

  /** The whole law: what a lookup of `g` at time `t` must find. */
  function Retained(es: seq<Event>, g: int, t: int, retention: int): Option<string> {
    var d := Deadline(es, g, retention);
    if d.Some? && t > d.value then None else KeyOf(es, g)
  }

  /** An install of a generation that a higher one has already superseded finds it loaded and in its window. */
  ghost predicate TimelyAt(es: seq<Event>, i: nat, retention: int)
    requires i < |es|
  {
    es[i].Install? ==>
      var d := Deadline(es[..i], es[i].kp.gen, retention);
      d.Some? ==> EverLoaded(es[..i], es[i].kp.gen) && es[i].sweepAt <= d.value
  }

  ghost predicate Timely(es: seq<Event>, retention: int) {
    forall i :: 0 <= i < |es| ==> TimelyAt(es, i, retention)
  }

  // ---- the maps agree with the history ----

  function Ends(es: seq<Event>): int
    requires es != []
  {
    End(es[|es|-1])
  }

  /** A key is held with its deadline, or was swept after it. */
  predicate Held(v: Replica, g: int, k: Option<string>, d: Option<int>, ends: int) {
    if k.None? then g !in v.resolvers && g !in v.priorDrop
    else if d.None? then g in v.resolvers && v.resolvers[g] == k.value && g !in v.priorDrop
    else if g in v.resolvers then v.resolvers[g] == k.value && g in v.priorDrop && v.priorDrop[g] == d.value
    else g !in v.priorDrop && ends > d.value
  }

  ghost predicate Tracks(v: Replica, es: seq<Event>, g: int, retention: int) {
    Held(v, g, KeyOf(es, g), Deadline(es, g, retention), if es == [] then 0 else Ends(es))
  }

  ghost predicate Top(v: Replica, es: seq<Event>) {
    && v.highwater >= 0
    && (forall i :: 0 <= i < |es| && es[i].Install? ==> es[i].kp.gen <= v.highwater)
    && (v.highwater > 0 ==> exists i :: 0 <= i < |es| && Installs(es[i], v.highwater))
  }

  ghost predicate Agrees(v: Replica, es: seq<Event>, retention: int) {
    Top(v, es) && forall g :: Tracks(v, es, g, retention)
  }

  lemma TopStep(es: seq<Event>, retention: int)
    requires es != [] && Positive(es)
    requires Top(After(es[..|es|-1], retention), es[..|es|-1])
    ensures Top(After(es, retention), es)
  {
    var n := |es| - 1;
    var v, w := After(es[..n], retention), After(es, retention);
    assert forall i :: 0 <= i < n ==> es[..n][i] == es[i];
    if w.highwater == v.highwater && v.highwater > 0 {
      var i :| 0 <= i < n && Installs(es[..n][i], v.highwater);
      assert Installs(es[i], w.highwater);
    } else if w.highwater > 0 {
      assert Installs(es[n], w.highwater);
    }
  }

  /** Sweeping at or after the last event loses nothing that is still due. */
  lemma SweepTracks(v: Replica, es: seq<Event>, g: int, now: int, retention: int)
    requires Tracks(v, es, g, retention)
    ensures var w := Swept(v, now);
            && (g in w.resolvers ==> g in v.resolvers && w.resolvers[g] == v.resolvers[g])
            && (g in w.priorDrop <==> g in v.priorDrop && v.priorDrop[g] >= now)
            && (g in w.priorDrop ==> w.priorDrop[g] == v.priorDrop[g])
            && (g in v.resolvers && g !in w.resolvers ==>
                  Deadline(es, g, retention).Some? && now > Deadline(es, g, retention).value)
  {
  }

  lemma PrefixFacts(es: seq<Event>, g: int, retention: int)
    requires es != []
    ensures var n := |es| - 1;
            && Deadline(es, g, retention) ==
               (if Deadline(es[..n], g, retention).Some? then Deadline(es[..n], g, retention)
                else if Supersedes(es[n], g) then Some(es[n].stampAt + retention) else None)
            && KeyOf(es, g) == if Installs(es[n], g) then Some(es[n].kp.priv) else KeyOf(es[..n], g)
  {
  }

  lemma TracksLookup(es: seq<Event>, g: int, retention: int)
    requires es != [] && Timed(es) && es[|es|-1].Lookup?
    requires Tracks(After(es[..|es|-1], retention), es[..|es|-1], g, retention)
    ensures Tracks(After(es, retention), es, g, retention)
  {
    var n := |es| - 1;
    var v := After(es[..n], retention);
    PrefixFacts(es, g, retention);
    SweepTracks(v, es[..n], g, es[n].sweepAt, retention);
    if n > 0 {
      assert Ends(es[..n]) == End(es[n-1]) <= Begin(es[n]) <= End(es[n]);
    }
  }

  /** What the write-locked half of a load does to one generation's entries. */
  lemma InstallAt(v: Replica, e: Event, g: int, retention: int)
    requires e.Install?
    ensures var w, u := Swept(v, e.sweepAt), Apply(v, e, retention);
            && (g in u.resolvers <==> g == e.kp.gen || g in w.resolvers)
            && (g in u.resolvers ==> u.resolvers[g] == if g == e.kp.gen then e.kp.priv else w.resolvers[g])
            && (g in u.priorDrop <==> g in w.priorDrop || (e.kp.gen > v.highwater && g in w.resolvers))
            && (g in u.priorDrop ==> u.priorDrop[g] == if g in w.priorDrop then w.priorDrop[g] else e.stampAt + retention)
  {
  }

  /** A superseded generation lies below the mark, any other at or above it. */
  lemma MarkTells(v: Replica, es: seq<Event>, g: int, retention: int)
    requires Top(v, es) && g >= 1
    ensures Deadline(es, g, retention).Some? <==> g < v.highwater
  {
    if g < v.highwater {
      var i :| 0 <= i < |es| && Installs(es[i], v.highwater);
      assert Supersedes(es[i], g);
    }
  }

  /** An install, on one generation's key and deadline alone. */
  lemma InstallHeld(v: Replica, e: Event, g: int, k: Option<string>, d: Option<int>, ends: int, retention: int)
    requires e.Install? && Held(v, g, k, d, ends) && (k.Some? ==> ends <= e.sweepAt) && e.sweepAt <= e.stampAt
    requires k.Some? || g == e.kp.gen ==> (d.Some? <==> g < v.highwater)
    requires k.Some? ==> g <= v.highwater
    requires e.kp.gen == g && d.Some? ==> k.Some? && e.sweepAt <= d.value
    ensures Held(Apply(v, e, retention), g, if e.kp.gen == g then Some(e.kp.priv) else k,
                 if d.Some? then d else if e.kp.gen > g then Some(e.stampAt + retention) else None, e.stampAt)
  {
    InstallAt(v, e, g, retention);
  }

  lemma TracksInstall(es: seq<Event>, g: int, retention: int)
    requires es != [] && Timed(es) && Positive(es) && es[|es|-1].Install? && TimelyAt(es, |es| - 1, retention)
    requires Top(After(es[..|es|-1], retention), es[..|es|-1])
    requires Tracks(After(es[..|es|-1], retention), es[..|es|-1], g, retention)
    ensures Tracks(After(es, retention), es, g, retention)
  {
    var n := |es| - 1;
    var v, e := After(es[..n], retention), es[n];
    PrefixFacts(es, g, retention);
    if n > 0 {
      assert Ends(es[..n]) == End(es[n-1]) <= Begin(e);
    }
    if g >= 1 {
      MarkTells(v, es[..n], g, retention);
      LoadedBelowMark(v, es[..n], g);
    } else {
      NeverLoaded(es[..n], g);
    }
    InstallHeld(v, e, g, KeyOf(es[..n], g), Deadline(es[..n], g, retention), if n == 0 then 0 else Ends(es[..n]), retention);
  }

  lemma NeverLoaded(es: seq<Event>, g: int)
    requires Positive(es) && g < 1
    ensures KeyOf(es, g).None?
  {
    forall i | 0 <= i < |es| ensures !Installs(es[i], g) { }
  }

  lemma TimelyPrefix(es: seq<Event>, n: nat, retention: int)
    requires n <= |es| && Timed(es) && Positive(es)
    ensures Timed(es[..n]) && Positive(es[..n])
    ensures (forall i :: 0 <= i < n ==> TimelyAt(es, i, retention)) ==> Timely(es[..n], retention)
  {
    forall i | 0 <= i < n ensures TimelyAt(es[..n], i, retention) == TimelyAt(es, i, retention) {
      assert es[..n][..i] == es[..i] && es[..n][i] == es[i];
    }
  }

  lemma {:induction false} HistoryAgrees(es: seq<Event>, retention: int)
    requires Timed(es) && Positive(es) && Timely(es, retention)
    ensures Agrees(After(es, retention), es, retention)
  {
    if es == [] {
    } else {
      var n := |es| - 1;
      TimelyPrefix(es, n, retention);
      HistoryAgrees(es[..n], retention);
      TopStep(es, retention);
      forall g ensures Tracks(After(es, retention), es, g, retention) {
        assert Tracks(After(es[..n], retention), es[..n], g, retention);
        if es[n].Install? {
          assert TimelyAt(es, n, retention);
          TracksInstall(es, g, retention);
        } else {
          TracksLookup(es, g, retention);
        }
      }
    }
  }

  /** A lookup of `g` at any later time finds what the history says it must. */
  ghost predicate LookupLaw(es: seq<Event>, retention: int) {
    forall g, t :: (es != [] ==> t >= Ends(es)) ==> Found(After(es, retention), g, t) == Retained(es, g, t, retention)
  }

  /**
    Retention refinement.  Whatever was looked up and swept on the way, a
    lookup of generation `g` finds the key of its last install exactly when no
    higher generation was installed, or the first one was at most `retention` ago.
   */
  lemma LookupMeetsRetention(es: seq<Event>, retention: int)
    requires Timed(es) && Positive(es) && Timely(es, retention)
    ensures LookupLaw(es, retention)
  {
    HistoryAgrees(es, retention);
    AgreementAnswers(es, retention);
  }

  lemma AgreementAnswers(es: seq<Event>, retention: int)
    requires Agrees(After(es, retention), es, retention)
    ensures LookupLaw(es, retention)
  {
    forall g, t | es != [] ==> t >= Ends(es) ensures Found(After(es, retention), g, t) == Retained(es, g, t, retention) {
      assert Tracks(After(es, retention), es, g, retention);
    }
  }

  /** An untimely install is found for ever, and the law says it must not be. */
  lemma UntimelyBreaks(es: seq<Event>, retention: int)
    requires es != [] && Timed(es) && Positive(es) && !TimelyAt(es, |es| - 1, retention)
    requires Agrees(After(es[..|es|-1], retention), es[..|es|-1], retention)
    ensures !LookupLaw(es, retention)
  {
    var n := |es| - 1;
    var v, e := After(es[..n], retention), es[n];
    var g := e.kp.gen;
    var d := Deadline(es[..n], g, retention).value;
    assert Tracks(v, es[..n], g, retention);
    MarkTells(v, es[..n], g, retention);
    SweepTracks(v, es[..n], g, e.sweepAt, retention);
    InstallAt(v, e, g, retention);
    PrefixFacts(es, g, retention);
    var t := if d >= Ends(es) then d + 1 else Ends(es);
    assert Retained(es, g, if t > d then t else d + 1, retention).None?;
    assert Found(After(es, retention), g, if t > d then t else d + 1).Some?;
  }

  lemma {:induction false} FirstUntimely(es: seq<Event>, i: nat, retention: int) returns (n: nat)
    requires i < |es| && !TimelyAt(es, i, retention)
    ensures n <= i && !TimelyAt(es, n, retention) && forall j :: 0 <= j < n ==> TimelyAt(es, j, retention)
    decreases i
  {
    if j :| 0 <= j < i && !TimelyAt(es, j, retention) {
      n := FirstUntimely(es, j, retention);
    } else {
      n := i;
    }
  }

  /**
    The exact law over all histories, the two locks of a load apart: lookups obey the
    retention after every prefix if and only if every install of a superseded
    generation finds it loaded and still in its window.
   */
  lemma LookupLawExactly(es: seq<Event>, retention: int)
    requires Timed(es) && Positive(es)
    ensures Timely(es, retention) <==> forall n :: 0 <= n <= |es| ==> LookupLaw(es[..n], retention)
  {
    if Timely(es, retention) {
      forall n | 0 <= n <= |es| ensures LookupLaw(es[..n], retention) {
        TimelyPrefix(es, n, retention);
        LookupMeetsRetention(es[..n], retention);
      }
    } else {
      var i :| 0 <= i < |es| && !TimelyAt(es, i, retention);
      var n := BrokenPrefix(es, i, retention);
    }
  }

  lemma AgreesBefore(es: seq<Event>, n: nat, retention: int)
    requires Timed(es) && Positive(es) && n <= |es| && forall j :: 0 <= j < n ==> TimelyAt(es, j, retention)
    ensures Timely(es[..n], retention) && Agrees(After(es[..n], retention), es[..n], retention)
  {
    TimelyPrefix(es, n, retention);
    HistoryAgrees(es[..n], retention);
  }

  lemma BreaksAt(es: seq<Event>, n: nat, retention: int)
    requires Timed(es) && Positive(es) && n < |es| && !TimelyAt(es, n, retention)
    requires Agrees(After(es[..n], retention), es[..n], retention)
    ensures !LookupLaw(es[..n+1], retention)
  {
    TimelyPrefix(es, n + 1, retention);
    assert es[..n+1][..n] == es[..n] && es[..n+1][n] == es[n];
    UntimelyBreaks(es[..n+1], retention);
  }

  lemma BrokenPrefix(es: seq<Event>, i: nat, retention: int) returns (m: nat)
    requires Timed(es) && Positive(es) && i < |es| && !TimelyAt(es, i, retention)
    ensures m <= |es| && !LookupLaw(es[..m], retention)
  {
    var n := FirstUntimely(es, i, retention);
    AgreesBefore(es, n, retention);
    BreaksAt(es, n, retention);
    m := n + 1;
  }

  /** So do the maps themselves: every key and deadline is what the history dictates under the same condition. */
  lemma HistoryAgreesExactly(es: seq<Event>, retention: int)
    requires Timed(es) && Positive(es)
    ensures Timely(es, retention) <==> forall n :: 0 <= n <= |es| ==> Agrees(After(es[..n], retention), es[..n], retention)
  {
    if Timely(es, retention) {
      forall n | 0 <= n <= |es| ensures Agrees(After(es[..n], retention), es[..n], retention) {
        TimelyPrefix(es, n, retention);
        HistoryAgrees(es[..n], retention);
      }
    } else {
      var i :| 0 <= i < |es| && !TimelyAt(es, i, retention);
      var n := BrokenPrefix(es, i, retention);
      if Agrees(After(es[..n], retention), es[..n], retention) {
        AgreementAnswers(es[..n], retention);
      }
    }
  }

  /** The keys carrying a deadline are the loaded keys other than the current one. */
  lemma DeadlinesAreThePriors(es: seq<Event>, retention: int)
    requires Timed(es) && Positive(es) && Timely(es, retention)
    ensures var v := After(es, retention);
            v.priorDrop.Keys == v.resolvers.Keys - {v.highwater}
  {
    HistoryAgrees(es, retention);
    var v := After(es, retention);
    forall g ensures g in v.priorDrop.Keys <==> g in v.resolvers.Keys - {v.highwater} {
      assert Tracks(v, es, g, retention);
      if g >= 1 {
        MarkTells(v, es, g, retention);
        LoadedBelowMark(v, es, g);
      } else {
        NeverLoaded(es, g);
      }
    }
  }

  lemma LoadedBelowMark(v: Replica, es: seq<Event>, g: int)
    requires Top(v, es)
    ensures KeyOf(es, g).Some? ==> g <= v.highwater
  {
    if KeyOf(es, g).Some? {
      var i :| 0 <= i < |es| && Installs(es[i], g);
    }
  }

  // ---- the gap between the assert and the write lock ----

  ghost predicate SplitByDeadline(v: Replica) {
    v.priorDrop.Keys == v.resolvers.Keys - {v.highwater}
  }

  /**
    The assert reads the mark under a read lock that is released before the
    write lock is taken.  The locked half keeps the deadline split exactly when
    no higher generation slipped in between, or the late key is still in its window.
   */
  lemma LateInstallExactlyBreaksTheSplit(v: Replica, kp: KeyPair, sweepAt: int, stampAt: int, retention: int)
    requires SplitByDeadline(v)
    requires forall g :: g in v.resolvers ==> g <= v.highwater
    ensures SplitByDeadline(Installed(v, kp, sweepAt, stampAt, retention))
            <==> kp.gen >= v.highwater || kp.gen in Swept(v, sweepAt).priorDrop
  {
    var w := Swept(v, sweepAt);
    var u := Installed(v, kp, sweepAt, stampAt, retention);
    assert w.priorDrop.Keys == w.resolvers.Keys - {v.highwater};
    if kp.gen > v.highwater {
      assert u.priorDrop.Keys == w.resolvers.Keys + w.priorDrop.Keys;
      assert kp.gen !in w.resolvers;
    } else {
      assert u.resolvers.Keys == w.resolvers.Keys + {kp.gen};
      assert kp.gen in u.resolvers.Keys;
    }
  }

  /** An untimely install is below the mark and finds no deadline that still runs. */
  lemma UntimelyIsLate(es: seq<Event>, n: nat, retention: int)
    requires n < |es| && Timed(es[..n]) && Positive(es) && !TimelyAt(es, n, retention)
    requires Agrees(After(es[..n], retention), es[..n], retention)
    ensures var v := After(es[..n], retention);
            es[n].Install? && es[n].kp.gen < v.highwater && es[n].kp.gen !in Swept(v, es[n].sweepAt).priorDrop
  {
    var v, g := After(es[..n], retention), es[n].kp.gen;
    assert Tracks(v, es[..n], g, retention);
    MarkTells(v, es[..n], g, retention);
  }

  lemma LoadedStaysBelow(es: seq<Event>, retention: int)
    requires Agrees(After(es, retention), es, retention) && Positive(es)
    ensures forall g :: g in After(es, retention).resolvers ==> g <= After(es, retention).highwater
  {
    var v := After(es, retention);
    forall g | g in v.resolvers ensures g <= v.highwater {
      assert Tracks(v, es, g, retention);
      LoadedBelowMark(v, es, g);
    }
  }

  lemma SplitBreaks(es: seq<Event>, i: nat, retention: int) returns (m: nat)
    requires Timed(es) && Positive(es) && i < |es| && !TimelyAt(es, i, retention)
    ensures m <= |es| && !SplitByDeadline(After(es[..m], retention))
  {
    var n := FirstUntimely(es, i, retention);
    TimelyPrefix(es, n, retention);
    AgreesBefore(es, n, retention);
    DeadlinesAreThePriors(es[..n], retention);
    UntimelyIsLate(es, n, retention);
    LoadedStaysBelow(es[..n], retention);
    var v, e := After(es[..n], retention), es[n];
    LateInstallExactlyBreaksTheSplit(v, e.kp, e.sweepAt, e.stampAt, retention);
    assert es[..n+1][..n] == es[..n];
    m := n + 1;
  }

  /**
    The same boundary for the deadlines: after every prefix exactly the loaded keys
    other than the current one carry a deadline, if and only if no install is untimely.
   */
  lemma DeadlineSplitExactly(es: seq<Event>, retention: int)
    requires Timed(es) && Positive(es)
    ensures Timely(es, retention) <==> forall n :: 0 <= n <= |es| ==> SplitByDeadline(After(es[..n], retention))
  {
    if Timely(es, retention) {
      forall n | 0 <= n <= |es| ensures SplitByDeadline(After(es[..n], retention)) {
        TimelyPrefix(es, n, retention);
        DeadlinesAreThePriors(es[..n], retention);
      }
    } else {
      var i :| 0 <= i < |es| && !TimelyAt(es, i, retention);
      var m := SplitBreaks(es, i, retention);
    }
  }

  /** The break is real: a late first install of generation 1 is served for ever. */
  lemma LateInstallNeverExpires(k1: KeyPair, k2: KeyPair, t: int, retention: int)
    requires k1.gen == 1 && k2.gen == 2
    ensures var es := [Install(k2, 0, 0), Install(k1, 0, 0)];
            Timed(es) && Found(After(es, retention), 1, t) == Some(k1.priv)
  {
    var es := [Install(k2, 0, 0), Install(k1, 0, 0)];
    assert es[..1] == [Install(k2, 0, 0)] && es[..1][..0] == [];
    assert After(es[..1], retention) == Installed(EMPTY_REPLICA, k2, 0, 0, retention);
  }
}
