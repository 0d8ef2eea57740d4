/**
  What the keypair protocol gets done: a publication that goes on has published,
  and boots, adoptions and rotations that nothing interrupts end with the
  keypair stored, published and served.
 */
module KeyProgress {
  import opened Wrappers
  import opened KeyManager
  import opened KeyLineage

  /** The task is publishing this keypair. */
  predicate Publishing(pc: PC, kp: KeyPair) {
    (pc.PubGet? || pc.PubCreate? || pc.PubReget? || pc.PubUpdate?) && pc.kp == kp
  }

  /** The public Secret holds this keypair's public half and generation. */
  predicate Shows(s: Sys, kp: KeyPair) {
    s.pub.Some? && s.pub.value.data == PubPayload(kp.pub, kp.gen)
  }

  /** A publication that goes on to load the keypair has published it, in every state. */
  lemma GoesOnPublished(s: Sys, t: nat, priv: string, x: int, y: int, kp: KeyPair, next: Next)
    requires InRange(s, t) && Publishing(s.tasks[t].pc, kp)
    requires Step(s, t, Go(priv, x, y)).tasks[t].pc == LoadCheck(kp, false, next)
    ensures Shows(Step(s, t, Go(priv, x, y)), kp)
  {
  }

  // ---- runs of one task ----

  predicate Going(goes: seq<Action>) {
    forall i :: 0 <= i < |goes| ==> goes[i].Go?
  }

  /** The task's own steps, with nothing in between. */
  function Goes(s: Sys, t: nat, goes: seq<Action>): Sys
    decreases |goes|
  {
    if goes == [] then s else Goes(Step(s, t, goes[0]), t, goes[1..])
  }

  predicate At(s: Sys, t: nat, pc: PC) {
    InRange(s, t) && s.tasks[t].pc == pc
  }

  /** After `k` of these steps the system is in `n`. */
  ghost predicate Leads(s: Sys, t: nat, goes: seq<Action>, k: nat, n: Sys) {
    k <= |goes| && Goes(s, t, goes[..k]) == n
  }

  lemma Starts(s: Sys, t: nat, goes: seq<Action>)
    ensures Leads(s, t, goes, 0, s)
  {
  }

  lemma {:induction false} GoesOn(s: Sys, t: nat, goes: seq<Action>, a: Action)
    ensures Goes(s, t, goes + [a]) == Step(Goes(s, t, goes), t, a)
    decreases |goes|
  {
    if goes == [] {
      assert goes + [a] == [a] && [a][1..] == [];
    } else {
      GoesOn(Step(s, t, goes[0]), t, goes[1..], a);
      assert (goes + [a])[0] == goes[0] && (goes + [a])[1..] == goes[1..] + [a];
    }
  }

  lemma Then(s: Sys, t: nat, goes: seq<Action>, k: nat, n: Sys, m: Sys)
    requires Leads(s, t, goes, k, n) && k < |goes| && Step(n, t, goes[k]) == m
    ensures Leads(s, t, goes, k + 1, m)
  {
    GoesOn(s, t, goes[..k], goes[k]);
    assert goes[..k+1] == goes[..k] + [goes[k]];
  }

  lemma {:induction false} Rests(s: Sys, t: nat, goes: seq<Action>, k: nat, n: Sys, j: nat)
    requires Leads(s, t, goes, k, n) && Going(goes) && At(n, t, Idle) && k <= j <= |goes|
    ensures Leads(s, t, goes, j, n)
    decreases j
  {
    if j == k {
    } else {
      Rests(s, t, goes, k, n, j - 1);
      Then(s, t, goes, j - 1, n, n);
    }
  }

  lemma GotoTwice(s: Sys, t: nat, a: PC, b: PC)
    requires t < |s.tasks|
    ensures Goto(Goto(s, t, a), t, b) == Goto(s, t, b)
  {
  }

  // ---- publishing ----

  /** The public Secret after this keypair is published: as it was if it showed it already. */
  function WithPub(s: Sys, kp: KeyPair): (n: Sys)
    ensures Shows(n, kp) && n == s.(pub := n.pub, revision := n.revision)
  {
    if Shows(s, kp) then s
    else s.(pub := Some(Secret(PubPayload(kp.pub, kp.gen), s.revision + 1)), revision := s.revision + 1)
  }

  /** Where a publication leads. */
  function Onwards(kp: KeyPair, rest: Option<Next>): PC {
    match rest case None => Idle case Some(next) => LoadCheck(kp, false, next)
  }

  /** Where a publication reads the public Secret: at first, or again after another replica created it. */
  predicate ReadsPub(s: Sys, pc: PC, kp: KeyPair, rest: Option<Next>) {
    pc == PubGet(kp, rest) || (pc == PubReget(kp, rest) && s.pub.Some?)
  }

  lemma PubReads(s: Sys, t: nat, pc: PC, kp: KeyPair, rest: Option<Next>, a: Action)
    requires InRange(s, t) && a.Go? && ReadsPub(s, pc, kp, rest)
    ensures Step(Goto(s, t, pc), t, a) ==
            Goto(s, t, if Shows(s, kp) then Onwards(kp, rest)
                       else if s.pub.None? then PubCreate(kp, rest) else PubUpdate(kp, s.pub.value.version, rest))
  {
    GotoTwice(s, t, pc, Read(Goto(s, t, pc), t, a.priv));
  }

  lemma PubWrites(s: Sys, t: nat, kp: KeyPair, rest: Option<Next>, pc: PC, a: Action)
    requires InRange(s, t) && a.Go? && !Shows(s, kp)
    requires pc == if s.pub.None? then PubCreate(kp, rest) else PubUpdate(kp, s.pub.value.version, rest)
    ensures Step(Goto(s, t, pc), t, a) == Goto(WithPub(s, kp), t, Onwards(kp, rest))
  {
    GotoTwice(WithPub(s, kp), t, pc, Onwards(kp, rest));
  }

  /**
    A publication that nothing interrupts ends within two steps with the public
    Secret showing the keypair, whether it was missing, stale or right before.
   */
  lemma PublishesAlone(s: Sys, t: nat, goes: seq<Action>, k: nat, n: Sys, pc: PC, kp: KeyPair, rest: Option<Next>) returns (j: nat)
    requires InRange(n, t) && Going(goes) && k + 2 <= |goes| && ReadsPub(n, pc, kp, rest)
    requires Leads(s, t, goes, k, Goto(n, t, pc))
    ensures k < j <= k + 2 && Leads(s, t, goes, j, Goto(WithPub(n, kp), t, Onwards(kp, rest)))
  {
    PubReads(n, t, pc, kp, rest, goes[k]);
    if Shows(n, kp) {
      Then(s, t, goes, k, Goto(n, t, pc), Goto(n, t, Onwards(kp, rest)));
      j := k + 1;
    } else {
      var write := if n.pub.None? then PubCreate(kp, rest) else PubUpdate(kp, n.pub.value.version, rest);
      Then(s, t, goes, k, Goto(n, t, pc), Goto(n, t, write));
      PubWrites(n, t, kp, rest, write, goes[k+1]);
      Then(s, t, goes, k + 1, Goto(n, t, write), Goto(WithPub(n, kp), t, Onwards(kp, rest)));
      j := k + 2;
    }
  }

  lemma CreateRaces(s: Sys, t: nat, kp: KeyPair, rest: Option<Next>, a: Action)
    requires InRange(s, t) && a.Go? && s.pub.Some?
    ensures Step(Goto(s, t, PubCreate(kp, rest)), t, a) == Goto(s, t, PubReget(kp, rest))
  {
    GotoTwice(s, t, PubCreate(kp, rest), PubReget(kp, rest));
  }

  /** One whose create is beaten by another replica's adopts that Secret and still ends so. */
  lemma BeatenCreatePublishes(n: Sys, t: nat, goes: seq<Action>, kp: KeyPair, rest: Option<Next>) returns (j: nat)
    requires InRange(n, t) && Going(goes) && |goes| >= 3 && n.pub.Some?
    ensures 1 < j <= 3 && Leads(Goto(n, t, PubCreate(kp, rest)), t, goes, j, Goto(WithPub(n, kp), t, Onwards(kp, rest)))
  {
    var c := Goto(n, t, PubCreate(kp, rest));
    Starts(c, t, goes);
    CreateRaces(n, t, kp, rest, goes[0]);
    Then(c, t, goes, 0, c, Goto(n, t, PubReget(kp, rest)));
    j := PublishesAlone(c, t, goes, 1, n, PubReget(kp, rest), kp, rest);
  }

  // ---- loading ----

  /** The replica serves this key for its generation, and that is its mark. */
  predicate Serves(s: Sys, o: nat, kp: KeyPair) {
    && o < |s.replicas| && kp.gen in s.replicas[o].resolvers && s.replicas[o].resolvers[kp.gen] == kp.priv
    && s.replicas[o].highwater == kp.gen
  }

  function Fitted(s: Sys, o: nat, kp: KeyPair, a: Action): Sys
    requires o < |s.replicas| && a.Go?
  {
    s.(replicas := s.replicas[o := Installed(s.replicas[o], kp, a.sweepAt, a.stampAt, s.retention)])
  }

  lemma FittedServes(s: Sys, o: nat, kp: KeyPair, a: Action)
    requires o < |s.replicas| && a.Go? && s.replicas[o].highwater <= kp.gen
    ensures Serves(Fitted(s, o, kp, a), o, kp)
  {
  }

  lemma LoadReads(s: Sys, t: nat, kp: KeyPair, recover: bool, next: Next, a: Action)
    requires InRange(s, t) && a.Go? && LoadsAt(s.derive, kp, Mark(s, t))
    ensures Step(Goto(s, t, LoadCheck(kp, recover, next)), t, a) == Goto(s, t, LoadInstall(kp, next))
  {
    LoadExactly(s.derive, Some(kp), Mark(s, t));
    GotoTwice(s, t, LoadCheck(kp, recover, next), LoadInstall(kp, next));
  }

  lemma LoadWrites(s: Sys, t: nat, o: nat, kp: KeyPair, next: Next, a: Action)
    requires InRange(s, t) && a.Go? && o == s.tasks[t].owner
    ensures Step(Goto(s, t, LoadInstall(kp, next)), t, a) == Goto(Fitted(s, o, kp, a), t, AfterLoad(kp, next))
  {
    GotoTwice(Fitted(s, o, kp, a), t, LoadInstall(kp, next), AfterLoad(kp, next));
  }

  /** A load that nothing interrupts ends, for a payload fit to load, with the key served. */
  lemma LoadsAlone(s: Sys, t: nat, goes: seq<Action>, k: nat, n: Sys, o: nat, kp: KeyPair, recover: bool, next: Next)
    requires InRange(n, t) && o == n.tasks[t].owner && Going(goes) && k + 2 <= |goes|
    requires Leads(s, t, goes, k, Goto(n, t, LoadCheck(kp, recover, next))) && LoadsAt(n.derive, kp, Mark(n, t))
    ensures Leads(s, t, goes, k + 2, Goto(Fitted(n, o, kp, goes[k+1]), t, AfterLoad(kp, next)))
    ensures Serves(Fitted(n, o, kp, goes[k+1]), o, kp)
  {
    LoadReads(n, t, kp, recover, next, goes[k]);
    Then(s, t, goes, k, Goto(n, t, LoadCheck(kp, recover, next)), Goto(n, t, LoadInstall(kp, next)));
    LoadWrites(n, t, o, kp, next, goes[k+1]);
    Then(s, t, goes, k + 1, Goto(n, t, LoadInstall(kp, next)), Goto(Fitted(n, o, kp, goes[k+1]), t, AfterLoad(kp, next)));
    FittedServes(n, o, kp, goes[k+1]);
  }

  // ---- whole operations ----

  /** The store holds this keypair, it is published, and the replica serves it. */
  predicate InPlace(n: Sys, t: nat, o: nat, kp: KeyPair) {
    At(n, t, Idle) && n.keypair.Some? && n.keypair.value.data == kp && Shows(n, kp) && Serves(n, o, kp)
  }

  /** A fresh keypair of this generation with a public key that belongs to it. */
  predicate Fresh(s: Sys, kp: KeyPair, priv: string, gen: int) {
    kp.priv == priv && kp.gen == gen && priv != "" && kp.pub != "" && gen >= 1 && s.derive(priv) == Some(kp.pub)
  }

  lemma FreshIs(s: Sys, kp: KeyPair, priv: string, gen: int)
    requires Fresh(s, kp, priv, gen)
    ensures Generated(s, priv, gen) == Some(kp)
  {
  }

  lemma CreateWrites(s: Sys, t: nat, kp: KeyPair, a: Action)
    requires InRange(s, t) && a.Go? && s.keypair.None?
    ensures Step(Goto(s, t, BootCreate(kp)), t, a) == Goto(WriteKeypair(s, kp, Created), t, LoadCheck(kp, false, Publish))
  {
    GotoTwice(WriteKeypair(s, kp, Created), t, BootCreate(kp), LoadCheck(kp, false, Publish));
  }

  lemma Ends(s: Sys, t: nat, goes: seq<Action>, j: nat, n: Sys)
    requires Leads(s, t, goes, j, n) && Going(goes) && At(n, t, Idle)
    ensures Goes(s, t, goes) == n
  {
    Rests(s, t, goes, j, n, |goes|);
    assert goes[..|goes|] == goes;
  }

  lemma Placed(w: Sys, t: nat, o: nat, kp: KeyPair, n: Sys)
    requires InRange(w, t) && w.keypair.Some? && w.keypair.value.data == kp && Serves(w, o, kp)
    requires n == Goto(WithPub(w, kp), t, Idle)
    ensures InPlace(n, t, o, kp)
  {
  }

  /** A stored keypair that the replica loads and then publishes. */
  lemma LoadThenPublish(s: Sys, t: nat, goes: seq<Action>, k: nat, w: Sys, o: nat, kp: KeyPair)
    requires InRange(w, t) && o == w.tasks[t].owner && Going(goes) && k + 4 <= |goes|
    requires Leads(s, t, goes, k, Goto(w, t, LoadCheck(kp, false, Publish))) && LoadsAt(w.derive, kp, Mark(w, t))
    requires w.keypair.Some? && w.keypair.value.data == kp
    ensures InPlace(Goes(s, t, goes), t, o, kp)
  {
    LoadsAlone(s, t, goes, k, w, o, kp, false, Publish);
    var f := Fitted(w, o, kp, goes[k+1]);
    var j := PublishesAlone(s, t, goes, k + 2, f, PubGet(kp, None), kp, None);
    var n := Goto(WithPub(f, kp), t, Idle);
    Ends(s, t, goes, j, n);
    Placed(f, t, o, kp, n);
  }

  /** A rotated keypair that the replica publishes and then loads. */
  lemma PublishThenLoad(s: Sys, t: nat, goes: seq<Action>, k: nat, w: Sys, o: nat, kp: KeyPair)
    requires InRange(w, t) && o == w.tasks[t].owner && Going(goes) && k + 4 <= |goes|
    requires Leads(s, t, goes, k, Goto(w, t, PubGet(kp, Some(Finish)))) && LoadsAt(w.derive, kp, Mark(w, t))
    requires w.keypair.Some? && w.keypair.value.data == kp
    ensures InPlace(Goes(s, t, goes), t, o, kp)
  {
    var j := PublishesAlone(s, t, goes, k, w, PubGet(kp, Some(Finish)), kp, Some(Finish));
    var p := WithPub(w, kp);
    LoadsAlone(s, t, goes, j, p, o, kp, false, Finish);
    var f := Fitted(p, o, kp, goes[j+1]);
    Ends(s, t, goes, j + 2, Goto(f, t, Idle));
  }

  lemma CreateStarts(s: Sys, t: nat, priv: string, kp: KeyPair)
    requires At(s, t, Idle) && Fresh(s, kp, priv, Mark(s, t) + 1)
    ensures Step(s, t, StartBoot(priv)) == Goto(s, t, BootCreate(kp))
  {
    FreshIs(s, kp, priv, Mark(s, t) + 1);
  }

  /** A first boot that nothing interrupts stores, serves and publishes the generation above the replica's mark. */
  lemma BootsAlone(s: Sys, t: nat, priv: string, kp: KeyPair, goes: seq<Action>)
    requires At(s, t, Idle) && s.keypair.None? && Fresh(s, kp, priv, Mark(s, t) + 1)
    requires Going(goes) && |goes| >= 5
    ensures InPlace(Goes(Step(s, t, StartBoot(priv)), t, goes), t, s.tasks[t].owner, kp)
  {
    CreateStarts(s, t, priv, kp);
    var b, w := Goto(s, t, BootCreate(kp)), WriteKeypair(s, kp, Created);
    Starts(b, t, goes);
    CreateWrites(s, t, kp, goes[0]);
    Then(b, t, goes, 0, b, Goto(w, t, LoadCheck(kp, false, Publish)));
    LoadThenPublish(b, t, goes, 1, w, s.tasks[t].owner, kp);
  }

  // ---- adopting ----

  lemma CreateLoses(s: Sys, t: nat, kp: KeyPair, a: Action)
    requires InRange(s, t) && a.Go? && s.keypair.Some?
    ensures Step(Goto(s, t, BootCreate(kp)), t, a) == Goto(s, t, BootGet)
  {
    GotoTwice(s, t, BootCreate(kp), BootGet);
  }

  lemma Adopts(s: Sys, t: nat, a: Action)
    requires InRange(s, t) && a.Go? && s.keypair.Some?
    ensures Step(Goto(s, t, BootGet), t, a) == Goto(s, t, LoadCheck(s.keypair.value.data, true, HealPub))
  {
    GotoTwice(s, t, BootGet, LoadCheck(s.keypair.value.data, true, HealPub));
  }

  /** The first three steps of a boot that finds a keypair: the create loses, the Secret is read, its payload checked. */
  lemma AdoptionLoads(s: Sys, t: nat, priv: string, mine: KeyPair, goes: seq<Action>, b: Sys, o: nat, kp: KeyPair)
    requires At(s, t, Idle) && Fresh(s, mine, priv, Mark(s, t) + 1) && b == Goto(s, t, BootCreate(mine))
    requires s.keypair.Some? && s.keypair.value.data == kp && LoadsAt(s.derive, kp, Mark(s, t))
    requires Going(goes) && |goes| >= 4 && o == s.tasks[t].owner
    ensures Leads(b, t, goes, 4, Goto(Fitted(s, o, kp, goes[3]), t, HealGetPub)) && Serves(Fitted(s, o, kp, goes[3]), o, kp)
  {
    Starts(b, t, goes);
    CreateLoses(s, t, mine, goes[0]);
    Then(b, t, goes, 0, b, Goto(s, t, BootGet));
    Adopts(s, t, goes[1]);
    Then(b, t, goes, 1, Goto(s, t, BootGet), Goto(s, t, LoadCheck(kp, true, HealPub)));
    LoadsAlone(b, t, goes, 2, s, o, kp, true, HealPub);
  }

  lemma HealReads(s: Sys, t: nat, kp: KeyPair, a: Action)
    requires InRange(s, t) && a.Go? && s.keypair.Some? && s.keypair.value.data == kp && Parses(kp)
    ensures Step(Goto(s, t, HealGetPub), t, a) == Goto(s, t, if s.pub.None? then HealGetKey else Idle)
    ensures Step(Goto(s, t, HealGetKey), t, a) == Goto(s, t, PubGet(kp, None))
  {
    GotoTwice(s, t, HealGetPub, if s.pub.None? then HealGetKey else Idle);
    GotoTwice(s, t, HealGetKey, PubGet(kp, None));
  }

  /**
    A boot that finds a keypair and is not interrupted serves it, leaves it
    stored, and publishes it if the public Secret is missing; one that is there
    is left alone.
   */
  lemma AdoptsAlone(s: Sys, t: nat, priv: string, mine: KeyPair, kp: KeyPair, goes: seq<Action>)
    requires At(s, t, Idle) && Fresh(s, mine, priv, Mark(s, t) + 1)
    requires s.keypair.Some? && s.keypair.value.data == kp && LoadsAt(s.derive, kp, Mark(s, t))
    requires Going(goes) && |goes| >= 8
    ensures var n, o := Goes(Step(s, t, StartBoot(priv)), t, goes), s.tasks[t].owner;
            && At(n, t, Idle) && Serves(n, o, kp) && n.keypair == s.keypair && n.hist == s.hist
            && (s.pub.None? ==> Shows(n, kp)) && (s.pub.Some? ==> n.pub == s.pub)
  {
    var o := s.tasks[t].owner;
    CreateStarts(s, t, priv, mine);
    var b := Goto(s, t, BootCreate(mine));
    AdoptionLoads(s, t, priv, mine, goes, b, o, kp);
    Heals(b, t, goes, Fitted(s, o, kp, goes[3]), kp);
  }

  lemma Heals(b: Sys, t: nat, goes: seq<Action>, f: Sys, kp: KeyPair)
    requires InRange(f, t) && Going(goes) && |goes| >= 8 && Leads(b, t, goes, 4, Goto(f, t, HealGetPub))
    requires f.keypair.Some? && f.keypair.value.data == kp && Parses(kp)
    ensures Goes(b, t, goes) == Goto(if f.pub.None? then WithPub(f, kp) else f, t, Idle)
  {
    HealReads(f, t, kp, goes[4]);
    if f.pub.Some? {
      Then(b, t, goes, 4, Goto(f, t, HealGetPub), Goto(f, t, Idle));
      Ends(b, t, goes, 5, Goto(f, t, Idle));
    } else {
      Then(b, t, goes, 4, Goto(f, t, HealGetPub), Goto(f, t, HealGetKey));
      HealReads(f, t, kp, goes[5]);
      Then(b, t, goes, 5, Goto(f, t, HealGetKey), Goto(f, t, PubGet(kp, None)));
      var j := PublishesAlone(b, t, goes, 6, f, PubGet(kp, None), kp, None);
      Ends(b, t, goes, j, Goto(WithPub(f, kp), t, Idle));
    }
  }

  // ---- rotating ----

  lemma RotateReads(s: Sys, t: nat, h: int, a: Action)
    requires InRange(s, t) && a.Go? && h == Mark(s, t)
    ensures Step(Goto(s, t, RotateRead(h)), t, a) == Goto(s, t, RotateGet(h + 1, h, Rotated(h, h), Finish))
  {
    GotoTwice(s, t, RotateRead(h), RotateGet(h + 1, h, Rotated(h, h), Finish));
  }

  lemma RotateFinds(s: Sys, t: nat, h: int, kp: KeyPair, a: Action)
    requires InRange(s, t) && a.Go? && s.keypair.Some? && Parses(s.keypair.value.data) && Fresh(s, kp, a.priv, h + 1)
    ensures Step(Goto(s, t, RotateGet(h + 1, h, Rotated(h, h), Finish)), t, a) ==
            Goto(s, t, if s.keypair.value.data.gen == h
                       then RotateUpdate(kp, s.keypair.value.version, h, Rotated(h, h), Finish) else Idle)
  {
    FreshIs(s, kp, a.priv, h + 1);
    GotoTwice(s, t, RotateGet(h + 1, h, Rotated(h, h), Finish), Idle);
    GotoTwice(s, t, RotateGet(h + 1, h, Rotated(h, h), Finish),
              RotateUpdate(kp, s.keypair.value.version, h, Rotated(h, h), Finish));
  }

  lemma RotateWrites(s: Sys, t: nat, h: int, kp: KeyPair, pc: PC, a: Action)
    requires InRange(s, t) && a.Go? && s.keypair.Some?
    requires pc == RotateUpdate(kp, s.keypair.value.version, h, Rotated(h, h), Finish)
    ensures Step(Goto(s, t, pc), t, a) == Goto(WriteKeypair(s, kp, Rotated(h, h)), t, PubGet(kp, Some(Finish)))
  {
    GotoTwice(WriteKeypair(s, kp, Rotated(h, h)), t, pc, PubGet(kp, Some(Finish)));
  }

  lemma RotationReads(s: Sys, t: nat, goes: seq<Action>, h: int, r: Sys)
    requires At(s, t, Idle) && Going(goes) && |goes| >= 2 && h == Mark(s, t) && r == Goto(s, t, RotateRead(h))
    ensures Step(s, t, StartRotate) == r
    ensures Leads(r, t, goes, 1, Goto(s, t, RotateGet(h + 1, h, Rotated(h, h), Finish)))
  {
    Starts(r, t, goes);
    RotateReads(s, t, h, goes[0]);
    Then(r, t, goes, 0, r, Goto(s, t, RotateGet(h + 1, h, Rotated(h, h), Finish)));
  }

  /** A rotation of the generation in the Secret that nothing interrupts stores, publishes and serves the next one. */
  lemma RotatesAlone(s: Sys, t: nat, kp: KeyPair, goes: seq<Action>)
    requires At(s, t, Idle) && Going(goes) && |goes| >= 7
    requires s.keypair.Some? && Parses(s.keypair.value.data) && s.keypair.value.data.gen == Mark(s, t)
    requires Fresh(s, kp, goes[1].priv, Mark(s, t) + 1)
    ensures InPlace(Goes(Step(s, t, StartRotate), t, goes), t, s.tasks[t].owner, kp)
  {
    var h := Mark(s, t);
    var r := Goto(s, t, RotateRead(h));
    RotationReads(s, t, goes, h, r);
    RotateFinds(s, t, h, kp, goes[1]);
    var pc := RotateUpdate(kp, s.keypair.value.version, h, Rotated(h, h), Finish);
    Then(r, t, goes, 1, Goto(s, t, RotateGet(h + 1, h, Rotated(h, h), Finish)), Goto(s, t, pc));
    RotateWrites(s, t, h, kp, pc, goes[2]);
    var w := WriteKeypair(s, kp, Rotated(h, h));
    Then(r, t, goes, 2, Goto(s, t, pc), Goto(w, t, PubGet(kp, Some(Finish))));
    PublishThenLoad(r, t, goes, 3, w, s.tasks[t].owner, kp);
  }

  /** One that finds another generation in the Secret than its replica's mark changes nothing. */
  lemma RotationRefused(s: Sys, t: nat, kp: KeyPair, goes: seq<Action>)
    requires At(s, t, Idle) && Going(goes) && |goes| >= 2
    requires s.keypair.Some? && Parses(s.keypair.value.data) && s.keypair.value.data.gen != Mark(s, t)
    requires Fresh(s, kp, goes[1].priv, Mark(s, t) + 1)
    ensures Goes(Step(s, t, StartRotate), t, goes) == s
  {
    var h := Mark(s, t);
    var r := Goto(s, t, RotateRead(h));
    RotationReads(s, t, goes, h, r);
    RotateFinds(s, t, h, kp, goes[1]);
    Then(r, t, goes, 1, Goto(s, t, RotateGet(h + 1, h, Rotated(h, h), Finish)), Goto(s, t, Idle));
    Ends(r, t, goes, 2, Goto(s, t, Idle));
    assert s.tasks[t].(pc := Idle) == s.tasks[t];
    assert Goto(s, t, Idle).tasks == s.tasks;
  }

  // ---- recovering ----

  /** A recovery aims above both the generation it saw and its replica's mark, and at no more than one above. */
  lemma RecoveryAims(s: Sys, t: nat, g: int, next: Next, a: Action) returns (n: int)
    requires InRange(s, t) && a.Go?
    ensures n > g && n > Mark(s, t) && (n == g + 1 || n == Mark(s, t) + 1)
    ensures Step(Goto(s, t, RecoverRead(g, next)), t, a) == Goto(s, t, RotateGet(n, g, Recovered, next))
  {
    n := if Mark(s, t) > g then Mark(s, t) + 1 else g + 1;
    GotoTwice(s, t, RecoverRead(g, next), RotateGet(n, g, Recovered, next));
  }

  /** What a recovery takes the Secret to be: corrupt, or of the generation it saw. */
  predicate Broken(s: Sys, g: int) {
    s.keypair.Some? && (Parses(s.keypair.value.data) ==> s.keypair.value.data.gen == g)
  }

  lemma RecoveryFinds(s: Sys, t: nat, n: int, g: int, next: Next, kp: KeyPair, a: Action)
    requires InRange(s, t) && a.Go? && Broken(s, g) && Fresh(s, kp, a.priv, n)
    ensures Step(Goto(s, t, RotateGet(n, g, Recovered, next)), t, a) ==
            Goto(s, t, RotateUpdate(kp, s.keypair.value.version, g, Recovered, next))
  {
    FreshIs(s, kp, a.priv, n);
    GotoTwice(s, t, RotateGet(n, g, Recovered, next), RotateUpdate(kp, s.keypair.value.version, g, Recovered, next));
  }

  lemma RecoveryWrites(s: Sys, t: nat, g: int, next: Next, kp: KeyPair, pc: PC, a: Action)
    requires InRange(s, t) && a.Go? && s.keypair.Some? && pc == RotateUpdate(kp, s.keypair.value.version, g, Recovered, next)
    ensures Step(Goto(s, t, pc), t, a) == Goto(WriteKeypair(s, kp, Recovered), t, PubGet(kp, Some(next)))
  {
    GotoTwice(WriteKeypair(s, kp, Recovered), t, pc, PubGet(kp, Some(next)));
  }

  /** A recovery that nothing interrupts replaces a corrupt or stale payload, publishes the new one and serves it. */
  lemma RecoversAlone(s: Sys, t: nat, g: int, kp: KeyPair, goes: seq<Action>)
    requires InRange(s, t) && Going(goes) && |goes| >= 7 && Broken(s, g)
    requires Fresh(s, kp, goes[1].priv, if Mark(s, t) > g then Mark(s, t) + 1 else g + 1)
    ensures InPlace(Goes(Goto(s, t, RecoverRead(g, Finish)), t, goes), t, s.tasks[t].owner, kp)
  {
    var r := Goto(s, t, RecoverRead(g, Finish));
    Starts(r, t, goes);
    var n := RecoveryAims(s, t, g, Finish, goes[0]);
    Then(r, t, goes, 0, r, Goto(s, t, RotateGet(n, g, Recovered, Finish)));
    RecoveryFinds(s, t, n, g, Finish, kp, goes[1]);
    var pc := RotateUpdate(kp, s.keypair.value.version, g, Recovered, Finish);
    Then(r, t, goes, 1, Goto(s, t, RotateGet(n, g, Recovered, Finish)), Goto(s, t, pc));
    RecoveryWrites(s, t, g, Finish, kp, pc, goes[2]);
    var w := WriteKeypair(s, kp, Recovered);
    Then(r, t, goes, 2, Goto(s, t, pc), Goto(w, t, PubGet(kp, Some(Finish))));
    PublishThenLoad(r, t, goes, 3, w, s.tasks[t].owner, kp);
  }

  // ---- failing ----

  /** The points at which a task waits for the store. */
  predicate Waiting(pc: PC) {
    || pc.BootCreate? || pc.BootGet? || pc.RotateGet? || pc.RotateUpdate? || pc.PubGet? || pc.PubCreate?
    || pc.PubReget? || pc.PubUpdate? || pc.HealGetPub? || pc.HealGetKey?
  }

  /**
    A store call, and nothing else, can fail: its task ends and all else stays.  One
    whose reply is lost has had its effect, and its task ends all the same.
   */
  lemma FailuresExactly(s: Sys, t: nat, priv: string)
    requires InRange(s, t)
    ensures Step(s, t, Fail) == if Waiting(s.tasks[t].pc) then Goto(s, t, Idle) else s
    ensures Waiting(s.tasks[t].pc) ==> Step(s, t, LoseReply(priv)) == Goto(Step(s, t, Go(priv, 0, 0)), t, Idle)
    ensures !Waiting(s.tasks[t].pc) ==> Step(s, t, LoseReply(priv)) == s
  {
  }

  /** A healing boot that finds no payload to publish gives up. */
  lemma HealNeedsPayload(s: Sys, t: nat, a: Action)
    requires InRange(s, t) && a.Go? && (s.keypair.Some? ==> !Parses(s.keypair.value.data))
    ensures Step(Goto(s, t, HealGetKey), t, a) == Goto(s, t, Idle)
  {
    GotoTwice(s, t, HealGetKey, Idle);
  }

  /** An update of either Secret takes effect at the version it read and at no other. */
  lemma UpdatesCompareVersions(s: Sys, t: nat, kp: KeyPair, v: nat, g: int, origin: Origin, next: Next, rest: Option<Next>, a: Action)
    requires InRange(s, t) && a.Go?
    ensures var n := Step(Goto(s, t, PubUpdate(kp, v, rest)), t, a);
            if s.pub.Some? && s.pub.value.version == v
            then n.pub == Some(Secret(PubPayload(kp.pub, kp.gen), s.revision + 1)) && n.revision == s.revision + 1
            else n == Goto(s, t, Idle)
    ensures var n := Step(Goto(s, t, RotateUpdate(kp, v, g, origin, next)), t, a);
            if s.keypair.Some? && s.keypair.value.version == v
            then n.keypair == Some(Secret(kp, s.revision + 1)) && n.revision == s.revision + 1
            else n == Goto(s, t, Idle)
  {
    GotoTwice(s, t, PubUpdate(kp, v, rest), Idle);
    GotoTwice(s, t, RotateUpdate(kp, v, g, origin, next), Idle);
  }
}
