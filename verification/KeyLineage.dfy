/**
  The keypair protocol: any number of replicas, each running any number of
  boots, controller rotations, watch loads and recoveries, against two Secrets
  whose updates are compare-and-swap on the resource version.

  A task holds a program counter between any two accesses to the store or to
  its replica's locked state.  Every action is a function of the state and its
  label, so a run is a sequence of labels; an action that is not enabled leaves
  the state alone.
 */
module KeyLineage {
  import opened Wrappers
  import opened KeyManager

  datatype Secret<T> = Secret(data: T, version: nat)

  /** How a stored keypair came to be written. */
  datatype Origin =
    | Created
    | Rotated(first: int, second: int)  // the two unlocked reads of the mark
    | Recovered

  /** What follows a successful load. */
  datatype Next = Finish | HealPub | Publish

  datatype PC =
    | Idle
    | BootCreate(kp: KeyPair)
    | BootGet
    | LoadCheck(kp: KeyPair, recover: bool, next: Next)  // read lock: the assert
    | LoadInstall(kp: KeyPair, next: Next)               // write lock: the install
    | RecoverRead(gen: int, next: Next)
    | RotateRead(first: int)
    | RotateGet(gen: int, expected: int, origin: Origin, next: Next)
    | RotateUpdate(kp: KeyPair, version: nat, expected: int, origin: Origin, next: Next)
    | PubGet(kp: KeyPair, rest: Option<Next>)
    | PubCreate(kp: KeyPair, rest: Option<Next>)
    | PubReget(kp: KeyPair, rest: Option<Next>)
    | PubUpdate(kp: KeyPair, version: nat, rest: Option<Next>)
    | HealGetPub
    | HealGetKey

  datatype Task = Task(owner: nat, pc: PC)

  datatype Sys = Sys(
    derive: Derivation,
    retention: int,
    keypair: Option<Secret<KeyPair>>,
    pub: Option<Secret<PubPayload>>,
    revision: nat,             // the API server's store-wide revision
    replicas: seq<Replica>,
    tasks: seq<Task>,
    hist: seq<KeyPair>,        // every payload the keypair Secret ever held
    origins: seq<Origin>)      // how each of them was written

  datatype Action =
    | StartBoot(priv: string)
    | StartRotate
    | Deliver(i: nat)                              // a watch delivery, possibly stale
    | Go(priv: string, sweepAt: int, stampAt: int) // its next step
    | Fail                                         // a store call fails with no effect
    | LoseReply(priv: string)                      // a store call takes effect, its reply is lost
    | Crash                                        // the whole replica restarts empty

  // ---- pieces of a step ----

  function Generated(s: Sys, priv: string, gen: int): Option<KeyPair> {
    var p := s.derive(priv);
    if gen >= 1 && priv != "" && p.Some? && p.value != "" then Some(KeyPair(priv, p.value, gen)) else None
  }

  function Goto(s: Sys, t: nat, pc: PC): Sys
    requires t < |s.tasks|
  {
    s.(tasks := s.tasks[t := s.tasks[t].(pc := pc)])
  }

  function WriteKeypair(s: Sys, kp: KeyPair, origin: Origin): Sys {
    s.(keypair := Some(Secret(kp, s.revision + 1)), revision := s.revision + 1,
       hist := s.hist + [kp], origins := s.origins + [origin])
  }

  function WritePub(s: Sys, kp: KeyPair): Sys {
    s.(pub := Some(Secret(Public(kp), s.revision + 1)), revision := s.revision + 1)
  }

  function AfterPub(kp: KeyPair, rest: Option<Next>): PC {
    if rest.None? then Idle else LoadCheck(kp, false, rest.value)
  }

  function Compared(sec: Secret<PubPayload>, kp: KeyPair, rest: Option<Next>): PC {
    if sec.data == Public(kp) then AfterPub(kp, rest) else PubUpdate(kp, sec.version, rest)
  }

  function AfterLoad(kp: KeyPair, next: Next): PC {
    match next case Finish => Idle case HealPub => HealGetPub case Publish => PubGet(kp, None)
  }

  /** rotateTo up to its Update: the generation precondition, then a fresh keypair. */
  function Prepared(s: Sys, sec: Secret<KeyPair>, pc: PC, priv: string): PC
    requires pc.RotateGet?
  {
    if (if Parses(sec.data) then sec.data.gen != pc.expected else !pc.origin.Recovered?) then Idle
    else
      var kp := Generated(s, priv, pc.gen);
      if kp.None? then Idle
      else RotateUpdate(kp.value, sec.version, pc.expected, pc.origin, pc.next)
  }

  predicate InRange(s: Sys, t: nat) {
    t < |s.tasks| && s.tasks[t].owner < |s.replicas|
  }

  function Mark(s: Sys, t: nat): int
    requires InRange(s, t)
  {
    s.replicas[s.tasks[t].owner].highwater
  }

  /** Where a step that writes nothing takes its task. */
  function Read(s: Sys, t: nat, priv: string): PC
    requires InRange(s, t)
  {
    var pc := s.tasks[t].pc;
    match pc
    case BootGet => if s.keypair.None? then Idle else LoadCheck(s.keypair.value.data, true, HealPub)
    case LoadCheck(kp, recover, next) =>
      (match LoadOutcome(s.derive, Some(kp), Mark(s, t))
       case Loaded => LoadInstall(kp, next)
       case Corrupt(g) => if recover then RecoverRead(g, next) else Idle)
    case RecoverRead(g, next) =>
      RotateGet(if Mark(s, t) + 1 > g + 1 then Mark(s, t) + 1 else g + 1, g, Recovered, next)
    case RotateRead(first) => RotateGet(first + 1, Mark(s, t), Rotated(first, Mark(s, t)), Finish)
    case RotateGet(_, _, _, _) => if s.keypair.None? then Idle else Prepared(s, s.keypair.value, pc, priv)
    case PubGet(kp, rest) => if s.pub.None? then PubCreate(kp, rest) else Compared(s.pub.value, kp, rest)
    case PubReget(kp, rest) => if s.pub.None? then Idle else Compared(s.pub.value, kp, rest)
    case HealGetPub => if s.pub.None? then HealGetKey else Idle
    case HealGetKey =>
      if s.keypair.Some? && Parses(s.keypair.value.data) then PubGet(s.keypair.value.data, None) else Idle
    case _ => Idle
  }

  function Advance(s: Sys, t: nat, priv: string, sweepAt: int, stampAt: int): Sys
    requires InRange(s, t)
  {
    match s.tasks[t].pc
    case BootCreate(kp) =>
      if s.keypair.None? then Goto(WriteKeypair(s, kp, Created), t, LoadCheck(kp, false, Publish))
      else Goto(s, t, BootGet)
    case RotateUpdate(kp, version, _, origin, next) =>
      if s.keypair.Some? && s.keypair.value.version == version
      then Goto(WriteKeypair(s, kp, origin), t, PubGet(kp, Some(next)))
      else Goto(s, t, Idle)
    case PubCreate(kp, rest) =>
      if s.pub.None? then Goto(WritePub(s, kp), t, AfterPub(kp, rest)) else Goto(s, t, PubReget(kp, rest))
    case PubUpdate(kp, version, rest) =>
      if s.pub.Some? && s.pub.value.version == version
      then Goto(WritePub(s, kp), t, AfterPub(kp, rest)) else Goto(s, t, Idle)
    case LoadInstall(kp, next) =>
      var o := s.tasks[t].owner;
      Goto(s.(replicas := s.replicas[o := Installed(s.replicas[o], kp, sweepAt, stampAt, s.retention)]),
           t, AfterLoad(kp, next))
    case _ => Goto(s, t, Read(s, t, priv))
  }

  /** Store calls are the only steps that can fail or lose their reply. */
  predicate CallsStore(pc: PC) {
    !(pc.Idle? || pc.LoadCheck? || pc.LoadInstall? || pc.RecoverRead? || pc.RotateRead?)
  }

  function Crashed(s: Sys, o: nat): Sys
    requires o < |s.replicas|
  {
    s.(replicas := s.replicas[o := EMPTY_REPLICA],
       tasks := seq(|s.tasks|, i requires 0 <= i < |s.tasks| =>
         if s.tasks[i].owner == o then s.tasks[i].(pc := Idle) else s.tasks[i]))
  }

  function Step(s: Sys, t: nat, a: Action): Sys {
    if !InRange(s, t) then s
    else
      var pc := s.tasks[t].pc;
      match a
      case StartBoot(priv) =>
        var kp := Generated(s, priv, Mark(s, t) + 1);
        if pc.Idle? && kp.Some? then Goto(s, t, BootCreate(kp.value)) else s
      case StartRotate => if pc.Idle? then Goto(s, t, RotateRead(Mark(s, t))) else s
      case Deliver(i) => if pc.Idle? && i < |s.hist| then Goto(s, t, LoadCheck(s.hist[i], true, Finish)) else s
      case Go(priv, x, y) => if pc.Idle? then s else Advance(s, t, priv, x, y)
      case Fail => if CallsStore(pc) then Goto(s, t, Idle) else s
      case LoseReply(priv) => if CallsStore(pc) then Goto(Advance(s, t, priv, 0, 0), t, Idle) else s
      case Crash => Crashed(s, s.tasks[t].owner)
  }

  /** No Secret yet, every replica fresh, every task idle. */
  ghost predicate Initial(s: Sys) {
    && s.keypair.None? && s.pub.None? && s.hist == [] && s.origins == []
    && (forall i :: 0 <= i < |s.replicas| ==> s.replicas[i] == EMPTY_REPLICA)
    && (forall i :: 0 <= i < |s.tasks| ==> s.tasks[i].pc.Idle? && s.tasks[i].owner < |s.replicas|)
  }

  function Run(s: Sys, acts: seq<(nat, Action)>): Sys {
    if acts == [] then s
    else var n := |acts| - 1; Step(Run(s, acts[..n]), acts[n].0, acts[n].1)
  }

  // ---- what every run keeps ----

  predicate Sound(s: Sys, kp: KeyPair) {
    Parses(kp) && s.derive(kp.priv) == Some(kp.pub)
  }

  /** A rotation about to run or running, tied to the reads it made. */
  predicate Planned(gen: int, expected: int, origin: Origin) {
    match origin
    case Created => false
    case Rotated(a, b) => gen == a + 1 && expected == b && a <= b
    case Recovered => gen > expected
  }

  /** A stored keypair had a higher generation than `g`. */
  ghost predicate Superseded(s: Sys, g: int) {
    exists kp :: kp in s.hist && kp.gen > g
  }

  ghost predicate TaskOk(s: Sys, owner: nat, pc: PC) {
    && owner < |s.replicas|
    && match pc
       case BootCreate(kp) => Sound(s, kp)
       case LoadCheck(kp, _, _) => kp in s.hist
       case LoadInstall(kp, _) => kp in s.hist
       case RotateRead(first) => first <= s.replicas[owner].highwater
       case RecoverRead(g, _) => Superseded(s, g)
       case RotateGet(gen, expected, origin, _) =>
         Planned(gen, expected, origin) && (origin.Recovered? ==> Superseded(s, expected))
       case RotateUpdate(kp, version, expected, origin, _) =>
         && Sound(s, kp) && Planned(kp.gen, expected, origin)
         && (origin.Recovered? ==> Superseded(s, expected))
         && s.keypair.Some? && version <= s.keypair.value.version
         && (version == s.keypair.value.version ==> s.keypair.value.data.gen == expected)
       case PubGet(kp, _) => kp in s.hist
       case PubCreate(kp, _) => kp in s.hist
       case PubReget(kp, _) => kp in s.hist
       case PubUpdate(kp, _, _) => kp in s.hist
       case _ => true
  }

  ghost predicate ReplicaOk(s: Sys, v: Replica) {
    && v.highwater >= 0
    && (v.highwater > 0 ==> exists kp :: kp in s.hist && kp.gen == v.highwater)
    && (forall g :: g in v.resolvers ==> exists kp :: kp in s.hist && kp.gen == g && kp.priv == v.resolvers[g])
  }

  /** What one write of the keypair Secret did to the generation. */
  predicate WriteOk(before: KeyPair, after: KeyPair, origin: Origin) {
    match origin
    case Created => false
    case Rotated(a, b) => after.gen == a + 1 && before.gen == b && a <= b
    case Recovered => after.gen > before.gen
  }

  /** The write at `i` replaced a generation that an earlier write had already passed. */
  ghost predicate LateRecovery(hist: seq<KeyPair>, i: nat)
    requires i < |hist|
  {
    i > 0 && exists j :: 0 <= j < i && hist[j].gen > hist[i-1].gen
  }

  ghost predicate StoreOk(s: Sys) {
    && |s.origins| == |s.hist|
    && (s.keypair.None? <==> s.hist == [])
    && (s.keypair.Some? ==> s.keypair.value.data == s.hist[|s.hist|-1] && s.keypair.value.version <= s.revision)
    && (forall i :: 0 <= i < |s.hist| ==> Sound(s, s.hist[i]))
    && (s.hist != [] ==> s.origins[0] == Created)
    && (forall i :: 0 < i < |s.hist| ==> WriteOk(s.hist[i-1], s.hist[i], s.origins[i]))
    && (forall i :: 0 <= i < |s.hist| && s.origins[i].Recovered? ==> LateRecovery(s.hist, i))
    && (s.pub.Some? ==> exists kp :: kp in s.hist && s.pub.value.data == Public(kp))
  }

  ghost predicate Inv(s: Sys) {
    && StoreOk(s)
    && (forall i :: 0 <= i < |s.replicas| ==> ReplicaOk(s, s.replicas[i]))
    && (forall i :: 0 <= i < |s.tasks| ==> TaskOk(s, s.tasks[i].owner, s.tasks[i].pc))
  }

  // ---- the four ways a step changes the state ----

  lemma GotoKeeps(s: Sys, t: nat, pc: PC)
    requires Inv(s) && t < |s.tasks| && TaskOk(s, s.tasks[t].owner, pc)
    ensures Inv(Goto(s, t, pc))
  {
    var s' := Goto(s, t, pc);
    forall i | 0 <= i < |s'.replicas| ensures ReplicaOk(s', s'.replicas[i]) {
      assert ReplicaOk(s, s.replicas[i]);
    }
    forall i | 0 <= i < |s'.tasks| ensures TaskOk(s', s'.tasks[i].owner, s'.tasks[i].pc) {
      assert TaskOk(s, s.tasks[i].owner, s.tasks[i].pc);
    }
  }

  lemma StoreWriteKeeps(s: Sys, kp: KeyPair, origin: Origin)
    requires StoreOk(s) && Sound(s, kp)
    requires if s.hist == [] then origin == Created else WriteOk(s.hist[|s.hist|-1], kp, origin)
    requires origin.Recovered? ==> Superseded(s, s.hist[|s.hist|-1].gen)
    ensures StoreOk(WriteKeypair(s, kp, origin))
  {
    var s' := WriteKeypair(s, kp, origin);
    forall i | 0 <= i < |s'.hist| ensures Sound(s', s'.hist[i]) {
      if i < |s.hist| { assert Sound(s, s.hist[i]); }
    }
    forall i | 0 <= i < |s'.hist| && s'.origins[i].Recovered? ensures LateRecovery(s'.hist, i) {
      if i < |s.hist| {
        assert LateRecovery(s.hist, i);
        var j :| 0 <= j < i && s.hist[j].gen > s.hist[i-1].gen;
        assert s'.hist[j].gen > s'.hist[i-1].gen;
      } else {
        var k :| k in s.hist && k.gen > s.hist[i-1].gen;
        var j :| 0 <= j < i && s.hist[j] == k;
        assert s'.hist[j].gen > s'.hist[i-1].gen;
      }
    }
    if s.pub.Some? {
      var k :| k in s.hist && s.pub.value.data == Public(k);
      assert k in s'.hist;
    }
    assert s'.hist != [] ==> s'.origins[0] == Created;
  }

  lemma KeypairWriteKeeps(s: Sys, kp: KeyPair, origin: Origin)
    requires Inv(s) && Sound(s, kp)
    requires if s.hist == [] then origin == Created else WriteOk(s.hist[|s.hist|-1], kp, origin)
    requires origin.Recovered? ==> Superseded(s, s.hist[|s.hist|-1].gen)
    ensures Inv(WriteKeypair(s, kp, origin))
  {
    var s' := WriteKeypair(s, kp, origin);
    assert forall k :: k in s.hist ==> k in s'.hist;
    StoreWriteKeeps(s, kp, origin);
    forall i | 0 <= i < |s'.replicas| ensures ReplicaOk(s', s'.replicas[i]) {
      assert ReplicaOk(s, s.replicas[i]);
    }
    forall i | 0 <= i < |s'.tasks| ensures TaskOk(s', s'.tasks[i].owner, s'.tasks[i].pc) {
      assert TaskOk(s, s.tasks[i].owner, s.tasks[i].pc);
    }
  }

  lemma PubWriteKeeps(s: Sys, kp: KeyPair)
    requires Inv(s) && kp in s.hist
    ensures Inv(WritePub(s, kp))
  {
    var s' := WritePub(s, kp);
    forall i | 0 <= i < |s'.replicas| ensures ReplicaOk(s', s'.replicas[i]) {
      assert ReplicaOk(s, s.replicas[i]);
    }
    forall i | 0 <= i < |s'.tasks| ensures TaskOk(s', s'.tasks[i].owner, s'.tasks[i].pc) {
      assert TaskOk(s, s.tasks[i].owner, s.tasks[i].pc);
    }
  }

  lemma InstallKeeps(s: Sys, o: nat, kp: KeyPair, sweepAt: int, stampAt: int)
    requires Inv(s) && o < |s.replicas| && kp in s.hist
    ensures Inv(s.(replicas := s.replicas[o := Installed(s.replicas[o], kp, sweepAt, stampAt, s.retention)]))
  {
    var v := Installed(s.replicas[o], kp, sweepAt, stampAt, s.retention);
    var s' := s.(replicas := s.replicas[o := v]);
    assert ReplicaOk(s, s.replicas[o]);
    assert ReplicaOk(s', v) by {
      forall g | g in v.resolvers ensures exists k :: k in s'.hist && k.gen == g && k.priv == v.resolvers[g] {
        if g == kp.gen { assert kp in s'.hist && kp.gen == g && kp.priv == v.resolvers[g]; }
      }
    }
    forall i | 0 <= i < |s'.replicas| ensures ReplicaOk(s', s'.replicas[i]) {
      assert ReplicaOk(s, s.replicas[i]);
    }
    forall i | 0 <= i < |s'.tasks| ensures TaskOk(s', s'.tasks[i].owner, s'.tasks[i].pc) {
      assert TaskOk(s, s.tasks[i].owner, s.tasks[i].pc);
    }
  }

  lemma CrashKeeps(s: Sys, o: nat)
    requires Inv(s) && o < |s.replicas|
    ensures Inv(Crashed(s, o))
  {
    var s' := Crashed(s, o);
    forall i | 0 <= i < |s'.replicas| ensures ReplicaOk(s', s'.replicas[i]) {
      assert ReplicaOk(s, s.replicas[i]);
    }
    forall i | 0 <= i < |s'.tasks| ensures TaskOk(s', s'.tasks[i].owner, s'.tasks[i].pc) {
      assert TaskOk(s, s.tasks[i].owner, s.tasks[i].pc);
    }
  }

  /** A step that only reads leaves its task in order. */
  lemma PreparedOk(s: Sys, owner: nat, pc: PC, priv: string)
    requires TaskOk(s, owner, pc) && pc.RotateGet? && s.keypair.Some? && Sound(s, s.keypair.value.data)
    ensures TaskOk(s, owner, Prepared(s, s.keypair.value, pc, priv))
  {
  }

  lemma ReadOk(s: Sys, t: nat, priv: string)
    requires Inv(s) && InRange(s, t)
    ensures TaskOk(s, s.tasks[t].owner, Read(s, t, priv))
  {
    assert TaskOk(s, s.tasks[t].owner, s.tasks[t].pc);
    if s.keypair.Some? {
      assert s.keypair.value.data in s.hist && Sound(s, s.keypair.value.data);
      if s.tasks[t].pc.RotateGet? {
        PreparedOk(s, s.tasks[t].owner, s.tasks[t].pc, priv);
      }
    }
    assert ReplicaOk(s, s.replicas[s.tasks[t].owner]);
  }

  lemma BootCreateKeeps(s: Sys, t: nat, kp: KeyPair)
    requires Inv(s) && t < |s.tasks| && Sound(s, kp) && s.keypair.None?
    ensures Inv(Goto(WriteKeypair(s, kp, Created), t, LoadCheck(kp, false, Publish)))
  {
    KeypairWriteKeeps(s, kp, Created);
    GotoKeeps(WriteKeypair(s, kp, Created), t, LoadCheck(kp, false, Publish));
  }

  lemma RotateUpdateKeeps(s: Sys, t: nat, kp: KeyPair, origin: Origin, next: Next)
    requires Inv(s) && t < |s.tasks| && Sound(s, kp)
    requires s.keypair.Some? && Planned(kp.gen, s.keypair.value.data.gen, origin)
    requires origin.Recovered? ==> Superseded(s, s.keypair.value.data.gen)
    ensures Inv(Goto(WriteKeypair(s, kp, origin), t, PubGet(kp, Some(next))))
  {
    KeypairWriteKeeps(s, kp, origin);
    GotoKeeps(WriteKeypair(s, kp, origin), t, PubGet(kp, Some(next)));
  }

  lemma PublishKeeps(s: Sys, t: nat, kp: KeyPair, rest: Option<Next>)
    requires Inv(s) && t < |s.tasks| && kp in s.hist
    ensures Inv(Goto(WritePub(s, kp), t, AfterPub(kp, rest)))
  {
    PubWriteKeeps(s, kp);
    GotoKeeps(WritePub(s, kp), t, AfterPub(kp, rest));
  }

  lemma LoadInstallKeeps(s: Sys, t: nat, o: nat, kp: KeyPair, next: Next, sweepAt: int, stampAt: int)
    requires Inv(s) && t < |s.tasks| && kp in s.hist && o < |s.replicas|
    ensures Inv(Goto(s.(replicas := s.replicas[o := Installed(s.replicas[o], kp, sweepAt, stampAt, s.retention)]),
                     t, AfterLoad(kp, next)))
  {
    InstallKeeps(s, o, kp, sweepAt, stampAt);
    GotoKeeps(s.(replicas := s.replicas[o := Installed(s.replicas[o], kp, sweepAt, stampAt, s.retention)]),
              t, AfterLoad(kp, next));
  }

  lemma ReadKeeps(s: Sys, t: nat, priv: string)
    requires Inv(s) && InRange(s, t)
    ensures Inv(Goto(s, t, Read(s, t, priv)))
  {
    ReadOk(s, t, priv);
    GotoKeeps(s, t, Read(s, t, priv));
  }

  lemma AdvanceKeeps(s: Sys, t: nat, priv: string, sweepAt: int, stampAt: int)
    requires Inv(s) && InRange(s, t)
    ensures Inv(Advance(s, t, priv, sweepAt, stampAt))
  {
    var pc := s.tasks[t].pc;
    assert TaskOk(s, s.tasks[t].owner, pc);
    if pc.BootCreate? && s.keypair.None? {
      BootCreateKeeps(s, t, pc.kp);
    } else if pc.RotateUpdate? && s.keypair.value.version == pc.version {
      RotateUpdateKeeps(s, t, pc.kp, pc.origin, pc.next);
    } else if pc.PubCreate? && s.pub.None? {
      PublishKeeps(s, t, pc.kp, pc.rest);
    } else if pc.PubUpdate? && s.pub.Some? && s.pub.value.version == pc.version {
      PublishKeeps(s, t, pc.kp, pc.rest);
    } else if pc.LoadInstall? {
      LoadInstallKeeps(s, t, s.tasks[t].owner, pc.kp, pc.next, sweepAt, stampAt);
    } else if pc.BootCreate? {
      GotoKeeps(s, t, BootGet);
    } else if pc.RotateUpdate? || pc.PubUpdate? {
      GotoKeeps(s, t, Idle);
    } else if pc.PubCreate? {
      GotoKeeps(s, t, PubReget(pc.kp, pc.rest));
    } else {
      ReadKeeps(s, t, priv);
    }
  }

  lemma StartKeeps(s: Sys, t: nat, a: Action)
    requires Inv(s) && (a.StartBoot? || a.StartRotate? || a.Deliver?)
    ensures Inv(Step(s, t, a))
  {
    if InRange(s, t) && s.tasks[t].pc.Idle? {
      if a.StartBoot? {
        var kp := Generated(s, a.priv, Mark(s, t) + 1);
        if kp.Some? { GotoKeeps(s, t, BootCreate(kp.value)); }
      } else if a.StartRotate? {
        GotoKeeps(s, t, RotateRead(Mark(s, t)));
      } else if a.i < |s.hist| {
        GotoKeeps(s, t, LoadCheck(s.hist[a.i], true, Finish));
      }
    }
  }

  lemma LoseReplyKeeps(s: Sys, t: nat, priv: string)
    requires Inv(s) && InRange(s, t)
    ensures Inv(Goto(Advance(s, t, priv, 0, 0), t, Idle))
  {
    AdvanceKeeps(s, t, priv, 0, 0);
    StopKeeps(Advance(s, t, priv, 0, 0), t);
  }

  lemma StopKeeps(s: Sys, t: nat)
    requires Inv(s) && t < |s.tasks|
    ensures Inv(Goto(s, t, Idle))
  {
    assert TaskOk(s, s.tasks[t].owner, s.tasks[t].pc);
    GotoKeeps(s, t, Idle);
  }

  lemma StepKeeps(s: Sys, t: nat, a: Action)
    requires Inv(s)
    ensures Inv(Step(s, t, a))
  {
    if a.StartBoot? || a.StartRotate? || a.Deliver? {
      StartKeeps(s, t, a);
    } else if InRange(s, t) {
      match a
      case Go(priv, x, y) => AdvanceKeeps(s, t, priv, x, y);
      case Fail => GotoKeeps(s, t, Idle);
      case LoseReply(priv) => LoseReplyKeeps(s, t, priv);
      case Crash => CrashKeeps(s, s.tasks[t].owner);
    }
  }

  lemma {:induction false} RunKeeps(s: Sys, acts: seq<(nat, Action)>)
    requires Initial(s)
    ensures Inv(Run(s, acts))
  {
    if acts == [] {
    } else {
      var n := |acts| - 1;
      RunKeeps(s, acts[..n]);
      StepKeeps(Run(s, acts[..n]), acts[n].0, acts[n].1);
    }
  }

  /** A state some run of some fleet arrives in. */
  ghost predicate Reachable(f: Sys) {
    exists s, acts :: Initial(s) && f == Run(s, acts)
  }

  lemma ReachableInv(f: Sys)
    requires Reachable(f)
    ensures Inv(f)
  {
    var s, acts :| Initial(s) && f == Run(s, acts);
    RunKeeps(s, acts);
  }

  // ---- the lineage ----

  /** Every rotation that won its write had read one mark twice. */
  ghost predicate ReadsAgree(s: Sys)
  {
    forall i :: 0 <= i < |s.origins| && s.origins[i].Rotated? ==> s.origins[i].first == s.origins[i].second
  }

  /** Every write after the first strictly raised the generation. */
  ghost predicate Raised(s: Sys) {
    forall i :: 0 < i < |s.hist| ==> s.hist[i-1].gen < s.hist[i].gen
  }

  /**
    The exact condition: `Rotate` reads the mark twice without holding the
    lock, and the writes of a run all raise the generation if and only if no
    load slipped in between the two reads of a rotation that won.
   */
  lemma WritesRaiseExactlyWhenReadsAgree(f: Sys)
    requires Reachable(f)
    ensures Raised(f) <==> ReadsAgree(f)
  {
    ReachableInv(f);
    assert StoreOk(f);
    if Raised(f) {
      forall i | 0 <= i < |f.origins| && f.origins[i].Rotated? ensures f.origins[i].first == f.origins[i].second {
        assert i > 0 && WriteOk(f.hist[i-1], f.hist[i], f.origins[i]);
      }
    }
    if ReadsAgree(f) {
      forall i | 0 < i < |f.hist| ensures f.hist[i-1].gen < f.hist[i].gen {
        assert WriteOk(f.hist[i-1], f.hist[i], f.origins[i]);
      }
    }
  }

  lemma {:induction false} RaisedIsOrdered(s: Sys, i: nat, j: nat)
    requires Raised(s) && i < j < |s.hist|
    ensures s.hist[i].gen < s.hist[j].gen
    decreases j
  {
    if i == j - 1 {
    } else {
      RaisedIsOrdered(s, i, j - 1);
    }
  }

  lemma LastIsHighest(s: Sys, kp: KeyPair)
    requires Raised(s) && kp in s.hist
    ensures kp.gen <= s.hist[|s.hist|-1].gen
  {
    var i :| 0 <= i < |s.hist| && s.hist[i] == kp;
    if i < |s.hist| - 1 {
      RaisedIsOrdered(s, i, |s.hist| - 1);
    }
  }

  lemma GenerationNamesKey(s: Sys, a: KeyPair, b: KeyPair)
    requires Raised(s) && a in s.hist && b in s.hist && a.gen == b.gen
    ensures a == b
  {
    var i :| 0 <= i < |s.hist| && s.hist[i] == a;
    var j :| 0 <= j < |s.hist| && s.hist[j] == b;
    if i < j {
      RaisedIsOrdered(s, i, j);
    } else if j < i {
      RaisedIsOrdered(s, j, i);
    }
  }

  /** Single lineage: replicas that hold a resolver for one keyID hold one key. */
  lemma SingleLineage(f: Sys, i: nat, j: nat, g: int)
    requires Reachable(f) && ReadsAgree(f)
    requires i < |f.replicas| && j < |f.replicas|
    requires g in f.replicas[i].resolvers && g in f.replicas[j].resolvers
    ensures f.replicas[i].resolvers[g] == f.replicas[j].resolvers[g]
  {
    ReachableInv(f);
    WritesRaiseExactlyWhenReadsAgree(f);
    assert ReplicaOk(f, f.replicas[i]) && ReplicaOk(f, f.replicas[j]);
    var a :| a in f.hist && a.gen == g && a.priv == f.replicas[i].resolvers[g];
    var b :| b in f.hist && b.gen == g && b.priv == f.replicas[j].resolvers[g];
    GenerationNamesKey(f, a, b);
  }

  /**
    Torn-write order: what is published is the public half of a stored
    keypair, and no published generation is ahead of the private one.
   */
  lemma PublishedWasStored(f: Sys)
    requires Reachable(f) && f.pub.Some?
    ensures exists kp :: kp in f.hist && f.pub.value.data == Public(kp)
    ensures ReadsAgree(f) ==>
              && f.keypair.Some?
              && f.pub.value.data.gen <= f.keypair.value.data.gen
  {
    ReachableInv(f);
    assert StoreOk(f);
    var kp :| kp in f.hist && f.pub.value.data == Public(kp);
    if ReadsAgree(f) {
      WritesRaiseExactlyWhenReadsAgree(f);
      LastIsHighest(f, kp);
    }
  }

  /** The states of the self-issued rotation, from its first read to its update. */
  predicate Recovering(pc: PC) {
    pc.RecoverRead? || ((pc.RotateGet? || pc.RotateUpdate?) && pc.origin.Recovered?)
  }

  /** A delivery below the replica's mark enters the recovery path and changes nothing else. */
  lemma StaleDeliveryStartsRecovery(f: Sys, t: nat, priv: string, x: int, y: int)
    requires Reachable(f) && InRange(f, t)
    requires f.tasks[t].pc.LoadCheck? && f.tasks[t].pc.recover
    requires f.tasks[t].pc.kp.gen < Mark(f, t)
    ensures var pc := f.tasks[t].pc;
            Step(f, t, Go(priv, x, y)) == Goto(f, t, RecoverRead(pc.kp.gen, pc.next))
  {
    ReachableInv(f);
    assert TaskOk(f, f.tasks[t].owner, f.tasks[t].pc);
  }

  /** The Secret has moved past the generation a recovery expects to find. */
  lemma ExpectationPassed(f: Sys, t: nat)
    requires Inv(f) && Raised(f) && InRange(f, t) && Recovering(f.tasks[t].pc)
    requires f.tasks[t].pc.RotateGet? || f.tasks[t].pc.RotateUpdate?
    ensures f.keypair.Some? && Sound(f, f.keypair.value.data) && f.keypair.value.data.gen > f.tasks[t].pc.expected
    ensures TaskOk(f, f.tasks[t].owner, f.tasks[t].pc)
  {
    var pc := f.tasks[t].pc;
    assert TaskOk(f, f.tasks[t].owner, pc);
    var kp :| kp in f.hist && kp.gen > pc.expected;
    LastIsHighest(f, kp);
    assert Sound(f, f.hist[|f.hist|-1]);
  }

  /** The recovery path of a stale delivery is always refused before it writes. */
  lemma StaleRecoveryWritesNothing(f: Sys, t: nat, a: Action)
    requires Reachable(f) && ReadsAgree(f) && InRange(f, t)
    requires Recovering(f.tasks[t].pc) && !a.Crash?
    ensures var f' := Step(f, t, a);
            && f' == f.(tasks := f'.tasks) && |f'.tasks| == |f.tasks|
            && (f'.tasks[t].pc.Idle? || Recovering(f'.tasks[t].pc))
  {
    ReachableInv(f);
    WritesRaiseExactlyWhenReadsAgree(f);
    if f.tasks[t].pc.RotateGet? || f.tasks[t].pc.RotateUpdate? {
      ExpectationPassed(f, t);
    }
    RefusedStep(f, t, a);
  }

  lemma RefusedStep(f: Sys, t: nat, a: Action)
    requires InRange(f, t) && Recovering(f.tasks[t].pc) && !a.Crash?
    requires f.tasks[t].pc.RotateGet? || f.tasks[t].pc.RotateUpdate? ==>
               && f.keypair.Some? && Sound(f, f.keypair.value.data) && f.keypair.value.data.gen > f.tasks[t].pc.expected
               && TaskOk(f, f.tasks[t].owner, f.tasks[t].pc)
    ensures var f' := Step(f, t, a);
            && f' == f.(tasks := f'.tasks) && |f'.tasks| == |f.tasks|
            && (f'.tasks[t].pc.Idle? || Recovering(f'.tasks[t].pc))
  {
  }

  /** So no recovery ever reaches the keypair Secret. */
  lemma NoRecoveryIsStored(f: Sys, i: nat)
    requires Reachable(f) && ReadsAgree(f) && i < |f.origins|
    ensures !f.origins[i].Recovered?
  {
    ReachableInv(f);
    WritesRaiseExactlyWhenReadsAgree(f);
    assert StoreOk(f);
    if f.origins[i].Recovered? {
      assert LateRecovery(f.hist, i);
      var j :| 0 <= j < i && f.hist[j].gen > f.hist[i-1].gen;
      LastIsHighestBefore(f, j, i - 1);
    }
  }

  lemma LastIsHighestBefore(s: Sys, j: nat, i: nat)
    requires Raised(s) && j <= i < |s.hist|
    ensures s.hist[j].gen <= s.hist[i].gen
  {
    if j < i {
      RaisedIsOrdered(s, j, i);
    }
  }

  // ---- the fork that a split read allows ----

  lemma ReachStep(f: Sys, t: nat, a: Action)
    requires Reachable(f)
    ensures Reachable(Step(f, t, a))
  {
    var s, acts :| Initial(s) && f == Run(s, acts);
    var more := acts + [(t, a)];
    assert more[..|acts|] == acts;
    assert Run(s, more) == Step(f, t, a);
  }

  /** An idle task can load a delivered payload that its replica accepts. */
  lemma ReachLoad(f: Sys, t: nat, i: nat)
    requires Reachable(f) && InRange(f, t) && f.tasks[t].pc.Idle? && i < |f.hist|
    requires LoadOutcome(f.derive, Some(f.hist[i]), Mark(f, t)).Loaded?
    ensures var o := f.tasks[t].owner;
            Reachable(f.(replicas := f.replicas[o := Installed(f.replicas[o], f.hist[i], 0, 0, f.retention)]))
  {
    var o := f.tasks[t].owner;
    var f1 := Step(f, t, Deliver(i));
    ReachStep(f, t, Deliver(i));
    var f2 := Step(f1, t, Go("", 0, 0));
    ReachStep(f1, t, Go("", 0, 0));
    assert f2.tasks[t].pc == LoadInstall(f.hist[i], Finish);
    var f3 := Step(f2, t, Go("", 0, 0));
    ReachStep(f2, t, Go("", 0, 0));
    assert f3.tasks == f.tasks;
  }

  /** The second, unlocked read of the mark and then the store read that take a rotation to its update. */
  lemma ReachGet(f: Sys, t: nat)
    requires Reachable(f) && InRange(f, t) && f.tasks[t].pc.RotateRead?
    ensures var first := f.tasks[t].pc.first;
            Reachable(Goto(f, t, RotateGet(first + 1, Mark(f, t), Rotated(first, Mark(f, t)), Finish)))
  {
    ReachStep(f, t, Go("", 0, 0));
  }

  lemma ReachPrepared(f: Sys, t: nat, priv: string)
    requires Reachable(f) && InRange(f, t) && f.tasks[t].pc.RotateGet? && f.keypair.Some?
    ensures Reachable(Goto(f, t, Prepared(f, f.keypair.value, f.tasks[t].pc, priv)))
  {
    ReachStep(f, t, Go(priv, 0, 0));
  }

  lemma ReachUpdate(f: Sys, t: nat, priv: string)
    requires Reachable(f) && InRange(f, t) && f.tasks[t].pc.RotateRead?
    requires f.keypair.Some? && Parses(f.keypair.value.data) && f.keypair.value.data.gen == Mark(f, t)
    requires Generated(f, priv, f.tasks[t].pc.first + 1).Some?
    ensures var first := f.tasks[t].pc.first;
            Reachable(Goto(f, t, RotateUpdate(Generated(f, priv, first + 1).value, f.keypair.value.version, Mark(f, t),
                                              Rotated(first, Mark(f, t)), Finish)))
  {
    var first := f.tasks[t].pc.first;
    var f1 := Goto(f, t, RotateGet(first + 1, Mark(f, t), Rotated(first, Mark(f, t)), Finish));
    ReachGet(f, t);
    ReachPrepared(f1, t, priv);
    var kp := Generated(f, priv, first + 1).value;
    var pc := RotateUpdate(kp, f.keypair.value.version, Mark(f, t), Rotated(first, Mark(f, t)), Finish);
    assert Goto(f1, t, pc).tasks == Goto(f, t, pc).tasks;
  }

  /** An update at the version read takes effect even when its reply is lost. */
  lemma ReachWritten(g: Sys, t: nat, priv: string)
    requires Reachable(g) && InRange(g, t) && g.tasks[t].pc.RotateUpdate? && g.keypair.Some?
    requires g.tasks[t].pc.version == g.keypair.value.version
    ensures Reachable(Goto(WriteKeypair(g, g.tasks[t].pc.kp, g.tasks[t].pc.origin), t, Idle))
  {
    ReachStep(g, t, LoseReply(priv));
    var w := WriteKeypair(g, g.tasks[t].pc.kp, g.tasks[t].pc.origin);
    assert Step(g, t, LoseReply(priv)).tasks == Goto(w, t, Idle).tasks;
  }

  /** A rotation past its reads can win its write and lose the reply. */
  lemma ReachRotate(f: Sys, t: nat, priv: string)
    requires Reachable(f) && InRange(f, t) && f.tasks[t].pc.RotateRead?
    requires f.keypair.Some? && Parses(f.keypair.value.data) && f.keypair.value.data.gen == Mark(f, t)
    requires Generated(f, priv, f.tasks[t].pc.first + 1).Some?
    ensures var first := f.tasks[t].pc.first;
            Reachable(Goto(WriteKeypair(f, Generated(f, priv, first + 1).value, Rotated(first, Mark(f, t))), t, Idle))
  {
    var first := f.tasks[t].pc.first;
    var kp := Generated(f, priv, first + 1).value;
    ReachUpdate(f, t, priv);
    var g := Goto(f, t, RotateUpdate(kp, f.keypair.value.version, Mark(f, t), Rotated(first, Mark(f, t)), Finish));
    ReachWritten(g, t, priv);
    var h := WriteKeypair(f, kp, Rotated(first, Mark(f, t)));
    assert Goto(WriteKeypair(g, kp, Rotated(first, Mark(f, t))), t, Idle).tasks == Goto(h, t, Idle).tasks;
  }

  function ForkStart(): Sys {
    var idle := [Task(0, Idle), Task(1, Idle), Task(0, Idle)];
    Sys((p: string) => Some(p), 1, None, None, 0, [EMPTY_REPLICA, EMPTY_REPLICA], idle, [], [])
  }

  function Holding(v: Replica, kp: KeyPair): Replica {
    Installed(v, kp, 0, 0, 1)
  }

  /** Replica 0 has created the Secret and lost the reply. */
  lemma ForkCreated(k1: KeyPair) returns (f: Sys)
    requires k1 == KeyPair("a", "a", 1)
    ensures Reachable(f) && f.derive == ForkStart().derive && f.retention == 1
    ensures f.tasks == ForkStart().tasks && f.hist == [k1]
    ensures f.keypair.Some? && f.keypair.value.data == k1
    ensures f.replicas == [EMPTY_REPLICA, EMPTY_REPLICA]
  {
    var s := ForkStart();
    assert Initial(s) && s == Run(s, []);
    assert Reachable(s);
    var s1 := Step(s, 0, StartBoot("a"));
    ReachStep(s, 0, StartBoot("a"));
    assert s1.tasks[0].pc == BootCreate(k1);
    f := Step(s1, 0, LoseReply(""));
    ReachStep(s1, 0, LoseReply(""));
    assert f.hist == [k1] && f.tasks == s.tasks;
  }

  /** First boot of replica 0, which replica 1 then adopts by watch. */
  lemma ForkBoot(k1: KeyPair) returns (f: Sys)
    requires k1 == KeyPair("a", "a", 1)
    ensures Reachable(f) && f.derive == ForkStart().derive && f.retention == 1
    ensures f.tasks == ForkStart().tasks && f.hist == [k1]
    ensures f.keypair.Some? && f.keypair.value.data == k1
    ensures f.replicas == [Holding(EMPTY_REPLICA, k1), Holding(EMPTY_REPLICA, k1)]
  {
    var s2 := ForkCreated(k1);
    ReachLoad(s2, 0, 0);
    var s3 := s2.(replicas := s2.replicas[0 := Holding(EMPTY_REPLICA, k1)]);
    ReachLoad(s3, 1, 0);
    f := s3.(replicas := s3.replicas[1 := Holding(EMPTY_REPLICA, k1)]);
  }

  /** Both replicas have read mark 1, and the second has rotated to generation 2. */
  lemma ForkRotated(k1: KeyPair, kb: KeyPair) returns (f: Sys)
    requires k1 == KeyPair("a", "a", 1) && kb == KeyPair("b", "b", 2)
    ensures Reachable(f) && f.derive == ForkStart().derive && f.retention == 1
    ensures f.tasks == [Task(0, RotateRead(1)), Task(1, Idle), Task(0, Idle)] && f.hist == [k1, kb]
    ensures f.keypair.Some? && f.keypair.value.data == kb
    ensures f.replicas == [Holding(EMPTY_REPLICA, k1), Holding(EMPTY_REPLICA, k1)]
  {
    var f0 := ForkBoot(k1);
    ReachStep(f0, 0, StartRotate);
    var f1 := Goto(f0, 0, RotateRead(1));
    ReachStep(f1, 1, StartRotate);
    var f2 := Goto(f1, 1, RotateRead(1));
    ReachRotate(f2, 1, "b");
    f := Goto(WriteKeypair(f2, kb, Rotated(1, 1)), 1, Idle);
  }

  /** Replica 0 has read mark 1 once; replica 1 has rotated to `kb`, and both have loaded it. */
  lemma ForkMiddle(k1: KeyPair, kb: KeyPair) returns (f: Sys)
    requires k1 == KeyPair("a", "a", 1) && kb == KeyPair("b", "b", 2)
    ensures Reachable(f) && f.derive == ForkStart().derive && f.retention == 1
    ensures f.tasks == [Task(0, RotateRead(1)), Task(1, Idle), Task(0, Idle)] && f.hist == [k1, kb]
    ensures f.keypair.Some? && f.keypair.value.data == kb
    ensures f.replicas == [Holding(Holding(EMPTY_REPLICA, k1), kb), Holding(Holding(EMPTY_REPLICA, k1), kb)]
  {
    var one := Holding(EMPTY_REPLICA, k1);
    var f3 := ForkRotated(k1, kb);
    ReachLoad(f3, 1, 1);
    var f4 := f3.(replicas := f3.replicas[1 := Holding(one, kb)]);
    ReachLoad(f4, 2, 1);
    f := f4.(replicas := f4.replicas[0 := Holding(one, kb)]);
  }

  /**
    Without the condition the lineage forks: replica 0 reads mark 1, replica 1
    rotates to generation 2, replica 0 loads it and reads mark 2, and then
    overwrites generation 2 with a key of its own.
   */
  lemma SplitReadsFork()
    ensures exists f :: && Reachable(f) && |f.replicas| == 2
                        && 2 in f.replicas[0].resolvers && 2 in f.replicas[1].resolvers
                        && f.replicas[0].resolvers[2] != f.replicas[1].resolvers[2]
  {
    var k1, kb, kc := KeyPair("a", "a", 1), KeyPair("b", "b", 2), KeyPair("c", "c", 2);
    var two := Holding(Holding(EMPTY_REPLICA, k1), kb);
    var f := ForkMiddle(k1, kb);
    assert Mark(f, 0) == 2;
    ReachRotate(f, 0, "c");
    var g := Goto(WriteKeypair(f, kc, Rotated(1, 2)), 0, Idle);
    ReachLoad(g, 0, 2);
    var h := g.(replicas := g.replicas[0 := Holding(two, kc)]);
    assert Reachable(h);
    assert h.replicas[0].resolvers[2] == "c" && h.replicas[1].resolvers[2] == "b";
  }
}
