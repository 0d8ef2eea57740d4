/**
  What a rotation that read two marks does to the lineage: some generation is
  stored twice, and two replicas can then hold different keys under one keyID.
 */
module KeyForks {
  import opened KeyManager
  import opened KeyLineage

  // ---- the first generation is one ----

  /** A create that can still win, and the first stored payload, have generation 1. */
  predicate FirstOk(s: Sys) {
    && (s.hist != [] ==> s.hist[0].gen == 1)
    && (s.hist == [] ==> forall i :: 0 <= i < |s.tasks| && s.tasks[i].pc.BootCreate? ==> s.tasks[i].pc.kp.gen == 1)
  }

  /** A step that writes no keypair starts no create but one above its replica's mark. */
  predicate Quiet(s: Sys, s': Sys) {
    && s'.hist == s.hist && |s'.tasks| == |s.tasks|
    && forall i :: 0 <= i < |s.tasks| && s'.tasks[i].pc.BootCreate? ==>
                     || s.tasks[i].pc == s'.tasks[i].pc
                     || (s.tasks[i].owner < |s.replicas| && s'.tasks[i].pc.kp.gen == s.replicas[s.tasks[i].owner].highwater + 1)
  }

  lemma QuietKeeps(s: Sys, s': Sys)
    requires Inv(s) && FirstOk(s) && Quiet(s, s')
    ensures FirstOk(s')
  {
    if s.hist == [] {
      forall i | 0 <= i < |s'.tasks| && s'.tasks[i].pc.BootCreate? ensures s'.tasks[i].pc.kp.gen == 1 {
        if s.tasks[i].pc != s'.tasks[i].pc {
          assert ReplicaOk(s, s.replicas[s.tasks[i].owner]);
        }
      }
    }
  }

  /** The two steps that write the keypair Secret. */
  predicate Writes(s: Sys, pc: PC) {
    || (pc.BootCreate? && s.keypair.None?)
    || (pc.RotateUpdate? && s.keypair.Some? && s.keypair.value.version == pc.version)
  }

  lemma AdvanceQuiet(s: Sys, t: nat, priv: string, x: int, y: int)
    requires InRange(s, t) && !Writes(s, s.tasks[t].pc)
    ensures Quiet(s, Advance(s, t, priv, x, y))
  {
  }

  lemma AdvanceFirst(s: Sys, t: nat, priv: string, x: int, y: int)
    requires Inv(s) && FirstOk(s) && InRange(s, t)
    ensures FirstOk(Advance(s, t, priv, x, y))
  {
    var s' := Advance(s, t, priv, x, y);
    if Writes(s, s.tasks[t].pc) {
      assert s'.hist == s.hist + [s.tasks[t].pc.kp];
    } else {
      AdvanceQuiet(s, t, priv, x, y);
      QuietKeeps(s, s');
    }
  }

  lemma OtherQuiet(s: Sys, t: nat, a: Action)
    requires InRange(s, t) && !a.Go? && !a.LoseReply?
    ensures Quiet(s, Step(s, t, a))
  {
  }

  lemma StopFirst(s: Sys, t: nat)
    requires FirstOk(s) && t < |s.tasks|
    ensures FirstOk(Goto(s, t, Idle))
  {
  }

  lemma StepFirst(s: Sys, t: nat, a: Action)
    requires Inv(s) && FirstOk(s)
    ensures FirstOk(Step(s, t, a))
  {
    if InRange(s, t) {
      if a.Go? {
        AdvanceFirst(s, t, a.priv, a.sweepAt, a.stampAt);
      } else if a.LoseReply? {
        AdvanceFirst(s, t, a.priv, 0, 0);
        StopFirst(Advance(s, t, a.priv, 0, 0), t);
      } else {
        OtherQuiet(s, t, a);
        QuietKeeps(s, Step(s, t, a));
      }
    }
  }

  lemma {:induction false} RunFirst(s: Sys, acts: seq<(nat, Action)>)
    requires Initial(s)
    ensures FirstOk(Run(s, acts))
  {
    if acts == [] {
    } else {
      var n := |acts| - 1;
      RunFirst(s, acts[..n]);
      RunKeeps(s, acts[..n]);
      StepFirst(Run(s, acts[..n]), acts[n].0, acts[n].1);
    }
  }

  // ---- a generation stored twice ----

  /** No rotation among the first `n` writes saw two marks. */
  ghost predicate AgreeUpTo(f: Sys, n: nat) {
    forall i :: 0 <= i < n && i < |f.origins| && f.origins[i].Rotated? ==> f.origins[i].first == f.origins[i].second
  }

  /** While the reads agree the generations count the writes. */
  lemma {:induction false} Consecutive(f: Sys, n: nat, k: nat)
    requires StoreOk(f) && FirstOk(f) && k < n <= |f.hist| && AgreeUpTo(f, n)
    ensures f.hist[k].gen == k + 1
    decreases k
  {
    if k == 0 {
    } else {
      Consecutive(f, n, k - 1);
      assert WriteOk(f.hist[k-1], f.hist[k], f.origins[k]);
      if f.origins[k].Recovered? {
        assert LateRecovery(f.hist, k);
        var j :| 0 <= j < k && f.hist[j].gen > f.hist[k-1].gen;
        Consecutive(f, n, j);
      }
    }
  }

  lemma {:induction false} FirstSplit(f: Sys, n: nat) returns (i: nat)
    requires n <= |f.origins| && !AgreeUpTo(f, n)
    ensures i < n && AgreeUpTo(f, i) && f.origins[i].Rotated? && f.origins[i].first != f.origins[i].second
  {
    if AgreeUpTo(f, n - 1) {
      i := n - 1;
    } else {
      i := FirstSplit(f, n - 1);
    }
  }

  /** Two writes of the keypair Secret carried one generation. */
  ghost predicate StoredTwice(f: Sys) {
    exists i, j :: 0 <= i < j < |f.hist| && f.hist[i].gen == f.hist[j].gen
  }

  /** The first rotation that saw two marks writes a generation that is stored already. */
  lemma SplitRepeats(f: Sys)
    requires Inv(f) && FirstOk(f) && !ReadsAgree(f)
    ensures StoredTwice(f)
  {
    var i := FirstSplit(f, |f.origins|);
    assert StoreOk(f) && Sound(f, f.hist[i]);
    assert i > 0 && WriteOk(f.hist[i-1], f.hist[i], f.origins[i]);
    Consecutive(f, i, i - 1);
    var a := f.origins[i].first;
    assert 0 <= a < i;
    Consecutive(f, i, a);
    assert f.hist[a].gen == f.hist[i].gen;
  }

  /**
    Generation reuse, exactly: in every reachable state some generation was
    stored twice if and only if some winning rotation saw two marks.
   */
  lemma StoredTwiceExactly(f: Sys)
    requires Reachable(f)
    ensures StoredTwice(f) <==> !ReadsAgree(f)
  {
    ReachableInv(f);
    if ReadsAgree(f) {
      WritesRaiseExactlyWhenReadsAgree(f);
      forall i, j | 0 <= i < j < |f.hist| ensures f.hist[i].gen != f.hist[j].gen {
        RaisedIsOrdered(f, i, j);
      }
    } else {
      var s, acts :| Initial(s) && f == Run(s, acts);
      RunFirst(s, acts);
      SplitRepeats(f);
    }
  }

  // ---- and what replicas can make of it ----

  /** Two replicas resolve one keyID to different private keys. */
  ghost predicate Forked(g: Sys) {
    exists i, j, k :: 0 <= i < |g.replicas| && 0 <= j < |g.replicas| && Differ(g.replicas[i], g.replicas[j], k)
  }

  predicate Differ(v: Replica, w: Replica, k: int) {
    k in v.resolvers && k in w.resolvers && v.resolvers[k] != w.resolvers[k]
  }

  /** A restarted replica can be delivered any payload ever stored, and serves it. */
  lemma RestartAndLoad(f: Sys, t: nat, i: nat) returns (g: Sys)
    requires Reachable(f) && InRange(f, t) && i < |f.hist|
    ensures Reachable(g) && g.hist == f.hist && g.origins == f.origins && |g.tasks| == |f.tasks|
    ensures forall n :: 0 <= n < |f.tasks| ==> g.tasks[n].owner == f.tasks[n].owner
    ensures var o := f.tasks[t].owner;
            && |g.replicas| == |f.replicas|
            && f.hist[i].gen in g.replicas[o].resolvers
            && g.replicas[o].resolvers[f.hist[i].gen] == f.hist[i].priv
            && forall n :: 0 <= n < |f.replicas| && n != o ==> g.replicas[n] == f.replicas[n]
  {
    ReachableInv(f);
    assert StoreOk(f) && Sound(f, f.hist[i]);
    var o := f.tasks[t].owner;
    var c := Crashed(f, o);
    ReachStep(f, t, Crash);
    assert Step(f, t, Crash) == c;
    ReachLoad(c, t, i);
    g := c.(replicas := c.replicas[o := Installed(c.replicas[o], c.hist[i], 0, 0, c.retention)]);
  }

  /** Whenever a generation is stored twice with two keys, two replicas can come to disagree on it. */
  lemma TwiceStoredForks(f: Sys, t: nat, u: nat, i: nat, j: nat) returns (g: Sys)
    requires Reachable(f) && InRange(f, t) && InRange(f, u) && f.tasks[t].owner != f.tasks[u].owner
    requires i < |f.hist| && j < |f.hist| && f.hist[i].gen == f.hist[j].gen && f.hist[i].priv != f.hist[j].priv
    ensures Reachable(g) && g.hist == f.hist && g.origins == f.origins && Forked(g)
  {
    var m := RestartAndLoad(f, t, i);
    g := RestartAndLoad(m, u, j);
    assert Differ(g.replicas[f.tasks[t].owner], g.replicas[f.tasks[u].owner], f.hist[i].gen);
  }

  /** No private key was generated twice. */
  predicate FreshKeys(f: Sys) {
    forall i, j :: 0 <= i < j < |f.hist| ==> f.hist[i].priv != f.hist[j].priv
  }

  /**
    One keyID, one key, exactly: with freshly generated keys and at least two
    replicas, the writes made so far admit a state in which two replicas hold
    different keys for one keyID if and only if some winning rotation saw two marks.
   */
  lemma SingleLineageExactly(f: Sys, t: nat, u: nat)
    requires Reachable(f) && InRange(f, t) && InRange(f, u) && f.tasks[t].owner != f.tasks[u].owner
    requires FreshKeys(f)
    ensures (exists g :: Reachable(g) && g.hist == f.hist && g.origins == f.origins && Forked(g)) <==> !ReadsAgree(f)
  {
    if ReadsAgree(f) {
      forall g | Reachable(g) && g.hist == f.hist && g.origins == f.origins ensures !Forked(g) {
        forall i, j, k | 0 <= i < |g.replicas| && 0 <= j < |g.replicas| ensures !Differ(g.replicas[i], g.replicas[j], k) {
          if k in g.replicas[i].resolvers && k in g.replicas[j].resolvers {
            SingleLineage(g, i, j, k);
          }
        }
      }
    } else {
      StoredTwiceExactly(f);
      var i, j :| 0 <= i < j < |f.hist| && f.hist[i].gen == f.hist[j].gen;
      var g := TwiceStoredForks(f, t, u, i, j);
    }
  }
}
