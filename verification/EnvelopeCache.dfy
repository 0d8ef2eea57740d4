/**
  The router's envelope cache: two maps kept from watch events.  What it serves
  is compared with the Secrets that are live after the same events.
 */
module EnvelopeCache {
  import opened Wrappers

  datatype Key = Key(workspace: string, provider: string)

  /** A staged-envelope Secret as delivered; absent labels and data read as empty. */
  datatype Secret = Secret(name: string, workspace: string, provider: string, envelope: string,
                           models: Option<seq<string>>)

  datatype Cached = Cached(envelope: string, models: Option<seq<string>>)

  predicate Usable(s: Secret) {
    s.workspace != "" && s.provider != "" && s.envelope != ""
  }

  function KeyOf(s: Secret): Key {
    Key(s.workspace, s.provider)
  }

  function CachedOf(s: Secret): Cached {
    Cached(s.envelope, s.models)
  }

  datatype View = View(envs: map<Key, Cached>, names: map<string, Key>)

  function Applied(v: View, s: Secret): View {
    if !Usable(s) then v
    else View(v.envs[KeyOf(s) := CachedOf(s)], v.names[s.name := KeyOf(s)])
  }

  function Evicted(v: View, name: string): View {
    if name in v.names then View(v.envs - {v.names[name]}, v.names - {name}) else v
  }

  class Cache {
    var envs: map<Key, Cached>
    var names: map<string, Key>

    function Now(): View
      reads this
    {
      View(envs, names)
    }

    constructor ()
      ensures Now() == View(map[], map[])
    {
      envs, names := map[], map[];
    }

    method Apply(s: Secret)
      modifies this
      ensures Now() == Applied(old(Now()), s)
      ensures forall k :: Served(Now(), k) ==
                if |s.workspace| > 0 && |s.provider| > 0 && |s.envelope| > 0 && k == Key(s.workspace, s.provider)
                then Some(s.envelope) else Served(old(Now()), k)
    {
      if s.workspace == "" || s.provider == "" || s.envelope == "" {
        return;
      }
      var key := Key(s.workspace, s.provider);
      names := names[s.name := key];
      envs := envs[key := Cached(s.envelope, s.models)];
    }

    method Evict(name: string)
      modifies this
      ensures Now() == Evicted(old(Now()), name) && name !in names
      ensures name in old(names) ==> Served(Now(), old(names)[name]) == None
      ensures forall k :: name !in old(names) || k != old(names)[name] ==> Served(Now(), k) == Served(old(Now()), k)
    {
      if name in names {
        var key := names[name];
        names := names - {name};
        envs := envs - {key};
      }
    }

    /** What the router serves for a workspace and provider. */
    method Envelope(workspace: string, provider: string) returns (r: Option<string>)
      ensures r == Served(Now(), Key(workspace, provider))
      ensures forall live :: Agrees(Now(), live) ==> Answers(r, live, Key(workspace, provider))
    {
      var key := Key(workspace, provider);
      forall live | Agrees(Now(), live) ensures Answers(Served(Now(), key), live, key) {
        AgreeingAnswers(Now(), live, key);
      }
      if key in envs {
        return Some(envs[key].envelope);
      }
      return None;
    }
  }

  function Served(v: View, k: Key): Option<string> {
    if k in v.envs then Some(v.envs[k].envelope) else None
  }

  /** What an event does to the answers: a complete Secret is served under its labels, a known name's key no more. */
  lemma ServesExactly(v: View, e: Event, k: Key)
    ensures Served(CacheAfter(v, e), k) ==
            match e
            case Put(s) =>
              if |s.workspace| > 0 && |s.provider| > 0 && |s.envelope| > 0 && k == Key(s.workspace, s.provider)
              then Some(s.envelope) else Served(v, k)
            case Delete(name) => if name in v.names && v.names[name] == k then None else Served(v, k)
  {
  }

  // ---- agreement with the live Secrets ----

  datatype Event = Put(secret: Secret) | Delete(name: string)

  function LiveAfter(live: map<string, Secret>, e: Event): map<string, Secret> {
    match e
    case Put(s) => live[s.name := s]
    case Delete(name) => live - {name}
  }

  function CacheAfter(v: View, e: Event): View {
    match e
    case Put(s) => Applied(v, s)
    case Delete(name) => Evicted(v, name)
  }

  function Live(events: seq<Event>): map<string, Secret> {
    if events == [] then map[] else LiveAfter(Live(events[..|events|-1]), events[|events|-1])
  }

  function Kept(events: seq<Event>): View {
    if events == [] then View(map[], map[]) else CacheAfter(Kept(events[..|events|-1]), events[|events|-1])
  }

  predicate Staged(live: map<string, Secret>, name: string) {
    name in live && Usable(live[name])
  }

  /** No two live Secrets carry the same labels. */
  ghost predicate Unshared(live: map<string, Secret>) {
    forall a, b :: Staged(live, a) && Staged(live, b) && KeyOf(live[a]) == KeyOf(live[b]) ==> a == b
  }

  /** The name is cached exactly when its Secret is live, with that Secret's labels and envelope. */
  predicate NameAgrees(v: View, live: map<string, Secret>, n: string) {
    if Staged(live, n) then
      var k := KeyOf(live[n]);
      n in v.names && v.names[n] == k && k in v.envs && v.envs[k] == CachedOf(live[n])
    else n !in v.names
  }

  ghost predicate Named(v: View, k: Key) {
    exists n :: n in v.names && v.names[n] == k
  }

  /** The cache holds each live Secret under its labels and its name, and nothing else. */
  ghost predicate Agrees(v: View, live: map<string, Secret>) {
    && (forall n :: NameAgrees(v, live, n))
    && (forall k :: k in v.envs ==> Named(v, k))
  }

  /** The answer is the envelope of a live Secret with these labels, or there is none. */
  ghost predicate Answers(r: Option<string>, live: map<string, Secret>, k: Key) {
    match r
    case None => forall n :: Staged(live, n) ==> KeyOf(live[n]) != k
    case Some(env) => exists n :: Staged(live, n) && KeyOf(live[n]) == k && live[n].envelope == env
  }

  lemma AgreeingAnswers(v: View, live: map<string, Secret>, k: Key)
    requires Agrees(v, live)
    ensures Answers(Served(v, k), live, k)
  {
    if k in v.envs {
      assert Named(v, k);
      var n :| n in v.names && v.names[n] == k;
      assert NameAgrees(v, live, n);
    } else {
      forall n | Staged(live, n) ensures KeyOf(live[n]) != k {
        assert NameAgrees(v, live, n);
      }
    }
  }

  /** Another live Secret carries these labels. */
  ghost predicate Carried(live: map<string, Secret>, name: string, k: Key) {
    exists n :: n != name && Staged(live, n) && KeyOf(live[n]) == k
  }

  /** Another live Secret carries these labels with other contents. */
  ghost predicate Clashes(live: map<string, Secret>, s: Secret) {
    exists n :: n != s.name && Staged(live, n) && KeyOf(live[n]) == KeyOf(s) && CachedOf(live[n]) != CachedOf(s)
  }

  /**
    The events the cache cannot follow: a live Secret that loses its labels or
    envelope, or leaves labels behind that no other carries; one that clashes
    with another of the same labels; and the deletion of one of several.
   */
  ghost predicate Strands(live: map<string, Secret>, e: Event) {
    match e
    case Put(s) =>
      if !Usable(s) then Staged(live, s.name)
      else Clashes(live, s) || (Staged(live, s.name) && KeyOf(live[s.name]) != KeyOf(s)
                                && !Carried(live, s.name, KeyOf(live[s.name])))
    case Delete(name) => Staged(live, name) && Carried(live, name, KeyOf(live[name]))
  }

  lemma PutName(v: View, live: map<string, Secret>, s: Secret, n: string)
    requires Agrees(v, live) && !Strands(live, Put(s))
    ensures NameAgrees(Applied(v, s), live[s.name := s], n)
  {
    assert NameAgrees(v, live, n);
  }

  lemma PutKey(v: View, live: map<string, Secret>, s: Secret, k: Key)
    requires Agrees(v, live) && !Strands(live, Put(s)) && k in Applied(v, s).envs
    ensures Named(Applied(v, s), k)
  {
    var w := Applied(v, s);
    if Usable(s) && k == KeyOf(s) {
      assert s.name in w.names && w.names[s.name] == k;
    } else {
      assert Named(v, k);
      var n :| n in v.names && v.names[n] == k;
      assert NameAgrees(v, live, n);
      if Usable(s) && n == s.name {
        var m :| m != s.name && Staged(live, m) && KeyOf(live[m]) == k;
        assert NameAgrees(v, live, m);
        assert m in w.names && w.names[m] == k;
      } else {
        assert n in w.names && w.names[n] == k;
      }
    }
  }

  lemma DeleteName(v: View, live: map<string, Secret>, name: string, n: string)
    requires Agrees(v, live) && !Strands(live, Delete(name))
    ensures NameAgrees(Evicted(v, name), live - {name}, n)
  {
    assert NameAgrees(v, live, n) && NameAgrees(v, live, name);
  }

  lemma DeleteKey(v: View, live: map<string, Secret>, name: string, k: Key)
    requires Agrees(v, live) && k in Evicted(v, name).envs
    ensures Named(Evicted(v, name), k)
  {
    assert Named(v, k);
    var n :| n in v.names && v.names[n] == k;
    assert n in Evicted(v, name).names;
  }

  lemma RelabelledDisagrees(v: View, live: map<string, Secret>, s: Secret)
    requires Agrees(v, live) && Usable(s) && Staged(live, s.name) && KeyOf(live[s.name]) != KeyOf(s)
    requires !Carried(live, s.name, KeyOf(live[s.name]))
    ensures !Agrees(Applied(v, s), live[s.name := s])
  {
    var w, k := Applied(v, s), KeyOf(live[s.name]);
    assert NameAgrees(v, live, s.name);
    forall n | n in w.names ensures w.names[n] != k {
      assert NameAgrees(v, live, n);
    }
    assert k in w.envs && !Named(w, k);
  }

  lemma PutDisagrees(v: View, live: map<string, Secret>, s: Secret)
    requires Agrees(v, live) && Strands(live, Put(s))
    ensures !Agrees(Applied(v, s), live[s.name := s])
  {
    assert NameAgrees(v, live, s.name);
    if !Usable(s) {
      assert !NameAgrees(Applied(v, s), live[s.name := s], s.name);
    } else if Clashes(live, s) {
      var n :| n != s.name && Staged(live, n) && KeyOf(live[n]) == KeyOf(s) && CachedOf(live[n]) != CachedOf(s);
      assert !NameAgrees(Applied(v, s), live[s.name := s], n);
    } else {
      RelabelledDisagrees(v, live, s);
    }
  }

  lemma DeleteDisagrees(v: View, live: map<string, Secret>, name: string)
    requires Agrees(v, live) && Strands(live, Delete(name))
    ensures !Agrees(Evicted(v, name), live - {name})
  {
    assert NameAgrees(v, live, name);
    var n :| n != name && Staged(live, n) && KeyOf(live[n]) == KeyOf(live[name]);
    assert !NameAgrees(Evicted(v, name), live - {name}, n);
  }

  /** Exactly which events make the cache disagree with the live Secrets, labels shared or not. */
  lemma AgreesExactly(v: View, live: map<string, Secret>, e: Event)
    requires Agrees(v, live)
    ensures Agrees(CacheAfter(v, e), LiveAfter(live, e)) <==> !Strands(live, e)
  {
    if Strands(live, e) {
      if e.Put? {
        PutDisagrees(v, live, e.secret);
      } else {
        DeleteDisagrees(v, live, e.name);
      }
    } else if e.Put? {
      forall n ensures NameAgrees(CacheAfter(v, e), LiveAfter(live, e), n) {
        PutName(v, live, e.secret, n);
      }
      forall k | k in CacheAfter(v, e).envs ensures Named(CacheAfter(v, e), k) {
        PutKey(v, live, e.secret, k);
      }
    } else {
      forall n ensures NameAgrees(CacheAfter(v, e), LiveAfter(live, e), n) {
        DeleteName(v, live, e.name, n);
      }
      forall k | k in CacheAfter(v, e).envs ensures Named(CacheAfter(v, e), k) {
        DeleteKey(v, live, e.name, k);
      }
    }
  }

  /** No event among the first `n` is one the cache cannot follow. */
  ghost predicate Followed(events: seq<Event>, n: nat)
    requires n <= |events|
  {
    forall i :: 0 <= i < n ==> !Strands(Live(events[..i]), events[i])
  }

  lemma LastEvent(events: seq<Event>, i: nat)
    requires i < |events|
    ensures Live(events[..i+1]) == LiveAfter(Live(events[..i]), events[i])
    ensures Kept(events[..i+1]) == CacheAfter(Kept(events[..i]), events[i])
  {
    assert events[..i+1][..i] == events[..i];
  }

  lemma {:induction false} FollowedAgrees(events: seq<Event>, n: nat)
    requires n <= |events| && Followed(events, n)
    ensures Agrees(Kept(events[..n]), Live(events[..n]))
  {
    if n == 0 {
      assert events[..0] == [];
    } else {
      FollowedAgrees(events, n - 1);
      LastEvent(events, n - 1);
      AgreesExactly(Kept(events[..n-1]), Live(events[..n-1]), events[n-1]);
    }
  }

  /** The exact law over whole runs: the cache agrees with the live Secrets after every event if and only if it can follow each. */
  lemma RunAgreesExactly(events: seq<Event>)
    ensures Followed(events, |events|) <==> forall n :: 0 <= n <= |events| ==> Agrees(Kept(events[..n]), Live(events[..n]))
  {
    if Followed(events, |events|) {
      forall n | 0 <= n <= |events| ensures Agrees(Kept(events[..n]), Live(events[..n])) {
        FollowedAgrees(events, n);
      }
    } else {
      var i :| 0 <= i < |events| && Strands(Live(events[..i]), events[i]);
      LastEvent(events, i);
      if Agrees(Kept(events[..i]), Live(events[..i])) {
        AgreesExactly(Kept(events[..i]), Live(events[..i]), events[i]);
        assert !Agrees(Kept(events[..i+1]), Live(events[..i+1]));
      }
    }
  }

  /** Every name keeps the labels `labels` gives it, and no envelope is empty. */
  ghost predicate Stable(events: seq<Event>, labels: map<string, Key>) {
    && (forall e :: e in events && e.Put? ==>
          Usable(e.secret) && e.secret.name in labels && labels[e.secret.name] == KeyOf(e.secret))
    && (forall a, b :: a in labels && b in labels && labels[a] == labels[b] ==> a == b)
  }

  lemma {:induction false} StableLive(events: seq<Event>, labels: map<string, Key>, n: string)
    requires Stable(events, labels)
    ensures n in Live(events) ==> Usable(Live(events)[n]) && n in labels && labels[n] == KeyOf(Live(events)[n])
  {
    if events == [] {
    } else {
      assert events[|events|-1] in events;
      StableLive(events[..|events|-1], labels, n);
    }
  }

  lemma StableUnshared(events: seq<Event>, labels: map<string, Key>)
    requires Stable(events, labels)
    ensures Unshared(Live(events))
  {
    forall n {
      StableLive(events, labels, n);
    }
  }

  lemma {:induction false} KeptAgrees(events: seq<Event>, labels: map<string, Key>)
    requires Stable(events, labels)
    ensures Agrees(Kept(events), Live(events))
  {
    if events == [] {
    } else {
      var most, last := events[..|events|-1], events[|events|-1];
      assert last in events;
      KeptAgrees(most, labels);
      forall n ensures n in Live(most) ==> Usable(Live(most)[n]) && n in labels && labels[n] == KeyOf(Live(most)[n]) {
        StableLive(most, labels, n);
      }
      AgreesExactly(Kept(most), Live(most), last);
    }
  }

  /**
    With stable unshared labels, after any events the router serves exactly the live
    Secret's envelope or nothing, and names and cached keys correspond one to one.
   */
  lemma ServesTheLiveSecrets(events: seq<Event>, labels: map<string, Key>, k: Key)
    requires Stable(events, labels)
    ensures Answers(Served(Kept(events), k), Live(events), k)
    ensures Unshared(Live(events)) && Kept(events).names.Keys == Live(events).Keys
    ensures k in Kept(events).envs <==> Named(Kept(events), k)
  {
    var v, live := Kept(events), Live(events);
    KeptAgrees(events, labels);
    StableUnshared(events, labels);
    forall n ensures (n in v.names <==> n in live) && (n in live ==> Staged(live, n)) {
      StableLive(events, labels, n);
      assert NameAgrees(v, live, n);
    }
    AgreeingAnswers(v, live, k);
    if k !in v.envs {
      forall n | n in v.names ensures v.names[n] != k {
        assert NameAgrees(v, live, n);
      }
    }
  }

  /** A relabelled Secret leaves its first envelope behind, and deleting it does not take that away. */
  lemma RelabelledEnvelopeOutlivesItsSecret(s: Secret, t: Secret)
    requires Usable(s) && Usable(t) && s.name == t.name && KeyOf(s) != KeyOf(t)
    ensures var events := [Put(s), Put(t), Delete(s.name)];
            Live(events) == map[] && Served(Kept(events), KeyOf(s)) == Some(s.envelope)
  {
    var events := [Put(s), Put(t), Delete(s.name)];
    assert events[..2] == [Put(s), Put(t)] && events[..2][..1] == [Put(s)] && [Put(s)][..0] == [];
    assert Kept([Put(s)]) == View(map[KeyOf(s) := CachedOf(s)], map[s.name := KeyOf(s)]);
    assert Live([Put(s)]) == map[s.name := s];
    assert Live([Put(s), Put(t)]) == map[s.name := t];
  }

  /** Two Secrets with the same labels: deleting either stops the other being served. */
  lemma SharedLabelsEvictTogether(s: Secret, t: Secret)
    requires Usable(s) && Usable(t) && s.name != t.name && KeyOf(s) == KeyOf(t)
    ensures var events := [Put(s), Put(t), Delete(s.name)];
            Live(events) == map[t.name := t] && Served(Kept(events), KeyOf(t)) == None
  {
    var events := [Put(s), Put(t), Delete(s.name)];
    assert events[..2] == [Put(s), Put(t)] && events[..2][..1] == [Put(s)] && [Put(s)][..0] == [];
    assert Kept([Put(s)]) == View(map[KeyOf(s) := CachedOf(s)], map[s.name := KeyOf(s)]);
    assert Live([Put(s)]) == map[s.name := s];
    assert Live([Put(s), Put(t)]) == map[s.name := s, t.name := t];
  }
}
