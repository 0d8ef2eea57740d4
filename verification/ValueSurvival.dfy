/**
  One redaction rule with any value and any replacement: exactly when some
  input lets the value through, in a buffer and in a stream.
 */
module ValueSurvival {
  import opened Redaction
  import opened RedactionSurvival
  import opened RuleSplits

  /** In the first `n` bytes of the value followed by the value, nothing matches before the value itself. */
  ghost predicate Opens(v: string, n: nat)
    requires n <= |v|
  {
    forall q :: 0 <= q < n ==> !(v <= v[..n][q..] + v)
  }

  /** The rest of the value and the replacement start alike. */
  predicate Meets(v: string, r: string, n: nat)
    requires n <= |v|
  {
    r <= v[n..] || v[n..] <= r
  }

  /** The value is put together again at the back of a replacement or at its front. */
  ghost predicate Rejoins(v: string, r: string, n: nat)
    requires n <= |v|
  {
    EndsWith(r, v[..n]) || (Opens(v, n) && Meets(v, r, n))
  }

  /** The replacement brings the value back, whole or in part. */
  ghost predicate Leaks(v: string, r: string) {
    Occurs(v, r) || exists n :: 0 < n < |v| && Rejoins(v, r, n)
  }

  /** The value is still there after every occurrence of it was replaced. */
  predicate Survives(x: string, v: string, r: string)
    requires v != ""
  {
    Occurs(v, ReplaceAll(x, v, r))
  }

  // ---- a value that leaks gets through ----

  lemma OccursAt(u: string, a: string, b: string)
    ensures Occurs(u, (a + u) + b)
  {
    assert u <= ((a + u) + b)[|a|..];
  }

  lemma ReplacedFirst(v: string, r: string, s: string)
    requires v != "" && |s| < |v|
    ensures ReplaceAll(v + s, v, r) == r + s
  {
    assert (v + s)[|v|..] == s;
  }

  lemma BackRejoins(v: string, r: string, n: nat)
    requires 0 < n < |v| && EndsWith(r, v[..n])
    ensures Survives(v + v[n..], v, r)
  {
    ReplacedFirst(v, r, v[n..]);
    var a := r[..|r|-n];
    assert r + v[n..] == (a + v) + "";
    OccursAt(v, a, "");
  }

  lemma OpensWith(v: string, n: nat, s: string)
    requires 0 < n < |v| && Opens(v, n)
    ensures FirstAt((v[..n] + v) + s, v, n)
  {
    var x := (v[..n] + v) + s;
    assert x[n..] == v + s;
    forall j | 0 <= j < n ensures !(v <= x[j..]) {
      assert x[j..] == (v[..n][j..] + v) + s;
      var head := v[..n][j..] + v;
      assert !(v <= head);
      OpensBoth(head, s, v);
    }
  }

  lemma FrontRejoins(v: string, r: string, n: nat) returns (x: string)
    requires 0 < n < |v| && Opens(v, n) && Meets(v, r, n)
    ensures Survives(x, v, r)
  {
    var s := if r <= v[n..] then v[n+|r|..] else "";
    x := (v[..n] + v) + s;
    OpensWith(v, n, s);
    ScanAt(x, v, r, n);
    assert x[..n] == v[..n] && x[n+|v|..] == s;
    var out := (v[..n] + r) + s;
    if r <= v[n..] {
      assert out == v;
    } else {
      assert v <= out;
    }
    assert v <= out[0..];
  }

  lemma LeakShows(v: string, r: string) returns (x: string)
    requires v != "" && Leaks(v, r)
    ensures Survives(x, v, r)
  {
    if Occurs(v, r) {
      x := v + "";
      ReplacedFirst(v, r, "");
      assert r + "" == r;
    } else {
      var n :| 0 < n < |v| && Rejoins(v, r, n);
      if EndsWith(r, v[..n]) {
        x := v + v[n..];
        BackRejoins(v, r, n);
      } else {
        x := FrontRejoins(v, r, n);
      }
    }
  }

  // ---- a value that does not leak never gets through ----

  /** An occurrence that starts inside a replacement lies in it or runs over its end. */
  lemma StartsInReplacement(v: string, r: string, w: string, p: nat)
    requires p < |r| && v <= (r + w)[p..] && v != ""
    ensures Leaks(v, r)
  {
    assert (r + w)[p..] == r[p..] + w;
    if |v| <= |r| - p {
      assert v <= r[p..];
    } else {
      var n := |r| - p;
      assert v[..n] == r[p..];
      assert Rejoins(v, r, n);
    }
  }

  /** A value that opens the output without having opened the input met a replacement. */
  lemma StartsBeforeReplacement(v: string, r: string, x: string)
    requires v != "" && !(v <= x) && v <= ReplaceAll(x, v, r)
    ensures Leaks(v, r)
  {
    if Occurs(v, x) {
      var k := FirstMatch(x, v);
      ScanAt(x, v, r, k);
      OpensFrom(v, r, x, k, ReplaceAll(x[k+|v|..], v, r));
    } else {
      Untouched(x, v, r);
    }
  }

  lemma {:induction false} Untouched(x: string, v: string, r: string)
    requires v != "" && !Occurs(v, x)
    ensures ReplaceAll(x, v, r) == x
  {
    if |x| < |v| {
    } else {
      assert x[0..] == x;
      forall p | 0 <= p <= |x[1..]| ensures !(v <= x[1..][p..]) {
        assert x[1..][p..] == x[p+1..];
      }
      Untouched(x[1..], v, r);
    }
  }

  lemma OpensFrom(v: string, r: string, x: string, k: nat, rest: string)
    requires v != "" && !(v <= x) && FirstAt(x, v, k) && v <= (x[..k] + r) + rest
    ensures Leaks(v, r)
  {
    assert x[0..] == x;
    var out := (x[..k] + r) + rest;
    assert 0 < k < |v|;
    assert x[..k] == out[..k] == v[..k];
    forall q | 0 <= q < k ensures !(v <= v[..k][q..] + v) {
      assert x[q..] == (v[..k][q..] + v) + x[k+|v|..];
      OpensBoth(v[..k][q..] + v, x[k+|v|..], v);
    }
    assert out[k..] == r + rest && v[k..] <= out[k..];
    StartAlike(v[k..], r, rest);
    assert Rejoins(v, r, k);
  }

  lemma StartAlike(a: string, r: string, rest: string)
    requires a <= r + rest
    ensures r <= a || a <= r
  {
    assert |r| <= |a| ==> r == (r + rest)[..|r|] == a[..|r|];
    assert |a| <= |r| ==> a == (r + rest)[..|a|] == r[..|a|];
  }

  lemma {:induction false} TightRemoves(x: string, v: string, r: string)
    requires v != "" && !Leaks(v, r)
    ensures !Survives(x, v, r)
    decreases |x|
  {
    var out := ReplaceAll(x, v, r);
    if |x| < |v| {
    } else if v <= x {
      var w := ReplaceAll(x[|v|..], v, r);
      TightRemoves(x[|v|..], v, r);
      forall p | 0 <= p <= |out| ensures !(v <= out[p..]) {
        AfterReplacement(v, r, w, p);
      }
    } else {
      TightRemoves(x[1..], v, r);
      forall p | 0 <= p <= |out| ensures !(v <= out[p..]) {
        if p == 0 {
          NotAtFront(v, r, x);
          assert out[0..] == out;
        } else {
          assert out[p..] == ReplaceAll(x[1..], v, r)[p-1..];
        }
      }
    }
  }

  lemma NotAtFront(v: string, r: string, x: string)
    requires v != "" && !Leaks(v, r) && !(v <= x)
    ensures !(v <= ReplaceAll(x, v, r))
  {
    if v <= ReplaceAll(x, v, r) {
      StartsBeforeReplacement(v, r, x);
    }
  }

  lemma AfterReplacement(v: string, r: string, w: string, p: nat)
    requires v != "" && !Leaks(v, r) && !Occurs(v, w) && p <= |r + w|
    ensures !(v <= (r + w)[p..])
  {
    if p < |r| {
      if v <= (r + w)[p..] {
        StartsInReplacement(v, r, w, p);
      }
    } else {
      assert (r + w)[p..] == w[p-|r|..];
    }
  }

  /** Exactly the rules whose replacement leaks let their value through a buffer. */
  lemma SurvivesExactly(v: string, r: string)
    requires v != ""
    ensures (exists x :: Survives(x, v, r)) <==> Leaks(v, r)
  {
    if Leaks(v, r) {
      var x := LeakShows(v, r);
    } else {
      forall x ensures !Survives(x, v, r) {
        TightRemoves(x, v, r);
      }
    }
  }

  // ---- streams ----

  /** A replacement that sits inside a proper prefix of the value leaks. */
  lemma {:induction false} InsideLeaks(v: string, r: string, n: nat)
    requires r != "" && |r| <= n < |v| && EndsWith(v[..n], r)
    ensures Leaks(v, r)
    decreases n
  {
    var m := n - |r|;
    if m == 0 {
      assert v[..n] == r;
      assert Rejoins(v, r, n);
    } else if Opens(v, m) {
      assert r == v[..n][m..] && v[m..][..|r|] == r;
      assert Rejoins(v, r, m);
    } else {
      var q :| 0 <= q < m && v <= v[..m][q..] + v;
      EarlyMatch(v, r, n, q);
      InsideLeaks(v, r, |r| + q);
    }
  }

  /** Deleting a value that is not one letter repeated leaks. */
  lemma DeletionLeaks(v: string)
    requires v != "" && !Uniform(v)
    ensures Leaks(v, "")
  {
    assert |v| > 1;
    if v <= v[..1][0..] + v {
      forall i | 0 <= i < |v| ensures v[i] == v[0] {
        RepeatsFirst(v, i);
      }
    }
    assert Opens(v, 1);
    assert Rejoins(v, "", 1);
  }

  /** A rule that does not leak is one for which cutting the input never shows. */
  lemma TightIsSeamless(v: string, r: string)
    requires v != "" && !Leaks(v, r)
    ensures Seamless(v, r)
  {
    if r == "" {
      if !Uniform(v) {
        DeletionLeaks(v);
      }
    } else {
      forall n | 0 < n < |v| ensures !EndsWith(r, v[..n]) && !EndsWith(v[..n], r) {
        assert !Rejoins(v, r, n);
        if EndsWith(v[..n], r) {
          InsideLeaks(v, r, n);
        }
      }
    }
  }

  lemma StreamedOne(rules: seq<Rule>, x: string)
    requires forall i :: 0 <= i < |rules| ==> rules[i].value != ""
    ensures var (c, o) := Written(rules, "", x);
            Received(rules, [x]) == o + c
  {
    assert [x][..0] == [];
    var (c, o) := Written(rules, "", x);
    assert "" + o == o;
    assert Streamed(rules, [x]) == (c, o);
  }

  lemma OneChunk(v: string, r: string, x: string)
    requires v != ""
    ensures Received([Rule(v, r)], [x]) == ReplaceAll(x, v, r)
  {
    StreamedOne([Rule(v, r)], x);
    WrittenOne("", x, v, r);
    assert "" + x == x;
    var out := ReplaceAll(x, v, r);
    Rejoin(out, Cut(|out|, v));
  }

  /**
    Survival through the stream, exactly: some chunks let the value through if
    and only if the replacement leaks.
   */
  lemma SurvivesStreamExactly(v: string, r: string)
    requires v != ""
    ensures (exists chunks :: Occurs(v, Received([Rule(v, r)], chunks))) <==> Leaks(v, r)
  {
    if Leaks(v, r) {
      var x := LeakShows(v, r);
      OneChunk(v, r, x);
    } else {
      TightIsSeamless(v, r);
      forall chunks ensures !Occurs(v, Received([Rule(v, r)], chunks)) {
        SeamlessStream(v, r, chunks);
        TightRemoves(Joined(chunks), v, r);
      }
    }
  }
}
