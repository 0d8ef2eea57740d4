/**
  The streaming redactor with any set of rules: the bounded carry loses
  nothing against re-scanning everything, and no registered value gets through.
 */
module RedactionSurvival {
  import opened Redaction

  predicate Occurs(u: string, s: string) {
    exists p :: 0 <= p <= |s| && u <= s[p..]
  }

  /**
    Every replacement opens and closes with a byte that no value contains, and
    contains no value.  "[REDACTED-STAGED-KEY]" guards every base64 value; a
    non-empty replacement that shares no byte with any value is a special case.
   */
  ghost predicate Guarded(rules: seq<Rule>) {
    forall i, j :: 0 <= i < |rules| && 0 <= j < |rules| ==>
                     Guards(rules[i].replacement, rules[j].value)
  }

  ghost predicate Guards(r: string, u: string) {
    r != "" && r[0] !in u && r[|r|-1] !in u && !Occurs(u, r)
  }

  lemma SameLast(s: string, e: string)
    requires e != ""
    ensures EndsWith(s, e) ==> s[|s|-1] == e[|e|-1]
  {
    assert EndsWith(s, e) ==> s[|s|-|e|..][|e|-1] == s[|s|-1];
  }

  /** A non-empty replacement that shares no byte with a value guards it. */
  lemma NoSharedByteGuards(v: string, r: string)
    requires v != "" && r != "" && forall i :: 0 <= i < |r| ==> r[i] !in v
    ensures Guards(r, v)
  {
    forall p | 0 <= p <= |r| ensures !(v <= r[p..]) {
      if p < |r| {
        assert r[p..][0] == r[p];
      }
    }
  }

  lemma GuardedIsClear(v: string, r: string)
    requires Guards(r, v)
    ensures Clear(v, r)
  {
    forall n | 0 < n < |v| ensures !EndsWith(r, v[..n]) && !EndsWith(v[..n], r) {
      SameLast(r, v[..n]);
      SameLast(v[..n], r);
    }
  }

  /** What a scan leaves in front of its first replacement was there before. */
  lemma {:induction false} PrefixComesFromInput(u: string, z: string, v: string, r: string)
    requires v != "" && r != "" && r[0] !in u
    requires u <= ReplaceAll(z, v, r)
    ensures u <= z
    decreases |z|
  {
    if u == "" || |z| < |v| {
    } else {
      assert u[0] in u;
      if !(v <= z) {
        var w := ReplaceAll(z[1..], v, r);
        assert ReplaceAll(z, v, r)[1..] == w;
        assert u[1..] <= w;
        PrefixComesFromInput(u[1..], z[1..], v, r);
        assert z == [z[0]] + z[1..];
      }
    }
  }

  /** Replacing one value neither makes another one nor leaves itself. */
  lemma {:induction false} OccurrenceComesFromInput(u: string, z: string, v: string, r: string)
    requires v != "" && u != "" && Guards(r, u)
    requires Occurs(u, ReplaceAll(z, v, r))
    ensures Occurs(u, z) && u != v
    decreases |z|
  {
    var s := ReplaceAll(z, v, r);
    var p :| 0 <= p <= |s| && u <= s[p..];
    if |z| < |v| {
    } else if v <= z {
      var w := ReplaceAll(z[|v|..], v, r);
      if p >= |r| {
        assert s[p..] == w[p-|r|..];
        OccurrenceComesFromInput(u, z[|v|..], v, r);
        var q :| 0 <= q <= |z[|v|..]| && u <= z[|v|..][q..];
        assert z[|v|..][q..] == z[q+|v|..];
      } else {
        OccurrenceMissesReplacement(u, r, w, p);
      }
    } else {
      var w := ReplaceAll(z[1..], v, r);
      if p > 0 {
        assert s[p..] == w[p-1..];
        OccurrenceComesFromInput(u, z[1..], v, r);
        var q :| 0 <= q <= |z[1..]| && u <= z[1..][q..];
        assert z[1..][q..] == z[q+1..];
      } else {
        assert s[0..] == s && z[0..] == z;
        PrefixComesFromInput(u, z, v, r);
      }
    }
  }

  lemma Inside(u: string, r: string, w: string, p: nat)
    requires p + |u| <= |r| && u <= (r + w)[p..]
    ensures Occurs(u, r)
  {
    assert r[p..][..|u|] == (r + w)[p..][..|u|];
  }

  lemma Covers(u: string, s: string, p: nat, i: nat)
    requires p <= i < p + |u| && p <= |s| && u <= s[p..]
    ensures i < |s| && s[i] in u
  {
    assert u[i-p] == s[p..][i-p];
  }

  lemma OccurrenceMissesReplacement(u: string, r: string, w: string, p: nat)
    requires u != "" && Guards(r, u) && p < |r|
    ensures !(u <= (r + w)[p..])
  {
    if u <= (r + w)[p..] {
      if p + |u| <= |r| {
        Inside(u, r, w, p);
      } else {
        Covers(u, r + w, p, |r| - 1);
      }
    }
  }

  lemma {:induction false} RulesKeepPrefix(rules: seq<Rule>, u: string, z: string)
    requires forall i :: 0 <= i < |rules| ==> rules[i].value != "" && rules[i].replacement != ""
    requires forall i :: 0 <= i < |rules| ==> rules[i].replacement[0] !in u
    requires u <= ApplyRules(rules, z)
    ensures u <= z
    decreases |rules|
  {
    if rules == [] {
    } else {
      var n := |rules| - 1;
      PrefixComesFromInput(u, ApplyRules(rules[..n], z), rules[n].value, rules[n].replacement);
      RulesKeepPrefix(rules[..n], u, z);
    }
  }

  /** After all rules, none of the values they name occurs. */
  lemma {:induction false} RulesRemove(rules: seq<Rule>, u: string, z: string)
    requires forall i :: 0 <= i < |rules| ==> rules[i].value != "" && Guards(rules[i].replacement, u)
    requires exists i :: 0 <= i < |rules| && rules[i].value == u
    ensures !Occurs(u, ApplyRules(rules, z))
    decreases |rules|
  {
    var n := |rules| - 1;
    if Occurs(u, ApplyRules(rules, z)) {
      OccurrenceComesFromInput(u, ApplyRules(rules[..n], z), rules[n].value, rules[n].replacement);
      var i :| 0 <= i < |rules| && rules[i].value == u;
      assert rules[..n][i].value == u;
      RulesRemove(rules[..n], u, z);
    }
  }

  ghost predicate Clean(s: string, rules: seq<Rule>) {
    forall j :: 0 <= j < |rules| ==> !Occurs(rules[j].value, s)
  }

  /** A byte that no value contains. */
  ghost predicate HasAlien(s: string, rules: seq<Rule>) {
    exists i :: 0 <= i < |s| && forall j :: 0 <= j < |rules| ==> s[i] !in rules[j].value
  }

  lemma {:induction false} ByteSurvives(z: string, v: string, r: string, b: char)
    requires v != "" && b !in v && b in z
    ensures b in ReplaceAll(z, v, r)
    decreases |z|
  {
    if |z| < |v| {
    } else {
      if v <= z {
        assert z == v + z[|v|..];
        ByteSurvives(z[|v|..], v, r, b);
      } else if b != z[0] {
        assert z == [z[0]] + z[1..];
        ByteSurvives(z[1..], v, r, b);
      }
    }
  }

  lemma {:induction false} ChangeShows(z: string, v: string, r: string)
    requires v != "" && r != ""
    ensures ReplaceAll(z, v, r) == z || r[0] in ReplaceAll(z, v, r)
    decreases |z|
  {
    if |z| < |v| || v <= z {
    } else {
      ChangeShows(z[1..], v, r);
    }
  }

  /** Rules that changed a buffer, or found an alien byte in it, leave one behind. */
  lemma {:induction false} RulesLeaveAlien(rules: seq<Rule>, n: nat, z: string)
    requires ValidRules(rules) && Guarded(rules) && n <= |rules|
    ensures ApplyRules(rules[..n], z) == z || HasAlien(ApplyRules(rules[..n], z), rules)
    ensures HasAlien(z, rules) ==> HasAlien(ApplyRules(rules[..n], z), rules)
    decreases n
  {
    if n == 0 {
    } else {
      RulesLeaveAlien(rules, n - 1, z);
      assert rules[..n][..n-1] == rules[..n-1];
      var y := ApplyRules(rules[..n-1], z);
      var v, r := rules[n-1].value, rules[n-1].replacement;
      if HasAlien(y, rules) {
        var i :| 0 <= i < |y| && forall j :: 0 <= j < |rules| ==> y[i] !in rules[j].value;
        ByteSurvives(y, v, r, y[i]);
      } else {
        assert Guards(r, v);
        ChangeShows(y, v, r);
        assert forall j :: 0 <= j < |rules| ==> Guards(r, rules[j].value);
      }
    }
  }

  /** What the carry must be for an occurrence across the seam to end inside it. */
  ghost predicate Anchored(carry: string, rules: seq<Rule>)
    requires ValidRules(rules)
  {
    |carry| == Hold(rules) || HasAlien(carry, rules)
  }

  // ---- bytes in which no value starts ----

  /** A match that starts in `d` and needs only what was in front of `z` as well was there before. */
  lemma StartsBefore(d: string, z: string, y: string, v: string)
    requires v <= d + y && (|v| > |d| ==> v[|d|..] <= z)
    ensures v <= d + z
  {
    if |v| > |d| {
      assert v == v[..|d|] + v[|d|..] && v[..|d|] == (d + y)[..|d|] == d;
    } else {
      assert (d + y)[..|v|] == d[..|v|];
    }
  }

  /** No value of the first `n` rules starts in `d` when `z` follows it. */
  ghost predicate Passes(rules: seq<Rule>, n: nat, d: string, z: string)
    requires n <= |rules|
  {
    forall i, j :: 0 <= i < n && 0 <= j < |d| ==> !(rules[i].value <= d[j..] + z)
  }

  /** Such bytes come through the first `n` rules unchanged. */
  lemma {:induction false} RulesPass(rules: seq<Rule>, n: nat, d: string, z: string)
    requires ValidRules(rules) && Guarded(rules) && n <= |rules| && Passes(rules, n, d, z)
    ensures ApplyRules(rules[..n], d + z) == d + ApplyRules(rules[..n], z)
  {
    if n == 0 {
    } else {
      RulesPass(rules, n - 1, d, z);
      assert rules[..n][..n-1] == rules[..n-1];
      var y := ApplyRules(rules[..n-1], z);
      var v, r := rules[n-1].value, rules[n-1].replacement;
      forall j | 0 <= j < |d| ensures !(v <= d[j..] + y) {
        StillPasses(rules, n, d, z, j);
      }
      PassThrough(d, y, v, r);
    }
  }

  lemma StillPasses(rules: seq<Rule>, n: nat, d: string, z: string, j: nat)
    requires ValidRules(rules) && Guarded(rules) && 0 < n <= |rules| && Passes(rules, n, d, z) && j < |d|
    ensures !(rules[n-1].value <= d[j..] + ApplyRules(rules[..n-1], z))
  {
    var v, e := rules[n-1].value, d[j..];
    var y := ApplyRules(rules[..n-1], z);
    if v <= e + y {
      if |v| > |e| {
        assert (e + y)[|e|..] == y && v[|e|..] == (e + y)[|e|..|v|];
        forall i | 0 <= i < n - 1 ensures Guards(rules[i].replacement, v) { }
        RulesKeepPrefix(rules[..n-1], v[|e|..], z);
      }
      StartsBefore(e, z, y, v);
    }
  }

  // ---- the carry is enough ----

  /** The redactor with nothing ever sent on: each chunk joins all output so far and the whole is scanned again. */
  function Rescanned(rules: seq<Rule>, chunks: seq<string>): string
    requires forall i :: 0 <= i < |rules| ==> rules[i].value != ""
  {
    if chunks == [] then "" else ApplyRules(rules, Rescanned(rules, chunks[..|chunks|-1]) + chunks[|chunks|-1])
  }

  lemma EndsInside(v: string, e: string, c: string, y: string, j: nat)
    requires j <= |e|
    ensures v <= e[j..] + (c + y) && |v| <= |e| - j + |c| ==> v <= (e + c)[j..]
  {
    var w := (e + c)[j..];
    assert e[j..] + (c + y) == w + y;
    assert |v| <= |w| ==> (w + y)[..|v|] == w[..|v|];
  }

  /** A value that starts in `e` of a clean `e + c` would have to reach past an anchored `c`. */
  lemma NoneStartsInSent(rules: seq<Rule>, e: string, c: string, y: string, i: nat, j: nat)
    requires ValidRules(rules) && Clean(e + c, rules) && i < |rules| && j < |e|
    requires Anchored(c, rules)
    ensures !(rules[i].value <= e[j..] + (c + y))
  {
    var v := rules[i].value;
    EndsInside(v, e, c, y, j);
    if v <= e[j..] + (c + y) {
      assert |v| <= |rules[0].value|;
      if |v| > |e| - j + |c| {
        var k :| 0 <= k < |c| && forall h :: 0 <= h < |rules| ==> c[k] !in rules[h].value;
        Covers(v, e[j..] + (c + y), 0, |e| - j + k);
      }
    }
  }

  lemma SentPasses(rules: seq<Rule>, e: string, c: string, y: string)
    requires ValidRules(rules) && Guarded(rules) && Clean(e + c, rules) && (e != "" ==> Anchored(c, rules))
    ensures ApplyRules(rules, (e + c) + y) == e + ApplyRules(rules, c + y)
  {
    forall i, j | 0 <= i < |rules| && 0 <= j < |e| ensures !(rules[i].value <= e[j..] + (c + y)) {
      NoneStartsInSent(rules, e, c, y, i, j);
    }
    RulesPass(rules, |rules|, e, c + y);
    assert rules[..|rules|] == rules;
    Regroup(e, c, y);
  }

  lemma CleanAfter(rules: seq<Rule>, z: string)
    requires ValidRules(rules) && Guarded(rules)
    ensures Clean(ApplyRules(rules, z), rules)
  {
    forall j | 0 <= j < |rules| ensures !Occurs(rules[j].value, ApplyRules(rules, z)) {
      assert forall i :: 0 <= i < |rules| ==> Guards(rules[i].replacement, rules[j].value);
      RulesRemove(rules, rules[j].value, z);
    }
  }

  lemma AlienStays(rules: seq<Rule>, carry: string, chunk: string)
    requires HasAlien(carry, rules)
    ensures HasAlien(carry + chunk, rules)
  {
    var i :| 0 <= i < |carry| && forall j :: 0 <= j < |rules| ==> carry[i] !in rules[j].value;
    assert (carry + chunk)[i] == carry[i];
  }

  /** A scanned buffer short enough to be all carry is anchored if the carry it began with was. */
  lemma AnchorKept(rules: seq<Rule>, carry: string, chunk: string)
    requires ValidRules(rules) && Guarded(rules) && Anchored(carry, rules)
    requires |ApplyRules(rules, carry + chunk)| <= Hold(rules)
    ensures Anchored(ApplyRules(rules, carry + chunk), rules)
  {
    RulesLeaveAlien(rules, |rules|, carry + chunk);
    assert rules[..|rules|] == rules;
    if HasAlien(carry, rules) {
      AlienStays(rules, carry, chunk);
    }
  }

  /** One write, as a scan of everything so far. */
  lemma WriteIsRescan(rules: seq<Rule>, emitted: string, carry: string, chunk: string)
    requires ValidRules(rules) && Guarded(rules) && rules != []
    requires Clean(emitted + carry, rules) && (emitted != "" ==> Anchored(carry, rules))
    ensures var (carry', out) := Written(rules, carry, chunk);
            && (emitted + out) + carry' == ApplyRules(rules, (emitted + carry) + chunk)
            && (emitted + out != "" ==> Anchored(carry', rules))
  {
    var (carry', out) := Written(rules, carry, chunk);
    var full := ApplyRules(rules, carry + chunk);
    assert out + carry' == full;
    SentPasses(rules, emitted, carry, chunk);
    Regroup(emitted, out, carry');
    if |full| <= Hold(rules) && emitted != "" {
      AnchorKept(rules, carry, chunk);
    }
  }

  lemma {:induction false} StreamIsRescan(rules: seq<Rule>, chunks: seq<string>)
    requires ValidRules(rules) && Guarded(rules) && rules != []
    ensures var (carry, emitted) := Streamed(rules, chunks);
            && emitted + carry == Rescanned(rules, chunks)
            && Clean(emitted + carry, rules) && (emitted != "" ==> Anchored(carry, rules))
    decreases |chunks|
  {
    if chunks == [] {
      assert Clean("", rules);
    } else {
      var n := |chunks| - 1;
      StreamIsRescan(rules, chunks[..n]);
      var (carry, emitted) := Streamed(rules, chunks[..n]);
      WriteIsRescan(rules, emitted, carry, chunks[n]);
      CleanAfter(rules, (emitted + carry) + chunks[n]);
    }
  }

  lemma {:induction false} NoRules(chunks: seq<string>)
    ensures Streamed([], chunks) == ("", Joined(chunks)) && Rescanned([], chunks) == Joined(chunks)
    decreases |chunks|
  {
    if chunks == [] {
    } else {
      NoRules(chunks[..|chunks|-1]);
    }
  }

  /** Holding back one byte less than the longest value is enough: the client receives what re-scanning everything gives. */
  lemma CarryIsEnough(rules: seq<Rule>, chunks: seq<string>)
    requires ValidRules(rules) && Guarded(rules)
    ensures Received(rules, chunks) == Rescanned(rules, chunks)
  {
    if rules == [] {
      NoRules(chunks);
    } else {
      StreamIsRescan(rules, chunks);
    }
  }

  /** However the input is cut, no registered value occurs in what the client receives. */
  lemma NothingRegisteredSurvives(rules: seq<Rule>, chunks: seq<string>, j: nat)
    requires ValidRules(rules) && Guarded(rules) && j < |rules|
    ensures !Occurs(rules[j].value, Received(rules, chunks))
  {
    StreamIsRescan(rules, chunks);
  }
}
