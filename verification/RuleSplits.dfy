/**
  How a list of guarded rules takes a text apart: the first rule that matches
  anywhere divides it at its first match, and the two sides are redacted on
  their own.
 */
module RuleSplits {
  import opened Redaction
  import opened RedactionSurvival

  /** An earlier rule already removes this rule's value. */
  predicate Dead(rules: seq<Rule>, j: nat)
    requires j < |rules|
  {
    exists h :: 0 <= h < j && rules[h].value == rules[j].value
  }

  // ---- occurrences ----

  /** The value occurs at `p` and nowhere before. */
  predicate FirstAt(s: string, v: string, p: nat) {
    p + |v| <= |s| && v <= s[p..] && forall j :: 0 <= j < p ==> !(v <= s[j..])
  }

  lemma {:induction false} FirstOccurrence(s: string, v: string, q: nat) returns (p: nat)
    requires q <= |s| && v <= s[q..]
    ensures FirstAt(s, v, p)
    decreases q
  {
    if j :| 0 <= j < q && v <= s[j..] {
      p := FirstOccurrence(s, v, j);
    } else {
      p := q;
    }
  }

  lemma FirstMatch(s: string, v: string) returns (p: nat)
    requires v != "" && Occurs(v, s)
    ensures FirstAt(s, v, p)
  {
    var q :| 0 <= q <= |s| && v <= s[q..];
    p := FirstOccurrence(s, v, q);
  }

  lemma StartsThere(w: string, v: string, a: nat, b: nat, q: nat)
    requires a <= b <= |w| && q <= b - a && v <= w[a..b][q..]
    ensures v <= w[a+q..]
  {
    assert w[a..b][q..] == w[a+q..b] && w[a+q..][..b-a-q] == w[a+q..b];
  }

  lemma OccursInWhole(w: string, v: string, a: nat, b: nat)
    requires a <= b <= |w| && Occurs(v, w[a..b])
    ensures Occurs(v, w)
  {
    var q :| 0 <= q <= |w[a..b]| && v <= w[a..b][q..];
    StartsThere(w, v, a, b, q);
  }

  lemma OccursInPart(w: string, v: string, p: nat, a: nat, b: nat)
    requires a <= p && p + |v| <= b <= |w| && v <= w[p..]
    ensures v <= w[a..b][p-a..] && Occurs(v, w[a..b])
  {
    assert w[a..b][p-a..] == w[p..b] && w[p..][..|v|] == w[p..b][..|v|];
  }

  lemma CleanPart(w: string, rules: seq<Rule>, a: nat, b: nat)
    requires a <= b <= |w| && Clean(w, rules)
    ensures Clean(w[a..b], rules)
  {
    forall j | 0 <= j < |rules| ensures !Occurs(rules[j].value, w[a..b]) {
      if Occurs(rules[j].value, w[a..b]) {
        OccursInWhole(w, rules[j].value, a, b);
      }
    }
  }

  lemma FirstInPart(w: string, v: string, p: nat, a: nat, b: nat)
    requires FirstAt(w, v, p) && a <= p && p + |v| <= b <= |w|
    ensures FirstAt(w[a..b], v, p - a)
  {
    OccursInPart(w, v, p, a, b);
    forall q | 0 <= q < p - a ensures !(v <= w[a..b][q..]) {
      if v <= w[a..b][q..] {
        StartsThere(w, v, a, b, q);
      }
    }
  }

  // ---- a scan up to its first match ----

  lemma ScanToMatch(d: string, v: string, t: string, r: string)
    requires v != "" && forall j :: 0 <= j < |d| ==> !(v <= d[j..] + (v + t))
    ensures ReplaceAll((d + v) + t, v, r) == (d + r) + ReplaceAll(t, v, r)
  {
    Regroup(d, v, t);
    PassThrough(d, v + t, v, r);
    MatchThen(t, v, r);
    Regroup(d, r, ReplaceAll(t, v, r));
  }

  lemma AroundMatch(s: string, v: string, p: nat, j: nat)
    requires j <= p <= |s| && v <= s[p..]
    ensures s[..p][j..] + (v + s[p+|v|..]) == s[j..] && s == (s[..p] + v) + s[p+|v|..]
  {
    assert s[p..] == v + s[p+|v|..];
  }

  lemma ScanAt(s: string, v: string, r: string, p: nat)
    requires v != "" && FirstAt(s, v, p)
    ensures ReplaceAll(s, v, r) == (s[..p] + r) + ReplaceAll(s[p+|v|..], v, r)
  {
    var d, t := s[..p], s[p+|v|..];
    forall j | 0 <= j < |d| ensures !(v <= d[j..] + (v + t)) {
      AroundMatch(s, v, p, j);
    }
    AroundMatch(s, v, p, p);
    ScanToMatch(d, v, t, r);
  }

  lemma {:induction false} AbsentUnchanged(x: string, v: string, r: string)
    requires v != "" && !Occurs(v, x)
    ensures ReplaceAll(x, v, r) == x
  {
    if |x| < |v| {
    } else {
      assert x[0..] == x;
      forall p | 0 <= p <= |x[1..]| ensures !(v <= x[1..][p..]) {
        assert x[1..][p..] == x[p+1..];
      }
      AbsentUnchanged(x[1..], v, r);
    }
  }

  lemma {:induction false} AbsentRules(rules: seq<Rule>, n: nat, x: string)
    requires ValidRules(rules) && n <= |rules| && Clean(x, rules[..n])
    ensures ApplyRules(rules[..n], x) == x
  {
    if n == 0 {
    } else {
      assert rules[..n][..n-1] == rules[..n-1] && rules[..n][n-1] == rules[n-1];
      forall j | 0 <= j < n - 1 ensures !Occurs(rules[j].value, x) {
        assert rules[..n][j] == rules[j];
      }
      AbsentRules(rules, n - 1, x);
      AbsentUnchanged(x, rules[n-1].value, rules[n-1].replacement);
    }
  }

  lemma CleanUnchanged(rules: seq<Rule>, x: string)
    requires ValidRules(rules) && Clean(x, rules)
    ensures ApplyRules(rules, x) == x
  {
    assert rules[..|rules|] == rules;
    AbsentRules(rules, |rules|, x);
  }

  // ---- a replacement divides the text for good ----

  lemma NoneStartsInDivider(v: string, p: string, r: string, b: string, j: nat)
    requires v != "" && Guards(r, v) && |p| < |v| && j < |p + r|
    ensures !(v <= (p + r)[j..] + b)
  {
    var s := (p + r) + b;
    assert (p + r)[j..] + b == s[j..];
    if v <= s[j..] {
      if j < |p| {
        Covers(v, s, j, |p|);
      } else {
        assert s[j..] == (r + b)[j-|p|..];
        OccurrenceMissesReplacement(v, r, b, j - |p|);
      }
    }
  }

  lemma DividesScan(a: string, r: string, b: string, v: string, s: string)
    requires v != "" && Guards(r, v)
    ensures ReplaceAll((a + r) + b, v, s) == (ReplaceAll(a, v, s) + r) + ReplaceAll(b, v, s)
  {
    var p := Pending(a, v);
    ScanSplits(a, r + b, v, s);
    forall j | 0 <= j < |p + r| ensures !(v <= (p + r)[j..] + b) {
      NoneStartsInDivider(v, p, r, b, j);
    }
    PassThrough(p + r, b, v, s);
    Regroup(a, r, b);
    Regroup(p, r, b);
    Regroup(Settled(a, v, s), p + r, ReplaceAll(b, v, s));
    Regroup(Settled(a, v, s), p, r);
  }

  /** What the rules make of the two sides of a replacement they make separately. */
  lemma {:induction false} Divides(rules: seq<Rule>, n: nat, k: nat, a: string, b: string)
    requires ValidRules(rules) && Guarded(rules) && n <= |rules| && k < |rules|
    ensures ApplyRules(rules[..n], (a + rules[k].replacement) + b)
            == (ApplyRules(rules[..n], a) + rules[k].replacement) + ApplyRules(rules[..n], b)
  {
    if n == 0 {
    } else {
      Divides(rules, n - 1, k, a, b);
      assert rules[..n][..n-1] == rules[..n-1];
      assert Guards(rules[k].replacement, rules[n-1].value);
      DividesScan(ApplyRules(rules[..n-1], a), rules[k].replacement, ApplyRules(rules[..n-1], b),
                  rules[n-1].value, rules[n-1].replacement);
    }
  }

  // ---- the first rule that matches ----

  /** Rule `h` is the first that matches in `w`, first at `p`. */
  ghost predicate Top(rules: seq<Rule>, w: string, h: nat, p: nat) {
    h < |rules| && Clean(w, rules[..h]) && FirstAt(w, rules[h].value, p)
  }

  lemma {:induction false} FirstHit(rules: seq<Rule>, s: string, i: nat) returns (h: nat)
    requires i < |rules| && Occurs(rules[i].value, s)
    ensures h <= i && Occurs(rules[h].value, s) && Clean(s, rules[..h])
    decreases i
  {
    if g :| 0 <= g < i && Occurs(rules[g].value, s) {
      h := FirstHit(rules, s, g);
    } else {
      h := i;
    }
  }

  lemma HasTop(rules: seq<Rule>, w: string, i: nat) returns (h: nat, p: nat)
    requires ValidRules(rules) && i < |rules| && Occurs(rules[i].value, w)
    ensures h <= i && Top(rules, w, h, p)
  {
    h := FirstHit(rules, w, i);
    p := FirstMatch(w, rules[h].value);
  }

  lemma SomeTop(rules: seq<Rule>, w: string) returns (h: nat, p: nat)
    requires ValidRules(rules) && !Clean(w, rules)
    ensures Top(rules, w, h, p)
  {
    var i :| 0 <= i < |rules| && Occurs(rules[i].value, w);
    h, p := HasTop(rules, w, i);
  }

  lemma TopInPart(rules: seq<Rule>, w: string, h: nat, p: nat, a: nat, b: nat)
    requires Top(rules, w, h, p) && a <= p && p + |rules[h].value| <= b <= |w|
    ensures Top(rules, w[a..b], h, p - a)
  {
    CleanPart(w, rules[..h], a, b);
    FirstInPart(w, rules[h].value, p, a, b);
  }

  /** A rule that is the first to match is not dead, and no earlier one shares its value. */
  lemma TopLives(rules: seq<Rule>, w: string, h: nat, p: nat)
    requires Top(rules, w, h, p)
    ensures !Dead(rules, h) && Occurs(rules[h].value, w)
    ensures forall i :: 0 <= i < |rules| && Occurs(rules[i].value, w) ==> h <= i
  {
    assert Occurs(rules[h].value, w);
    forall i | 0 <= i < h ensures !Occurs(rules[i].value, w) {
      assert rules[..h][i] == rules[i];
    }
  }

  lemma {:induction false} SameFrom(rules: seq<Rule>, n: nat, x: string, y: string)
    requires ValidRules(rules) && n <= |rules| && ApplyRules(rules[..n], x) == ApplyRules(rules[..n], y)
    ensures ApplyRules(rules, x) == ApplyRules(rules, y)
    decreases |rules| - n
  {
    if n == |rules| {
      assert rules[..n] == rules;
    } else {
      assert rules[..n+1][..n] == rules[..n];
      SameFrom(rules, n + 1, x, y);
    }
  }

  lemma TopScans(rules: seq<Rule>, w: string, h: nat, p: nat)
    requires ValidRules(rules) && Guarded(rules) && Top(rules, w, h, p)
    ensures var v, r := rules[h].value, rules[h].replacement;
            ApplyRules(rules[..h+1], w) == ApplyRules(rules[..h+1], (w[..p] + r) + w[p+|v|..])
  {
    var v, r := rules[h].value, rules[h].replacement;
    var a, b := w[..p], w[p+|v|..];
    Divides(rules, h, h, a, b);
    CleanPart(w, rules[..h], 0, p);
    CleanPart(w, rules[..h], p + |v|, |w|);
    assert w[0..p] == a && w[p+|v|..|w|] == b;
    AbsentRules(rules, h, w);
    AbsentRules(rules, h, a);
    AbsentRules(rules, h, b);
    assert rules[..h+1][..h] == rules[..h] && rules[..h+1][h] == rules[h];
    ScanAt(w, v, r, p);
    assert Guards(r, v);
    DividesScan(a, r, b, v, r);
    BeforeFirst(w, v, p);
    AbsentUnchanged(a, v, r);
  }

  lemma BeforeFirst(w: string, v: string, p: nat)
    requires FirstAt(w, v, p) && v != ""
    ensures !Occurs(v, w[..p])
  {
    if Occurs(v, w[..p]) {
      var q :| 0 <= q <= |w[..p]| && v <= w[..p][q..];
      assert w[..p] == w[0..p];
      StartsThere(w, v, 0, p, q);
    }
  }

  /** The first match of the first matching rule divides the text. */
  lemma TopSplits(rules: seq<Rule>, w: string, h: nat, p: nat)
    requires ValidRules(rules) && Guarded(rules) && Top(rules, w, h, p)
    ensures var v, r := rules[h].value, rules[h].replacement;
            ApplyRules(rules, w) == (ApplyRules(rules, w[..p]) + r) + ApplyRules(rules, w[p+|v|..])
  {
    var v, r := rules[h].value, rules[h].replacement;
    TopScans(rules, w, h, p);
    SameFrom(rules, h + 1, w, (w[..p] + r) + w[p+|v|..]);
    Divides(rules, |rules|, h, w[..p], w[p+|v|..]);
    assert rules[..|rules|] == rules;
  }

  lemma {:induction false} NothingApplied(rules: seq<Rule>)
    requires forall i :: 0 <= i < |rules| ==> rules[i].value != ""
    ensures ApplyRules(rules, "") == ""
    decreases |rules|
  {
    if rules == [] {
    } else {
      NothingApplied(rules[..|rules|-1]);
    }
  }

  lemma {:induction false} NotEmptied(rules: seq<Rule>, x: string)
    requires x != "" && forall i :: 0 <= i < |rules| ==> rules[i].value != "" && rules[i].replacement != ""
    ensures ApplyRules(rules, x) != ""
    decreases |rules|
  {
    if rules == [] {
    } else {
      NotEmptied(rules[..|rules|-1], x);
    }
  }

  /** A registered value becomes its own replacement, and nothing happens to that. */
  lemma OwnReplacement(rules: seq<Rule>, h: nat)
    requires ValidRules(rules) && Guarded(rules) && h < |rules| && !Dead(rules, h)
    ensures Top(rules, rules[h].value, h, 0) && ApplyRules(rules, rules[h].value) == rules[h].replacement
  {
    var u := rules[h].value;
    assert u[0..] == u && u[|u|..] == "" && u[..0] == "";
    forall g | 0 <= g < h ensures !Occurs(rules[..h][g].value, u) {
      assert rules[g].value != u && |rules[g].value| >= |u|;
    }
    TopSplits(rules, u, h, 0);
    NothingApplied(rules);
  }

  // ---- texts redacted to their very end ----

  /** No value contains this byte. */
  ghost predicate Alien(rules: seq<Rule>, c: char) {
    forall j :: 0 <= j < |rules| ==> c !in rules[j].value
  }

  function Last(s: string): char
    requires s != ""
  {
    s[|s|-1]
  }

  /** The last byte of the text is part of a match. */
  ghost predicate Closed(rules: seq<Rule>, x: string)
    requires forall i :: 0 <= i < |rules| ==> rules[i].value != ""
  {
    && x != "" && !Alien(rules, Last(x))
    && ApplyRules(rules, x) != "" && Alien(rules, Last(ApplyRules(rules, x)))
  }

  lemma ReplacementIsAlien(rules: seq<Rule>, k: nat)
    requires Guarded(rules) && k < |rules|
    ensures rules[k].replacement != "" && Alien(rules, rules[k].replacement[0]) && Alien(rules, Last(rules[k].replacement))
  {
    assert Guards(rules[k].replacement, rules[k].value);
    forall j | 0 <= j < |rules| ensures Guards(rules[k].replacement, rules[j].value) { }
  }

  /** What was redacted to its end is done with: whatever follows is redacted on its own. */
  lemma ClosedPasses(rules: seq<Rule>, x: string, y: string)
    requires ValidRules(rules) && Guarded(rules) && Closed(rules, x)
    ensures ApplyRules(rules, ApplyRules(rules, x) + y) == ApplyRules(rules, x) + ApplyRules(rules, y)
  {
    var d := ApplyRules(rules, x);
    CleanAfter(rules, x);
    forall i, j | 0 <= i < |rules| && 0 <= j < |d| ensures !(rules[i].value <= d[j..] + y) {
      NoneLeaves(rules, d, y, i, j);
    }
    RulesPass(rules, |rules|, d, y);
    assert rules[..|rules|] == rules;
  }

  lemma NoneLeaves(rules: seq<Rule>, d: string, y: string, i: nat, j: nat)
    requires Clean(d, rules) && d != "" && Alien(rules, Last(d)) && i < |rules| && j < |d|
    ensures !(rules[i].value <= d[j..] + y)
  {
    var v := rules[i].value;
    StaysInside(v, d, j, y);
    if v <= d[j..] + y {
      Covers(v, d[j..] + y, 0, |d| - 1 - j);
    }
  }

  lemma StaysInside(v: string, d: string, j: nat, y: string)
    requires j <= |d|
    ensures v <= d[j..] + y && |v| <= |d| - j ==> Occurs(v, d)
  {
    if v <= d[j..] + y && |v| <= |d| - j {
      assert v <= d[j..];
    }
  }

  lemma SameEnd(a: string, b: string)
    requires b != ""
    ensures a + b != "" && Last(a + b) == Last(b)
  {
  }

  lemma TopInPrefix(rules: seq<Rule>, x: string, h: nat, p: nat, e: nat)
    requires Top(rules, x, h, p) && p + |rules[h].value| <= e <= |x|
    ensures Top(rules, x[..e], h, p)
  {
    TopInPart(rules, x, h, p, 0, e);
    assert x[0..e] == x[..e];
  }

  lemma PrefixSlices(x: string, p: nat, k: nat, f: nat)
    requires p <= k && k + f <= |x|
    ensures x[..k+f][..p] == x[..p] && x[..k+f][k..] == x[k..][..f]
  {
  }

  /** A prefix that ends somewhere behind the first match. */
  lemma PrefixSplits(rules: seq<Rule>, x: string, h: nat, p: nat, f: nat, t: string)
    requires ValidRules(rules) && Guarded(rules) && Top(rules, x, h, p)
    requires p + |rules[h].value| + f <= |x| && t == x[p+|rules[h].value|..][..f]
    ensures ApplyRules(rules, x[..p+|rules[h].value|+f])
            == (ApplyRules(rules, x[..p]) + rules[h].replacement) + ApplyRules(rules, t)
  {
    var k := p + |rules[h].value|;
    TopInPrefix(rules, x, h, p, k + f);
    PrefixSlices(x, p, k, f);
    TopSplits(rules, x[..k+f], h, p);
  }

  lemma EndsAlien(rules: seq<Rule>, a: string, h: nat, b: string)
    requires Guarded(rules) && h < |rules| && (b == "" || Alien(rules, Last(b)))
    ensures (a + rules[h].replacement) + b != "" && Alien(rules, Last((a + rules[h].replacement) + b))
  {
    var r := rules[h].replacement;
    ReplacementIsAlien(rules, h);
    SameEnd(a, r);
    if b == "" {
      assert (a + r) + b == a + r;
    } else {
      SameEnd(a + r, b);
    }
  }

  lemma EndOfPrefix(x: string, v: string, p: nat, f: nat)
    requires v != "" && p + |v| + f <= |x| && v <= x[p..]
    ensures var t := x[p+|v|..][..f];
            Last(x[..p+|v|+f]) == if t == "" then Last(v) else Last(t)
  {
    assert x[p..][|v|-1] == x[p+|v|-1];
  }

  lemma LastOfValue(rules: seq<Rule>, h: nat)
    requires h < |rules| && rules[h].value != ""
    ensures !Alien(rules, Last(rules[h].value))
  {
    assert Last(rules[h].value) in rules[h].value;
  }

  /** Such a prefix is closed if it ends with the match or with a closed part behind it. */
  lemma ClosedBehind(rules: seq<Rule>, x: string, h: nat, p: nat, f: nat, t: string)
    requires ValidRules(rules) && Guarded(rules) && Top(rules, x, h, p)
    requires p + |rules[h].value| + f <= |x| && t == x[p+|rules[h].value|..][..f]
    requires t == "" || Closed(rules, t)
    ensures Closed(rules, x[..p+|rules[h].value|+f])
  {
    PrefixSplits(rules, x, h, p, f, t);
    EndOfPrefix(x, rules[h].value, p, f);
    LastOfValue(rules, h);
    if t == "" {
      NothingApplied(rules);
    }
    EndsAlien(rules, ApplyRules(rules, x[..p]), h, ApplyRules(rules, t));
  }

  /** The text is one redacted to its end, of `e` bytes, followed by bytes left alone. */
  ghost predicate EndsAt(rules: seq<Rule>, x: string, e: nat)
    requires forall i :: 0 <= i < |rules| ==> rules[i].value != ""
  {
    && e <= |x| && (e == 0 || Closed(rules, x[..e]))
    && ApplyRules(rules, x) == ApplyRules(rules, x[..e]) + x[e..]
  }

  lemma CleanEnds(rules: seq<Rule>, x: string)
    requires ValidRules(rules) && Clean(x, rules)
    ensures EndsAt(rules, x, 0)
  {
    CleanUnchanged(rules, x);
    NothingApplied(rules);
    assert x[..0] == "" && x[0..] == x;
  }

  lemma EndsBehind(rules: seq<Rule>, x: string, h: nat, p: nat, f: nat)
    requires ValidRules(rules) && Guarded(rules) && Top(rules, x, h, p)
    requires EndsAt(rules, x[p+|rules[h].value|..], f)
    ensures EndsAt(rules, x, p + |rules[h].value| + f)
  {
    var k := p + |rules[h].value|;
    var b := x[k..];
    var t := b[..f];
    TopSplits(rules, x, h, p);
    PrefixSplits(rules, x, h, p, f, t);
    ClosedBehind(rules, x, h, p, f, t);
    Regroup(ApplyRules(rules, x[..p]) + rules[h].replacement, ApplyRules(rules, t), b[f..]);
    assert b[f..] == x[k+f..];
  }

  /** Every text is of that kind. */
  lemma {:induction false} ClosedPart(rules: seq<Rule>, x: string) returns (e: nat)
    requires ValidRules(rules) && Guarded(rules)
    ensures EndsAt(rules, x, e)
    decreases |x|
  {
    if Clean(x, rules) {
      e := 0;
      CleanEnds(rules, x);
    } else {
      var h, p := SomeTop(rules, x);
      var f := ClosedPart(rules, x[p+|rules[h].value|..]);
      e := p + |rules[h].value| + f;
      EndsBehind(rules, x, h, p, f);
    }
  }
}
