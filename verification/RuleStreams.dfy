/**
  Any number of guarded rules: exactly when streaming gives the client what
  redacting the whole body would have given.  As in completing a rewriting
  system, it is enough to look at the finitely many ways two values overlap.
 */
module RuleStreams {
  import opened Redaction
  import opened RedactionSurvival
  import opened RuleSplits

  // ---- critical pairs ----

  /** A live value ends `n` bytes into an earlier value, inside it or running into it. */
  predicate Critical(rules: seq<Rule>, i: nat, j: nat, n: nat) {
    && i < j < |rules| && !Dead(rules, j) && 0 < n < |rules[i].value|
    && (EndsWith(rules[i].value[..n], rules[j].value) || EndsWith(rules[j].value, rules[i].value[..n]))
  }

  /** The overlap up to where the later value ends; the rest of the earlier value follows. */
  function Front(rules: seq<Rule>, i: nat, j: nat, n: nat): string
    requires Critical(rules, i, j, n)
  {
    if |rules[j].value| <= n then rules[i].value[..n] else rules[j].value
  }

  /** A cut between these two parts does not show. */
  ghost predicate Joins(rules: seq<Rule>, x: string, y: string)
    requires forall i :: 0 <= i < |rules| ==> rules[i].value != ""
  {
    ApplyRules(rules, ApplyRules(rules, x) + y) == ApplyRules(rules, x + y)
  }

  ghost predicate CriticalsJoin(rules: seq<Rule>)
    requires forall i :: 0 <= i < |rules| ==> rules[i].value != ""
  {
    forall i: nat, j: nat, n: nat :: Critical(rules, i, j, n) ==> Joins(rules, Front(rules, i, j, n), rules[i].value[n..])
  }

  // ---- cutting where a match ends ----

  /** A cut behind `e` bytes that are redacted to their end does not show. */
  ghost predicate Splits(rules: seq<Rule>, w: string, e: nat)
    requires forall i :: 0 <= i < |rules| ==> rules[i].value != ""
  {
    e <= |w| && Closed(rules, w[..e]) ==>
      ApplyRules(rules, w[..e]) + ApplyRules(rules, w[e..]) == ApplyRules(rules, w)
  }

  ghost predicate AllBelow(rules: seq<Rule>, m: nat)
    requires forall i :: 0 <= i < |rules| ==> rules[i].value != ""
  {
    forall w, e :: |w| < m ==> Splits(rules, w, e)
  }

  lemma KeepsBytes(rules: seq<Rule>, x: string)
    requires ValidRules(rules) && Guarded(rules) && x != ""
    ensures ApplyRules(rules, x) != ""
  {
    forall i | 0 <= i < |rules| ensures rules[i].replacement != "" {
      ReplacementIsAlien(rules, i);
    }
    NotEmptied(rules, x);
  }

  /** A tail of something redacted to its end is redacted to its end. */
  lemma ClosedTail(rules: seq<Rule>, x: string, t: string, out: string)
    requires ValidRules(rules) && Guarded(rules) && t != "" && x != "" && Last(t) == Last(x)
    requires !Alien(rules, Last(x))
    requires out + ApplyRules(rules, t) != "" && Alien(rules, Last(out + ApplyRules(rules, t)))
    ensures Closed(rules, t)
  {
    KeepsBytes(rules, t);
    SameEnd(out, ApplyRules(rules, t));
  }

  lemma BehindJoins(rules: seq<Rule>, b: string, f: nat, x: string, head: string)
    requires ValidRules(rules) && Guarded(rules) && f <= |b| && Splits(rules, b, f) && Closed(rules, x)
    requires ApplyRules(rules, x) == head + ApplyRules(rules, b[..f]) && (f > 0 ==> Last(b[..f]) == Last(x))
    ensures ApplyRules(rules, x) + ApplyRules(rules, b[f..]) == head + ApplyRules(rules, b)
  {
    if f == 0 {
      NothingApplied(rules);
      assert b[..0] == "" && b[0..] == b && head + "" == head;
    } else {
      ClosedTail(rules, x, b[..f], head);
      Regroup(head, ApplyRules(rules, b[..f]), ApplyRules(rules, b[f..]));
    }
  }

  lemma CutBehind(rules: seq<Rule>, w: string, i: nat, p: nat, e: nat)
    requires ValidRules(rules) && Guarded(rules) && Top(rules, w, i, p) && AllBelow(rules, |w|)
    requires p + |rules[i].value| <= e <= |w| && Closed(rules, w[..e])
    ensures Splits(rules, w, e)
  {
    var k := p + |rules[i].value|;
    var b, f := w[k..], e - k;
    TopSplits(rules, w, i, p);
    PrefixSplits(rules, w, i, p, f, b[..f]);
    assert f > 0 ==> Last(b[..f]) == Last(w[..e]);
    assert b[f..] == w[e..];
    BehindJoins(rules, b, f, w[..e], ApplyRules(rules, w[..p]) + rules[i].replacement);
  }

  lemma TailSlices(w: string, e: nat, p: nat, k: nat)
    requires e <= p && p + k <= |w|
    ensures w[e..][..p-e] == w[e..p] && w[e..][p-e+k..] == w[p+k..] && w[e..] == w[e..|w|]
  {
  }

  lemma SplitsInto(rules: seq<Rule>, y: string, i: nat, q: nat, a: string, b: string)
    requires ValidRules(rules) && Guarded(rules) && Top(rules, y, i, q)
    requires a == y[..q] && b == y[q+|rules[i].value|..]
    ensures ApplyRules(rules, y) == (ApplyRules(rules, a) + rules[i].replacement) + ApplyRules(rules, b)
  {
    TopSplits(rules, y, i, q);
  }

  lemma TopInTail(rules: seq<Rule>, w: string, i: nat, p: nat, e: nat)
    requires Top(rules, w, i, p) && e <= p
    ensures Top(rules, w[e..], i, p - e)
  {
    TailSlices(w, e, p, 0);
    TopInPart(rules, w, i, p, e, |w|);
  }

  /** A suffix that starts somewhere before the first match. */
  lemma TailSplits(rules: seq<Rule>, w: string, i: nat, p: nat, e: nat)
    requires ValidRules(rules) && Guarded(rules) && Top(rules, w, i, p) && e <= p
    ensures ApplyRules(rules, w[e..])
            == (ApplyRules(rules, w[e..p]) + rules[i].replacement) + ApplyRules(rules, w[p+|rules[i].value|..])
  {
    TopInTail(rules, w, i, p, e);
    TailSlices(w, e, p, |rules[i].value|);
    SplitsInto(rules, w[e..], i, p - e, w[e..p], w[p+|rules[i].value|..]);
  }

  lemma Glue(x: string, m: string, r: string, b: string)
    ensures x + ((m + r) + b) == ((x + m) + r) + b
  {
  }

  lemma CutBefore(rules: seq<Rule>, w: string, i: nat, p: nat, e: nat)
    requires ValidRules(rules) && Guarded(rules) && Top(rules, w, i, p) && AllBelow(rules, |w|)
    requires e <= p && Closed(rules, w[..e])
    ensures Splits(rules, w, e)
  {
    TopSplits(rules, w, i, p);
    TailSplits(rules, w, i, p, e);
    PrefixJoined(rules, w, p, e);
    Glue(ApplyRules(rules, w[..e]), ApplyRules(rules, w[e..p]), rules[i].replacement,
         ApplyRules(rules, w[p+|rules[i].value|..]));
  }

  lemma PrefixJoined(rules: seq<Rule>, w: string, p: nat, e: nat)
    requires ValidRules(rules) && AllBelow(rules, |w|) && e <= p < |w| && Closed(rules, w[..e])
    ensures ApplyRules(rules, w[..e]) + ApplyRules(rules, w[e..p]) == ApplyRules(rules, w[..p])
  {
    assert Splits(rules, w[..p], e);
    assert w[..p][..e] == w[..e] && w[..p][e..] == w[e..p];
  }

  lemma SuffixJoined(rules: seq<Rule>, w: string, f: nat, e: nat)
    requires ValidRules(rules) && AllBelow(rules, |w|) && 0 < f <= e <= |w| && Closed(rules, w[f..e])
    ensures ApplyRules(rules, w[f..e]) + ApplyRules(rules, w[e..]) == ApplyRules(rules, w[f..])
  {
    assert Splits(rules, w[f..], e - f);
    assert w[f..][..e-f] == w[f..e] && w[f..][e-f..] == w[e..];
  }

  /** Of two such cuts in one text the earlier gives the same. */
  lemma MoveCut(rules: seq<Rule>, w: string, f: nat, e: nat)
    requires ValidRules(rules) && Guarded(rules) && AllBelow(rules, |w|) && 0 < f < e < |w|
    requires Closed(rules, w[..f]) && Closed(rules, w[..e])
    ensures ApplyRules(rules, w[..e]) + ApplyRules(rules, w[e..]) == ApplyRules(rules, w[..f]) + ApplyRules(rules, w[f..])
  {
    PrefixJoined(rules, w, e, f);
    assert Last(w[f..e]) == Last(w[..e]);
    ClosedTail(rules, w[..e], w[f..e], ApplyRules(rules, w[..f]));
    SuffixJoined(rules, w, f, e);
    Regroup(ApplyRules(rules, w[..f]), ApplyRules(rules, w[f..e]), ApplyRules(rules, w[e..]));
  }

  // ---- the first match in a text ----

  lemma {:induction false} FirstDirty(rules: seq<Rule>, w: string, e: nat) returns (f: nat)
    requires ValidRules(rules) && e <= |w| && !Clean(w[..e], rules)
    ensures 0 < f <= e && !Clean(w[..f], rules) && Clean(w[..f-1], rules)
  {
    if e == 0 {
      assert false;
    } else if Clean(w[..e-1], rules) {
      f := e;
    } else {
      f := FirstDirty(rules, w, e - 1);
    }
  }

  lemma EndsLast(rules: seq<Rule>, x: string, k: nat, s: nat)
    requires x != "" && Clean(x[..|x|-1], rules) && Top(rules, x, k, s)
    ensures s + |rules[k].value| == |x|
  {
    var n := |x| - 1;
    assert x[0..n] == x[..n];
    if s + |rules[k].value| <= n {
      OccursInPart(x, rules[k].value, s, 0, n);
    }
  }

  lemma CleanPrefix(x: string, rules: seq<Rule>, n: nat, s: nat)
    requires s <= n <= |x| && Clean(x[..n], rules)
    ensures Clean(x[..s], rules)
  {
    CleanPart(x[..n], rules, 0, s);
    assert x[..n][0..s] == x[..s];
  }

  /** A text in which the first match to end ends it. */
  ghost predicate OneEnd(rules: seq<Rule>, x: string, k: nat, s: nat) {
    Top(rules, x, k, s) && s + |rules[k].value| == |x| && Clean(x[..s], rules)
  }

  lemma FirstEnds(rules: seq<Rule>, x: string) returns (k: nat, s: nat)
    requires ValidRules(rules) && x != "" && !Clean(x, rules) && Clean(x[..|x|-1], rules)
    ensures OneEnd(rules, x, k, s)
  {
    k, s := SomeTop(rules, x);
    EndsLast(rules, x, k, s);
    CleanPrefix(x, rules, |x| - 1, s);
  }

  lemma OneMatch(rules: seq<Rule>, x: string, k: nat, s: nat)
    requires ValidRules(rules) && Guarded(rules) && OneEnd(rules, x, k, s)
    ensures ApplyRules(rules, x) == x[..s] + rules[k].replacement
  {
    TopSplits(rules, x, k, s);
    CleanUnchanged(rules, x[..s]);
    NothingApplied(rules);
    assert x[s+|rules[k].value|..] == "";
  }

  lemma OneMatchCloses(rules: seq<Rule>, x: string, k: nat, s: nat)
    requires ValidRules(rules) && Guarded(rules) && OneEnd(rules, x, k, s)
    ensures Closed(rules, x)
  {
    OneMatch(rules, x, k, s);
    var r := rules[k].replacement;
    ReplacementIsAlien(rules, k);
    SameEnd(x[..s], r);
    LastOfValue(rules, k);
    EndOfPrefix(x, rules[k].value, s, 0);
    assert x[..|x|] == x;
  }

  lemma ClosedIsDirty(rules: seq<Rule>, x: string)
    requires ValidRules(rules) && Closed(rules, x)
    ensures !Clean(x, rules)
  {
    if Clean(x, rules) {
      CleanUnchanged(rules, x);
    }
  }

  // ---- a cut inside the first match of the first rule ----

  lemma Segment(w: string, v: string, p: nat, m: nat)
    requires p + |v| <= |w| && v <= w[p..] && m <= |v|
    ensures v[..m] == w[p..p+m] && v[m..] == w[p+m..p+|v|]
  {
    assert w[p..][..|v|] == w[p..p+|v|] == v;
  }

  lemma LaterRule(rules: seq<Rule>, w: string, i: nat, p: nat, f: nat, k: nat, s: nat)
    requires Top(rules, w, i, p) && p < f < p + |rules[i].value| && OneEnd(rules, w[..f], k, s)
    ensures i < k && !Dead(rules, k)
  {
    TopLives(rules, w[..f], k, s);
    assert w[0..f] == w[..f];
    OccursInWhole(w, rules[k].value, 0, f);
    TopLives(rules, w, i, p);
    StartsThere(w, rules[k].value, 0, f, s);
  }

  lemma SuffixOf(w: string, a: nat, b: nat, f: nat)
    requires a <= b <= f <= |w|
    ensures EndsWith(w[a..f], w[b..f])
  {
  }

  /** The value that ends inside the first match is critical for it. */
  lemma EndsInCritical(rules: seq<Rule>, w: string, i: nat, p: nat, f: nat, k: nat, s: nat)
    requires Top(rules, w, i, p) && p < f < p + |rules[i].value| && OneEnd(rules, w[..f], k, s)
    ensures Critical(rules, i, k, f - p)
    ensures rules[i].value[..f-p] == w[p..f] && rules[i].value[f-p..] == w[f..p+|rules[i].value|] && rules[k].value == w[s..f]
  {
    LaterRule(rules, w, i, p, f, k, s);
    Segment(w, rules[i].value, p, f - p);
    assert w[..f][s..] == w[s..f] == rules[k].value;
    if s >= p {
      SuffixOf(w, p, s, f);
    } else {
      SuffixOf(w, s, p, f);
    }
  }

  lemma OneEndInPart(rules: seq<Rule>, w: string, k: nat, s: nat, p: nat, f: nat)
    requires f <= |w| && OneEnd(rules, w[..f], k, s) && p <= s
    ensures OneEnd(rules, w[p..f], k, s - p) && w[p..f][..s-p] == w[p..s]
  {
    var x := w[..f];
    TopInPart(rules, x, k, s, p, f);
    assert x[p..f] == w[p..f];
    CleanPart(x[..s], rules, p, s);
    assert x[..s][p..s] == w[p..f][..s-p] == w[p..s];
  }

  /** The critical pair of a value inside the earlier one says that its parts add up to that one's replacement. */
  lemma InnerAddsUp(rules: seq<Rule>, i: nat, l: string, r: string, x: string, y: string)
    requires ValidRules(rules) && Guarded(rules) && i < |rules| && !Dead(rules, i)
    requires rules[i].value == x + y && Joins(rules, x, y) && Closed(rules, x) && ApplyRules(rules, x) == l + r && y != ""
    ensures (l + r) + ApplyRules(rules, y) == rules[i].replacement && Closed(rules, y)
  {
    OwnReplacement(rules, i);
    ClosedPasses(rules, x, y);
    ReplacementIsAlien(rules, i);
    LastOfValue(rules, i);
    SameEnd(x, y);
    ClosedTail(rules, x + y, y, l + r);
  }

  lemma PairIs(rules: seq<Rule>, w: string, i: nat, p: nat, f: nat, e: nat, k: nat, s: nat)
    requires Top(rules, w, i, p) && p < f < e == p + |rules[i].value| && OneEnd(rules, w[..f], k, s)
    ensures Critical(rules, i, k, f - p) && rules[i].value[f-p..] == w[f..e]
    ensures Front(rules, i, k, f - p) == if p <= s then w[p..f] else rules[k].value
  {
    EndsInCritical(rules, w, i, p, f, k, s);
  }

  lemma PairJoins(rules: seq<Rule>, w: string, i: nat, p: nat, f: nat, e: nat, k: nat, s: nat)
    requires ValidRules(rules) && CriticalsJoin(rules)
    requires Top(rules, w, i, p) && p < f < e == p + |rules[i].value| && OneEnd(rules, w[..f], k, s)
    ensures Joins(rules, if p <= s then w[p..f] else rules[k].value, w[f..e])
  {
    PairIs(rules, w, i, p, f, e, k, s);
    assert Joins(rules, Front(rules, i, k, f - p), rules[i].value[f-p..]);
  }

  lemma InnerPair(rules: seq<Rule>, w: string, i: nat, p: nat, f: nat, e: nat, k: nat, s: nat)
    requires ValidRules(rules) && CriticalsJoin(rules)
    requires Top(rules, w, i, p) && p < f < e == p + |rules[i].value| && OneEnd(rules, w[..f], k, s) && p <= s
    ensures rules[i].value == w[p..f] + w[f..e] && Joins(rules, w[p..f], w[f..e]) && !Dead(rules, i)
  {
    PairJoins(rules, w, i, p, f, e, k, s);
    Segment(w, rules[i].value, p, |rules[i].value|);
    TopLives(rules, w, i, p);
  }

  lemma InnerLeft(rules: seq<Rule>, w: string, p: nat, f: nat, k: nat, s: nat)
    requires ValidRules(rules) && Guarded(rules) && f <= |w| && OneEnd(rules, w[..f], k, s) && p <= s
    ensures ApplyRules(rules, w[p..f]) == w[p..s] + rules[k].replacement && Closed(rules, w[p..f])
  {
    OneEndInPart(rules, w, k, s, p, f);
    OneMatch(rules, w[p..f], k, s - p);
    OneMatchCloses(rules, w[p..f], k, s - p);
  }

  lemma InnerParts(rules: seq<Rule>, w: string, i: nat, p: nat, f: nat, e: nat, k: nat, s: nat)
    requires ValidRules(rules) && Guarded(rules) && CriticalsJoin(rules)
    requires Top(rules, w, i, p) && p < f < e == p + |rules[i].value| && OneEnd(rules, w[..f], k, s) && p <= s
    ensures (w[p..s] + rules[k].replacement) + ApplyRules(rules, w[f..e]) == rules[i].replacement
    ensures Closed(rules, w[f..e])
  {
    InnerPair(rules, w, i, p, f, e, k, s);
    InnerLeft(rules, w, p, f, k, s);
    InnerAddsUp(rules, i, w[p..s], rules[k].replacement, w[p..f], w[f..e]);
  }

  lemma InnerSum(a: string, l: string, q: string, y: string, b: string, r: string, left: string, right: string)
    requires left == (a + l) + q && right == y + b && (l + q) + y == r
    ensures left + right == (a + r) + b
  {
    InnerGlue(a, l, q, y, b);
  }

  lemma SlicesJoin(w: string, p: nat, s: nat)
    requires p <= s <= |w|
    ensures w[..s] == w[..p] + w[p..s]
  {
  }

  lemma InnerTogether(rules: seq<Rule>, w: string, p: nat, s: nat, f: nat, e: nat, q: string, r: string)
    requires ValidRules(rules) && AllBelow(rules, |w|) && p <= s <= f <= e <= |w| && 0 < f
    requires Closed(rules, w[f..e]) && (w[p..s] + q) + ApplyRules(rules, w[f..e]) == r
    requires ApplyRules(rules, w[..f]) == (w[..p] + w[p..s]) + q
    requires ApplyRules(rules, w) == (w[..p] + r) + ApplyRules(rules, w[e..])
    ensures ApplyRules(rules, w[..f]) + ApplyRules(rules, w[f..]) == ApplyRules(rules, w)
  {
    SuffixJoined(rules, w, f, e);
    InnerSum(w[..p], w[p..s], q, ApplyRules(rules, w[f..e]), ApplyRules(rules, w[e..]), r,
             ApplyRules(rules, w[..f]), ApplyRules(rules, w[f..]));
  }

  lemma InnerCut(rules: seq<Rule>, w: string, i: nat, p: nat, f: nat, e: nat, k: nat, s: nat)
    requires ValidRules(rules) && Guarded(rules) && CriticalsJoin(rules) && AllBelow(rules, |w|)
    requires Top(rules, w, i, p) && p < f < e == p + |rules[i].value| && OneEnd(rules, w[..f], k, s) && p <= s
    ensures ApplyRules(rules, w[..f]) + ApplyRules(rules, w[f..]) == ApplyRules(rules, w)
  {
    InnerParts(rules, w, i, p, f, e, k, s);
    FrontBytes(rules, w, p, f, k, s);
    CleanTop(rules, w, i, p, e);
    InnerTogether(rules, w, p, s, f, e, rules[k].replacement, rules[i].replacement);
  }

  lemma FrontBytes(rules: seq<Rule>, w: string, p: nat, f: nat, k: nat, s: nat)
    requires ValidRules(rules) && Guarded(rules) && f <= |w| && OneEnd(rules, w[..f], k, s) && p <= s
    ensures ApplyRules(rules, w[..f]) == (w[..p] + w[p..s]) + rules[k].replacement && Clean(w[..p], rules)
  {
    OneMatch(rules, w[..f], k, s);
    assert w[..f][..s] == w[..s];
    SlicesJoin(w, p, s);
    CleanPrefix(w, rules, s, p);
  }

  lemma CleanTop(rules: seq<Rule>, w: string, i: nat, p: nat, e: nat)
    requires ValidRules(rules) && Guarded(rules) && Top(rules, w, i, p) && e == p + |rules[i].value| && Clean(w[..p], rules)
    ensures ApplyRules(rules, w) == (w[..p] + rules[i].replacement) + ApplyRules(rules, w[e..])
  {
    TopSplits(rules, w, i, p);
    CleanUnchanged(rules, w[..p]);
  }

  lemma InnerGlue(a: string, l: string, r: string, y: string, b: string)
    ensures ((a + l) + r) + (y + b) == (a + ((l + r) + y)) + b
  {
  }

  lemma BorderFront(rules: seq<Rule>, k: nat, y: string)
    requires ValidRules(rules) && Guarded(rules) && k < |rules| && !Dead(rules, k)
    ensures ApplyRules(rules, ApplyRules(rules, rules[k].value) + y) == rules[k].replacement + ApplyRules(rules, y)
  {
    OwnReplacement(rules, k);
    ReplacementIsAlien(rules, k);
    LastOfValue(rules, k);
    ClosedPasses(rules, rules[k].value, y);
  }

  lemma BorderBuffer(rules: seq<Rule>, w: string, i: nat, p: nat, s: nat)
    requires ValidRules(rules) && Guarded(rules) && Top(rules, w, i, p) && s <= p && Clean(w[..p], rules)
    ensures ApplyRules(rules, w[s..p+|rules[i].value|]) == w[s..p] + rules[i].replacement
  {
    var e := p + |rules[i].value|;
    var z := w[s..e];
    TopInPart(rules, w, i, p, s, e);
    CleanPart(w[..p], rules, s, p);
    assert w[..p][s..p] == w[s..p] == z[..p-s];
    OneMatch(rules, z, i, p - s);
  }

  lemma BorderPair(rules: seq<Rule>, w: string, i: nat, p: nat, f: nat, k: nat, s: nat)
    requires ValidRules(rules) && CriticalsJoin(rules)
    requires Top(rules, w, i, p) && p < f < p + |rules[i].value| && OneEnd(rules, w[..f], k, s) && s < p
    ensures var e := p + |rules[i].value|;
            && Joins(rules, rules[k].value, w[f..e]) && rules[k].value + w[f..e] == w[s..e]
            && !Dead(rules, k) && rules[k].value[0] == w[s]
  {
    PairJoins(rules, w, i, p, f, p + |rules[i].value|, k, s);
    EndsInCritical(rules, w, i, p, f, k, s);
    assert w[s..f][0] == w[s];
  }

  lemma BorderJoins(rules: seq<Rule>, w: string, i: nat, p: nat, f: nat, k: nat, s: nat)
    requires ValidRules(rules) && Guarded(rules) && CriticalsJoin(rules)
    requires Top(rules, w, i, p) && p < f < p + |rules[i].value| && OneEnd(rules, w[..f], k, s) && s < p
    requires Clean(w[..p], rules)
    ensures rules[k].value[0] == w[s]
    ensures rules[k].replacement + ApplyRules(rules, w[f..p+|rules[i].value|]) == w[s..p] + rules[i].replacement
  {
    BorderPair(rules, w, i, p, f, k, s);
    BorderFront(rules, k, w[f..p+|rules[i].value|]);
    BorderBuffer(rules, w, i, p, s);
  }

  /** The critical pair of a value that runs into the earlier one does not join if nothing in front of that one matches. */
  lemma NoBorder(rules: seq<Rule>, w: string, i: nat, p: nat, f: nat, k: nat, s: nat)
    requires ValidRules(rules) && Guarded(rules) && CriticalsJoin(rules)
    requires Top(rules, w, i, p) && p < f < p + |rules[i].value| && OneEnd(rules, w[..f], k, s)
    requires Clean(w[..p], rules)
    ensures p <= s
  {
    if s < p {
      BorderJoins(rules, w, i, p, f, k, s);
      FirstByteClash(rules, k, ApplyRules(rules, w[f..p+|rules[i].value|]), w[s..p], rules[i].replacement);
    }
  }

  lemma FirstByteClash(rules: seq<Rule>, k: nat, a: string, b: string, c: string)
    requires Guarded(rules) && k < |rules| && rules[k].value != "" && b != "" && b[0] == rules[k].value[0]
    ensures rules[k].replacement + a != b + c
  {
    ReplacementIsAlien(rules, k);
    var r := rules[k].replacement;
    assert (r + a)[0] == r[0] && (b + c)[0] == b[0];
    assert b[0] in rules[k].value;
  }

  // ---- all cuts ----

  /** The first value to end in a text, and what that makes of the text up to there. */
  lemma FirstClosed(rules: seq<Rule>, w: string, e: nat) returns (f: nat, k: nat, s: nat)
    requires ValidRules(rules) && Guarded(rules) && e <= |w| && Closed(rules, w[..e])
    ensures 0 < f <= e && Closed(rules, w[..f]) && Clean(w[..f-1], rules) && OneEnd(rules, w[..f], k, s)
  {
    ClosedIsDirty(rules, w[..e]);
    f := FirstDirty(rules, w, e);
    assert w[..f][..f-1] == w[..f-1];
    k, s := FirstEnds(rules, w[..f]);
    OneMatchCloses(rules, w[..f], k, s);
  }

  lemma CutAtFirst(rules: seq<Rule>, w: string, i: nat, p: nat, f: nat, k: nat, s: nat)
    requires ValidRules(rules) && Guarded(rules) && CriticalsJoin(rules) && AllBelow(rules, |w|)
    requires Top(rules, w, i, p) && 0 < f < p + |rules[i].value| && Closed(rules, w[..f])
    requires Clean(w[..f-1], rules) && OneEnd(rules, w[..f], k, s)
    ensures ApplyRules(rules, w[..f]) + ApplyRules(rules, w[f..]) == ApplyRules(rules, w)
  {
    if f <= p {
      CutBefore(rules, w, i, p, f);
    } else {
      CleanPrefix(w, rules, f - 1, p);
      NoBorder(rules, w, i, p, f, k, s);
      InnerCut(rules, w, i, p, f, p + |rules[i].value|, k, s);
    }
  }

  lemma CutInside(rules: seq<Rule>, w: string, i: nat, p: nat, e: nat)
    requires ValidRules(rules) && Guarded(rules) && CriticalsJoin(rules) && AllBelow(rules, |w|)
    requires Top(rules, w, i, p) && p < e < p + |rules[i].value| && Closed(rules, w[..e])
    ensures Splits(rules, w, e)
  {
    var f, k, s := FirstClosed(rules, w, e);
    CutAtFirst(rules, w, i, p, f, k, s);
    if f < e {
      MoveCut(rules, w, f, e);
    }
  }

  lemma CutAnywhere(rules: seq<Rule>, w: string, e: nat)
    requires ValidRules(rules) && Guarded(rules) && CriticalsJoin(rules) && AllBelow(rules, |w|)
    ensures Splits(rules, w, e)
  {
    if e <= |w| && Closed(rules, w[..e]) {
      ClosedIsDirty(rules, w[..e]);
      var j :| 0 <= j < |rules| && Occurs(rules[j].value, w[..e]);
      assert w[0..e] == w[..e];
      OccursInWhole(w, rules[j].value, 0, e);
      var i, p := HasTop(rules, w, j);
      if e >= p + |rules[i].value| {
        CutBehind(rules, w, i, p, e);
      } else if e <= p {
        CutBefore(rules, w, i, p, e);
      } else {
        CutInside(rules, w, i, p, e);
      }
    }
  }

  lemma {:induction false} AllSplit(rules: seq<Rule>, m: nat)
    requires ValidRules(rules) && Guarded(rules) && CriticalsJoin(rules)
    ensures AllBelow(rules, m)
  {
    if m == 0 {
    } else {
      AllSplit(rules, m - 1);
      forall w, e | |w| < m ensures Splits(rules, w, e) {
        if |w| == m - 1 {
          CutAnywhere(rules, w, e);
        }
      }
    }
  }

  /** If the critical pairs join, every cut does. */
  lemma EveryCutJoins(rules: seq<Rule>, x: string, y: string)
    requires ValidRules(rules) && Guarded(rules) && CriticalsJoin(rules)
    ensures Joins(rules, x, y)
  {
    var e := ClosedPart(rules, x);
    if e == 0 {
      NothingApplied(rules);
      assert x[..0] == "" && "" + x[0..] == x;
    } else {
      var w := x + y;
      AllSplit(rules, |w| + 1);
      assert Splits(rules, w, e);
      assert w[..e] == x[..e] && w[e..] == x[e..] + y;
      ClosedPasses(rules, x[..e], x[e..] + y);
      Regroup(ApplyRules(rules, x[..e]), x[e..], y);
    }
  }

  lemma {:induction false} JoinedStream(rules: seq<Rule>, chunks: seq<string>)
    requires ValidRules(rules) && Guarded(rules) && CriticalsJoin(rules)
    ensures Rescanned(rules, chunks) == ApplyRules(rules, Joined(chunks))
    decreases |chunks|
  {
    if chunks == [] {
      NothingApplied(rules);
    } else {
      var n := |chunks| - 1;
      JoinedStream(rules, chunks[..n]);
      EveryCutJoins(rules, Joined(chunks[..n]), chunks[n]);
    }
  }

  lemma TwoRescans(rules: seq<Rule>, x: string, y: string)
    requires forall i :: 0 <= i < |rules| ==> rules[i].value != ""
    ensures Rescanned(rules, [x, y]) == ApplyRules(rules, ApplyRules(rules, x) + y) && Joined([x, y]) == x + y
  {
    assert [x, y][..1] == [x] && [x][..0] == [];
    assert "" + x == x && Joined([x]) == "" + x;
    assert Rescanned(rules, [x]) == ApplyRules(rules, "" + x);
  }

  /**
    The exact law for any number of guarded rules: stream and buffer agree on
    all inputs and all cuts if and only if they agree on the critical pairs.
   */
  lemma StreamJoinsExactly(rules: seq<Rule>)
    requires ValidRules(rules) && Guarded(rules)
    ensures CriticalsJoin(rules) <==> forall chunks :: Received(rules, chunks) == ApplyRules(rules, Joined(chunks))
  {
    if CriticalsJoin(rules) {
      forall chunks ensures Received(rules, chunks) == ApplyRules(rules, Joined(chunks)) {
        CarryIsEnough(rules, chunks);
        JoinedStream(rules, chunks);
      }
    } else {
      var i: nat, j: nat, n: nat :| Critical(rules, i, j, n) && !Joins(rules, Front(rules, i, j, n), rules[i].value[n..]);
      SeamShowsIn(rules, Front(rules, i, j, n), rules[i].value[n..]);
    }
  }

  lemma SeamShowsIn(rules: seq<Rule>, x: string, y: string)
    requires ValidRules(rules) && Guarded(rules) && !Joins(rules, x, y)
    ensures exists chunks :: Received(rules, chunks) != ApplyRules(rules, Joined(chunks))
  {
    TwoRescans(rules, x, y);
    CarryIsEnough(rules, [x, y]);
  }
}
