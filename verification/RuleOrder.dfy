/**
  What the critical pairs come to: rules without any always stream like the
  buffer, and with replacements of one length these are the only ones.
 */
module RuleOrder {
  import opened Redaction
  import opened RedactionSurvival
  import opened RuleSplits
  import opened RuleStreams

  /** No live value ends inside a proper prefix of a value that is replaced before it, or runs into one. */
  ghost predicate InOrder(rules: seq<Rule>) {
    forall i: nat, j: nat, n: nat :: !Critical(rules, i, j, n)
  }

  /** Such rules stream like the buffer, whatever their replacements. */
  lemma OrderedStream(rules: seq<Rule>, chunks: seq<string>)
    requires ValidRules(rules) && Guarded(rules) && InOrder(rules)
    ensures Received(rules, chunks) == ApplyRules(rules, Joined(chunks))
  {
    StreamJoinsExactly(rules);
  }

  predicate SameLength(rules: seq<Rule>) {
    forall i, j :: 0 <= i < |rules| && 0 <= j < |rules| ==> |rules[i].replacement| == |rules[j].replacement|
  }

  /** The first rule with this value. */
  lemma {:induction false} FirstWith(rules: seq<Rule>, i: nat) returns (h: nat)
    requires i < |rules|
    ensures h <= i && rules[h].value == rules[i].value && !Dead(rules, h)
    decreases i
  {
    if Dead(rules, i) {
      var g :| 0 <= g < i && rules[g].value == rules[i].value;
      h := FirstWith(rules, g);
    } else {
      h := i;
    }
  }

  /** The two parts of a value make more than the replacement that ends the first. */
  lemma PartsAreLonger(rules: seq<Rule>, v: string, h: nat, f: nat, k: nat, s: nat)
    requires ValidRules(rules) && Guarded(rules) && CriticalsJoin(rules)
    requires Top(rules, v, h, 0) && 0 < f < |v| == |rules[h].value| && OneEnd(rules, v[..f], k, s)
    ensures |rules[h].replacement| > |rules[k].replacement|
  {
    InnerParts(rules, v, h, 0, f, |v|, k, s);
    KeepsBytes(rules, v[f..|v|]);
  }

  /** If the pairs join, no value ends inside another. */
  lemma NothingInside(rules: seq<Rule>, i: nat, n: nat)
    requires ValidRules(rules) && Guarded(rules) && SameLength(rules) && CriticalsJoin(rules)
    requires i < |rules| && n < |rules[i].value|
    ensures Clean(rules[i].value[..n], rules)
  {
    var v := rules[i].value;
    if !Clean(v[..n], rules) {
      var h := FirstWith(rules, i);
      OwnReplacement(rules, h);
      var f := FirstDirty(rules, v, n);
      assert v[..f][..f-1] == v[..f-1];
      var k, s := FirstEnds(rules, v[..f]);
      PartsAreLonger(rules, v, h, f, k, s);
    }
  }

  /** No value ends inside a proper prefix of any value. */
  ghost predicate Tidy(rules: seq<Rule>) {
    forall i, n :: 0 <= i < |rules| && 0 <= n < |rules[i].value| ==> Clean(rules[i].value[..n], rules)
  }

  lemma EndsOccurs(x: string, v: string)
    ensures EndsWith(x, v) ==> Occurs(v, x)
  {
    if EndsWith(x, v) {
      assert v <= x[|x|-|v|..];
    }
  }

  lemma NoInner(rules: seq<Rule>, i: nat, j: nat, n: nat)
    requires Tidy(rules) && i < |rules| && j < |rules| && n < |rules[i].value|
    ensures !EndsWith(rules[i].value[..n], rules[j].value)
  {
    EndsOccurs(rules[i].value[..n], rules[j].value);
  }

  lemma BothOpen(t: string, v: string, z: string)
    requires v <= z && |v| <= |t|
    ensures t <= z && |v| < |t| ==> EndsWith(t[..|v|], v)
    ensures t <= z && |v| == |t| ==> t == v
  {
    if t <= z {
      assert t[..|v|] == z[..|v|] == v;
    }
  }

  /** No earlier rule opens a text that a live value opens. */
  lemma StartsWhole(rules: seq<Rule>, h: nat, j: nat, z: string)
    requires ValidRules(rules) && Tidy(rules) && h < j < |rules| && !Dead(rules, j) && rules[j].value <= z
    ensures !(rules[h].value <= z[0..])
  {
    var t, v := rules[h].value, rules[j].value;
    assert z[0..] == z;
    BothOpen(t, v, z);
    if |t| > |v| {
      NoInner(rules, h, j, |v|);
    }
  }

  lemma RunsInto(u: string, v: string, n: nat)
    requires n <= |u| && EndsWith(v, u[..n])
    ensures Occurs(u, v + u[n..])
  {
    var z, m := v + u[n..], |v| - n;
    assert z[m..] == v[m..] + u[n..] == u;
  }

  lemma TopStartsIn(rules: seq<Rule>, z: string, h: nat, p: nat, j: nat)
    requires ValidRules(rules) && Tidy(rules) && Top(rules, z, h, p) && h < j < |rules| && !Dead(rules, j)
    requires rules[j].value <= z && |z| < |rules[j].value| + |rules[h].value|
    ensures 0 < p < |rules[j].value|
  {
    StartsWhole(rules, h, j, z);
  }

  /** Where the later value runs into the earlier one, the buffer's first match starts inside it. */
  lemma TopRunsIn(rules: seq<Rule>, i: nat, j: nat, n: nat, z: string) returns (h: nat, p: nat)
    requires ValidRules(rules) && Tidy(rules) && Critical(rules, i, j, n) && z == rules[j].value + rules[i].value[n..]
    ensures Top(rules, z, h, p) && 0 < p < |rules[j].value|
  {
    NoInner(rules, i, j, n);
    RunsInto(rules[i].value, rules[j].value, n);
    h, p := HasTop(rules, z, i);
    assert |rules[h].value| >= |rules[i].value|;
    TopStartsIn(rules, z, h, p, j);
  }

  /** So its first byte is left alone. */
  lemma FrontIsKept(rules: seq<Rule>, z: string, h: nat, p: nat)
    requires ValidRules(rules) && Guarded(rules) && Top(rules, z, h, p) && Clean(z[..p], rules)
    ensures ApplyRules(rules, z)
            == z[..p] + (rules[h].replacement + ApplyRules(rules, z[p+|rules[h].value|..]))
  {
    TopSplits(rules, z, h, p);
    CleanUnchanged(rules, z[..p]);
    Regroup(z[..p], rules[h].replacement, ApplyRules(rules, z[p+|rules[h].value|..]));
  }

  lemma BorderDiffers(rules: seq<Rule>, i: nat, j: nat, n: nat, y: string)
    requires ValidRules(rules) && Guarded(rules) && Tidy(rules) && Critical(rules, i, j, n) && y == rules[i].value[n..]
    ensures !Joins(rules, rules[j].value, y) && Front(rules, i, j, n) == rules[j].value
  {
    NoInner(rules, i, j, n);
    var v := rules[j].value;
    var z := v + y;
    var h, p := TopRunsIn(rules, i, j, n, z);
    assert z[..p] == v[..p];
    FrontIsKept(rules, z, h, p);
    BorderFront(rules, j, y);
    FirstByteClash(rules, j, ApplyRules(rules, y), z[..p],
                   rules[h].replacement + ApplyRules(rules, z[p+|rules[h].value|..]));
  }

  lemma JoinedIsOrdered(rules: seq<Rule>)
    requires ValidRules(rules) && Guarded(rules) && SameLength(rules) && CriticalsJoin(rules)
    ensures InOrder(rules)
  {
    forall i, n | 0 <= i < |rules| && 0 <= n < |rules[i].value| ensures Clean(rules[i].value[..n], rules) {
      NothingInside(rules, i, n);
    }
    forall i: nat, j: nat, n: nat ensures !Critical(rules, i, j, n) {
      if Critical(rules, i, j, n) {
        assert Joins(rules, Front(rules, i, j, n), rules[i].value[n..]);
        BorderDiffers(rules, i, j, n, rules[i].value[n..]);
      }
    }
  }

  /**
    With replacements of one length, stream and buffer agree on all inputs and
    all cuts if and only if no live value ends inside a value replaced before it.
   */
  lemma RulesStreamExactly(rules: seq<Rule>)
    requires ValidRules(rules) && Guarded(rules) && SameLength(rules)
    ensures InOrder(rules) <==> forall chunks :: Received(rules, chunks) == ApplyRules(rules, Joined(chunks))
  {
    StreamJoinsExactly(rules);
    if CriticalsJoin(rules) {
      JoinedIsOrdered(rules);
    }
  }

  /** An instance: "bc" ends inside "abcd". */
  lemma OverlappingValuesDiffer(rules: seq<Rule>)
    requires rules == [Rule("abcd", "#"), Rule("bc", "#")]
    ensures exists chunks :: Received(rules, chunks) != ApplyRules(rules, Joined(chunks))
  {
    NoSharedByteGuards("abcd", "#");
    NoSharedByteGuards("bc", "#");
    assert "abcd"[..3] == "abc" && "abc"[1..] == "bc";
    assert Critical(rules, 0, 1, 3) by {
      assert !Dead(rules, 1) && rules[0].value == "abcd" && rules[1].value == "bc";
      assert EndsWith("abcd"[..3], "bc");
    }
    RulesStreamExactly(rules);
  }

  /** Another: "a" ends inside "aa", and its replacements add up to that of "aa". */
  lemma AddedUpReplacementsAgree(rules: seq<Rule>, chunks: seq<string>)
    requires rules == [Rule("aa", "[["), Rule("a", "[")]
    ensures ValidRules(rules) && Guarded(rules) && Critical(rules, 0, 1, 1)
    ensures Received(rules, chunks) == ApplyRules(rules, Joined(chunks))
  {
    NoSharedByteGuards("aa", "[[");
    NoSharedByteGuards("aa", "[");
    NoSharedByteGuards("a", "[[");
    NoSharedByteGuards("a", "[");
    assert !Dead(rules, 0) && !Dead(rules, 1);
    assert "aa"[..1] == "a" && "aa"[1..] == "a" && "a"[0..] == "a" && "a" + "a" == "aa" && "[" + "[" == "[[";
    assert EndsWith("aa"[..1], "a");
    OwnReplacement(rules, 0);
    OwnReplacement(rules, 1);
    BorderFront(rules, 1, "a");
    assert Joins(rules, "a", "a");
    forall i: nat, j: nat, n: nat | Critical(rules, i, j, n) ensures Joins(rules, Front(rules, i, j, n), rules[i].value[n..]) {
      assert i == 0 && j == 1 && n == 1;
    }
    StreamJoinsExactly(rules);
  }
}
