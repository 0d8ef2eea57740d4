/**
  Exact-value redaction of proxied bodies: whole buffers for requests, and a
  stream with a bounded carry window for responses.  Bytes are characters.
 */
module Redaction {

  /** Leftmost, non-overlapping replacement of every `v` by `r`. */
  function ReplaceAll(s: string, v: string, r: string): string
    requires v != ""
  {
    if |s| < |v| then s
    else if v <= s then r + ReplaceAll(s[|v|..], v, r)
    else [s[0]] + ReplaceAll(s[1..], v, r)
  }

  datatype Rule = Rule(value: string, replacement: string)

  /** The matcher's rules: non-empty values, longest first. */
  ghost predicate ValidRules(rules: seq<Rule>) {
    && (forall i :: 0 <= i < |rules| ==> rules[i].value != "")
    && (forall i, j :: 0 <= i < j < |rules| ==> |rules[i].value| >= |rules[j].value|)
  }

  function ApplyRules(rules: seq<Rule>, s: string): string
    requires forall i :: 0 <= i < |rules| ==> rules[i].value != ""
  {
    if rules == [] then s
    else ReplaceAll(ApplyRules(rules[..|rules|-1], s), rules[|rules|-1].value, rules[|rules|-1].replacement)
  }

  /** The tail held back between chunks: one byte less than the longest value. */
  function Hold(rules: seq<Rule>): nat
    requires forall i :: 0 <= i < |rules| ==> rules[i].value != ""
  {
    if rules == [] then 0 else |rules[0].value| - 1
  }

  /** Carry and output of one write. */
  function Written(rules: seq<Rule>, carry: string, chunk: string): (string, string)
    requires forall i :: 0 <= i < |rules| ==> rules[i].value != ""
  {
    if rules == [] then (carry, chunk)
    else
      var out := ApplyRules(rules, carry + chunk);
      var hold := Hold(rules);
      if |out| <= hold then (out, "") else (out[|out|-hold..], out[..|out|-hold])
  }

  /** Carry and everything emitted after a list of writes. */
  function Streamed(rules: seq<Rule>, chunks: seq<string>): (string, string)
    requires forall i :: 0 <= i < |rules| ==> rules[i].value != ""
  {
    if chunks == [] then ("", "")
    else
      var (carry, emitted) := Streamed(rules, chunks[..|chunks|-1]);
      var (carry', out) := Written(rules, carry, chunks[|chunks|-1]);
      (carry', emitted + out)
  }

  /** The whole response body a client receives. */
  function Received(rules: seq<Rule>, chunks: seq<string>): string
    requires forall i :: 0 <= i < |rules| ==> rules[i].value != ""
  {
    Streamed(rules, chunks).1 + Streamed(rules, chunks).0
  }

  function Joined(chunks: seq<string>): string {
    if chunks == [] then "" else Joined(chunks[..|chunks|-1]) + chunks[|chunks|-1]
  }

  /** The matcher applied to a complete buffer. */
  method Apply(rules: seq<Rule>, s: string) returns (out: string)
    requires ValidRules(rules)
    ensures out == ApplyRules(rules, s)
  {
    out := s;
    for i := 0 to |rules|
      invariant out == ApplyRules(rules[..i], s)
    {
      assert rules[..i+1][..i] == rules[..i];
      out := ReplaceAll(out, rules[i].value, rules[i].replacement);
    }
    assert rules[..|rules|] == rules;
  }

  /** The streaming writer and its carry buffer. */
  class StreamRedactor {
    const rules: seq<Rule>
    var carry: string

    ghost predicate Valid()
      reads this
    {
      ValidRules(rules) && (rules == [] ==> carry == "")
    }

    constructor (rules: seq<Rule>)
      requires ValidRules(rules)
      ensures Valid() && this.rules == rules && carry == ""
    {
      this.rules := rules;
      carry := "";
    }

    method Write(chunk: string) returns (out: string)
      requires Valid()
      modifies this
      ensures Valid()
      ensures (carry, out) == Written(rules, old(carry), chunk)
    {
      if rules == [] {
        return chunk;
      }
      var buf := carry + chunk;
      carry := "";
      var applied := Apply(rules, buf);
      var hold := |rules[0].value| - 1;
      if |applied| <= hold {
        carry := applied;
        return "";
      }
      carry := applied[|applied|-hold..];
      return applied[..|applied|-hold];
    }

    method Flush() returns (out: string)
      requires Valid()
      modifies this
      ensures Valid()
      ensures out == old(carry) && carry == ""
    {
      if rules == [] {
        return "";
      }
      out := carry;
      carry := "";
    }
  }

  // ---- one rule: when the stream equals the buffer ----

  /** The scan so far: output that no later byte can change, and the unscanned tail. */
  function Settled(s: string, v: string, r: string): string
    requires v != ""
  {
    if |s| < |v| then ""
    else if v <= s then r + Settled(s[|v|..], v, r)
    else [s[0]] + Settled(s[1..], v, r)
  }

  function Pending(s: string, v: string): (p: string)
    requires v != ""
    ensures |p| < |v|
  {
    if |s| < |v| then s else if v <= s then Pending(s[|v|..], v) else Pending(s[1..], v)
  }

  /** `e` ends `s`. */
  predicate EndsWith(s: string, e: string) {
    |e| <= |s| && s[|s|-|e|..] == e
  }

  /** No proper prefix of the value lines up with the end of the replacement. */
  ghost predicate Clear(v: string, r: string) {
    forall n :: 0 < n < |v| ==> !EndsWith(r, v[..n]) && !EndsWith(v[..n], r)
  }

  /** One character repeated. */
  ghost predicate Uniform(v: string) {
    forall i :: 0 <= i < |v| ==> v[i] == v[0]
  }

  /** Exactly the rules for which cutting the input can never show. */
  ghost predicate Seamless(v: string, r: string) {
    r == v || (r == "" && Uniform(v)) || Clear(v, r)
  }

  lemma {:induction false} ScanIs(x: string, v: string, r: string)
    requires v != ""
    ensures ReplaceAll(x, v, r) == Settled(x, v, r) + Pending(x, v)
    decreases |x|
  {
    if |x| < |v| {
    } else {
      var tail := if v <= x then x[|v|..] else x[1..];
      ScanIs(tail, v, r);
      Regroup(if v <= x then r else [x[0]], Settled(tail, v, r), Pending(tail, v));
    }
  }

  /** A value that opens a string opens every extension of it, and one that does not cannot in its first bytes. */
  lemma OpensBoth(x: string, y: string, v: string)
    requires |v| <= |x|
    ensures v <= x + y <==> v <= x
    ensures (x + y)[|v|..] == x[|v|..] + y
    ensures |v| > 0 ==> (x + y)[1..] == x[1..] + y && (x + y)[0] == x[0]
  {
    assert x[..|v|] == (x + y)[..|v|];
  }

  lemma {:induction false} ScanJoins(x: string, y: string, v: string, r: string)
    requires v != ""
    ensures ReplaceAll(x + y, v, r) == Settled(x, v, r) + ReplaceAll(Pending(x, v) + y, v, r)
    decreases |x|
  {
    if |x| < |v| {
    } else {
      OpensBoth(x, y, v);
      var tail := if v <= x then x[|v|..] else x[1..];
      ScanJoins(tail, y, v, r);
      Regroup(if v <= x then r else [x[0]], Settled(tail, v, r), ReplaceAll(Pending(tail, v) + y, v, r));
    }
  }

  lemma ScanSplits(x: string, y: string, v: string, r: string)
    requires v != ""
    ensures ReplaceAll(x, v, r) == Settled(x, v, r) + Pending(x, v)
    ensures ReplaceAll(x + y, v, r) == Settled(x, v, r) + ReplaceAll(Pending(x, v) + y, v, r)
  {
    ScanIs(x, v, r);
    ScanJoins(x, y, v, r);
  }

  /** A byte at which no match starts passes through. */
  lemma PassByte(c: char, s: string, v: string, r: string)
    requires v != "" && !(v <= [c] + s)
    ensures ReplaceAll([c] + s, v, r) == [c] + ReplaceAll(s, v, r)
  {
    assert ([c] + s)[1..] == s;
  }

  /** Bytes at which no match starts pass through. */
  lemma {:induction false} PassThrough(d: string, z: string, v: string, r: string)
    requires v != ""
    requires forall j :: 0 <= j < |d| ==> !(v <= d[j..] + z)
    ensures ReplaceAll(d + z, v, r) == d + ReplaceAll(z, v, r)
  {
    if d == "" {
      assert d + z == z;
    } else {
      var e := d[1..];
      forall j | 0 <= j < |e| ensures !(v <= e[j..] + z) {
        assert e[j..] == d[j+1..];
      }
      PassThrough(e, z, v, r);
      assert d[0..] + z == d + z == [d[0]] + (e + z);
      PassByte(d[0], e + z, v, r);
      Regroup([d[0]], e, ReplaceAll(z, v, r));
    }
  }

  lemma EndsLonger(a: string, s: string, e: string)
    ensures EndsWith(s, e) ==> EndsWith(a + s, e)
    ensures EndsWith(a, e) && s == "" ==> EndsWith(a + s, e)
  {
    if EndsWith(s, e) {
      assert (a + s)[|a + s|-|e|..] == s[|s|-|e|..];
    }
    assert s == "" ==> a + s == a;
  }

  /** A short tail follows a match; after a mere byte the tail has full length. */
  lemma {:induction false} TailFollowsMatch(x: string, v: string, r: string)
    requires v != ""
    ensures Settled(x, v, r) == "" || |Pending(x, v)| == |v| - 1 || EndsWith(Settled(x, v, r), r)
    decreases |x|
  {
    if |x| < |v| {
    } else {
      var tail := if v <= x then x[|v|..] else x[1..];
      TailFollowsMatch(tail, v, r);
      EndsLonger(if v <= x then r else [x[0]], Settled(tail, v, r), r);
    }
  }

  /** Deleting a uniform value never leaves its character before a short tail. */
  lemma {:induction false} UniformTail(x: string, v: string)
    requires v != "" && Uniform(v)
    ensures var d := Settled(x, v, "");
            d == "" || |Pending(x, v)| == |v| - 1 || d[|d|-1] != v[0]
    decreases |x|
  {
    if |x| < |v| {
    } else {
      if v <= x {
        UniformTail(x[|v|..], v);
      } else {
        UniformTail(x[1..], v);
        if Settled(x[1..], v, "") == "" && |x[1..]| >= |v| {
          assert v <= x[1..];
          assert x[0] != v[0] by {
            if x[0] == v[0] {
              forall i | 0 <= i < |v| ensures x[i] == v[i] {
                if i > 0 { assert x[i] == x[1..][i-1] == v[i-1]; }
              }
            }
          }
        }
      }
    }
  }

  /** A match that started in the settled part of a carry would line the value up with the replacement. */
  lemma CarryMatch(x: string, y: string, v: string, r: string, j: nat)
    requires v != "" && j < |Settled(x, v, r)| && |Settled(x, v, r)| - j + |Pending(x, v)| < |v|
    requires v <= Settled(x, v, r)[j..] + (Pending(x, v) + y)
    ensures var d := Settled(x, v, r);
            var n := |d| - j;
            && v[..n] == d[j..]
            && (EndsWith(r, v[..n]) || EndsWith(v[..n], r))
  {
    var d, p := Settled(x, v, r), Pending(x, v);
    var e := d[j..];
    assert (e + (p + y))[..|e|] == e;
    TailFollowsMatch(x, v, r);
    if |e| <= |r| {
      assert d[|d|-|r|..][|r|-|e|..] == e;
    } else {
      assert e[|e|-|r|..] == d[|d|-|r|..];
    }
  }

  /** No match starts inside the part of the carry that was already settled. */
  lemma NoMatchInCarry(x: string, y: string, v: string, r: string, j: nat)
    requires v != "" && r != v && Seamless(v, r)
    requires j < |Settled(x, v, r)| && |Settled(x, v, r)| - j + |Pending(x, v)| < |v|
    ensures !(v <= Settled(x, v, r)[j..] + (Pending(x, v) + y))
  {
    if v <= Settled(x, v, r)[j..] + (Pending(x, v) + y) {
      var d := Settled(x, v, r);
      var n := |d| - j;
      assert d[j..][n-1] == d[|d|-1];
      CarryMatch(x, y, v, r, j);
      if !Clear(v, r) {
        UniformTail(x, v);
      }
    }
  }

  lemma {:induction false} IdentityRule(s: string, v: string)
    requires v != ""
    ensures ReplaceAll(s, v, v) == s
    decreases |s|
  {
    if |s| < |v| {
    } else {
      if v <= s {
        IdentityRule(s[|v|..], v);
      } else {
        IdentityRule(s[1..], v);
      }
    }
  }

  lemma Splice(d: string, p: string, y: string, z: string, k: nat)
    requires k <= |d|
    ensures (d + p)[..k] + (d[k..] + z) == d + z
    ensures (d + p)[k..] + y == d[k..] + (p + y)
  {
    assert (d + p)[..k] == d[..k];
  }

  /** Where a write cuts its output. */
  function Cut(n: nat, v: string): (k: nat)
    requires v != ""
    ensures k <= n && n - k < |v|
  {
    if n <= |v| - 1 then 0 else n - (|v| - 1)
  }

  /** The settled part of the carry passes through the next scan. */
  lemma CarryPasses(x: string, y: string, v: string, r: string, k: nat)
    requires v != "" && r != v && Seamless(v, r)
    requires k <= |Settled(x, v, r)| && |Settled(x, v, r)| - k + |Pending(x, v)| < |v|
    ensures ReplaceAll(Settled(x, v, r)[k..] + (Pending(x, v) + y), v, r)
         == Settled(x, v, r)[k..] + ReplaceAll(Pending(x, v) + y, v, r)
  {
    var d, p := Settled(x, v, r), Pending(x, v);
    forall j | 0 <= j < |d[k..]| ensures !(v <= d[k..][j..] + (p + y)) {
      assert d[k..][j..] == d[k+j..];
      NoMatchInCarry(x, y, v, r, k + j);
    }
    PassThrough(d[k..], p + y, v, r);
  }

  /** One write, followed by anything: the split of its output does not show. */
  lemma WriteIsSeamless(x: string, y: string, v: string, r: string)
    requires v != "" && Seamless(v, r)
    ensures var out := ReplaceAll(x, v, r);
            var k := Cut(|out|, v);
            ReplaceAll(x + y, v, r) == out[..k] + ReplaceAll(out[k..] + y, v, r)
  {
    var out := ReplaceAll(x, v, r);
    var k := Cut(|out|, v);
    if r == v {
      IdentityRule(x, v);
      IdentityRule(x + y, v);
      IdentityRule(x[k..] + y, v);
      Splice(x, "", y, y, k);
      assert x + "" == x;
    } else {
      ScanSplits(x, y, v, r);
      CarryPasses(x, y, v, r, k);
      Splice(Settled(x, v, r), Pending(x, v), y, ReplaceAll(Pending(x, v) + y, v, r), k);
    }
  }

  /** One write through a single rule. */
  lemma WrittenOne(carry: string, chunk: string, v: string, r: string)
    requires v != ""
    ensures var out := ReplaceAll(carry + chunk, v, r);
            var k := Cut(|out|, v);
            Written([Rule(v, r)], carry, chunk) == (out[k..], out[..k])
  {
    var rules := [Rule(v, r)];
    assert rules[..0] == [];
    var out := ReplaceAll(carry + chunk, v, r);
    assert ApplyRules(rules, carry + chunk) == out;
    assert out[0..] == out && out[..0] == "";
  }

  lemma Regroup(a: string, b: string, c: string)
    ensures (a + b) + c == a + (b + c)
  {
  }

  lemma {:induction false} StreamInvariant(v: string, r: string, chunks: seq<string>, y: string)
    requires v != "" && Seamless(v, r)
    ensures var (carry, emitted) := Streamed([Rule(v, r)], chunks);
            |carry| < |v| && ReplaceAll(Joined(chunks) + y, v, r) == emitted + ReplaceAll(carry + y, v, r)
    decreases |chunks|
  {
    if chunks == [] {
      assert "" + y == y && "" + ReplaceAll(y, v, r) == ReplaceAll(y, v, r);
    } else {
      var n := |chunks| - 1;
      var (carry, emitted) := Streamed([Rule(v, r)], chunks[..n]);
      var c := chunks[n];
      StreamInvariant(v, r, chunks[..n], c + y);
      Regroup(Joined(chunks[..n]), c, y);
      Regroup(carry, c, y);
      WrittenOne(carry, c, v, r);
      WriteIsSeamless(carry + c, y, v, r);
      var out := ReplaceAll(carry + c, v, r);
      var k := Cut(|out|, v);
      Regroup(emitted, out[..k], ReplaceAll(out[k..] + y, v, r));
    }
  }

  /** Any cutting of any input into chunks gives what the whole buffer gives. */
  lemma SeamlessStream(v: string, r: string, chunks: seq<string>)
    requires v != "" && Seamless(v, r)
    ensures Received([Rule(v, r)], chunks) == ReplaceAll(Joined(chunks), v, r)
  {
    StreamInvariant(v, r, chunks, "");
    var (carry, emitted) := Streamed([Rule(v, r)], chunks);
    assert carry + "" == carry && Joined(chunks) + "" == Joined(chunks);
  }

  // ---- and when it does not ----

  /** Replacing at least one occurrence by something else is visible. */
  lemma {:induction false} ReplacementShows(z: string, j: nat, v: string, r: string)
    requires v != "" && r != v
    requires j <= |z| && v <= z[j..]
    ensures ReplaceAll(z, v, r) != z
    ensures |r| > |v| ==> |ReplaceAll(z, v, r)| > |z|
    ensures |r| < |v| ==> |ReplaceAll(z, v, r)| < |z|
    decreases |z|
  {
    if v <= z {
      LengthDrift(z[|v|..], v, r);
      var w := ReplaceAll(z, v, r);
      if |r| == |v| {
        assert w[..|r|] == r && z[..|r|] == v;
      }
    } else {
      assert j > 0 && z[1..][j-1..] == z[j..];
      ReplacementShows(z[1..], j - 1, v, r);
      assert z == [z[0]] + z[1..];
      assert ReplaceAll(z, v, r)[1..] == ReplaceAll(z[1..], v, r);
    }
  }

  lemma {:induction false} LengthDrift(z: string, v: string, r: string)
    requires v != ""
    ensures |r| >= |v| ==> |ReplaceAll(z, v, r)| >= |z|
    ensures |r| <= |v| ==> |ReplaceAll(z, v, r)| <= |z|
    decreases |z|
  {
    if |z| < |v| {
    } else {
      if v <= z {
        LengthDrift(z[|v|..], v, r);
      } else {
        LengthDrift(z[1..], v, r);
      }
    }
  }

  lemma StreamedTwo(rules: seq<Rule>, x: string, y: string)
    requires forall i :: 0 <= i < |rules| ==> rules[i].value != ""
    ensures var (c, o) := Written(rules, "", x);
            var (c', o') := Written(rules, c, y);
            Received(rules, [x, y]) == (o + o') + c'
    ensures Joined([x, y]) == x + y
  {
    assert [x, y][..1] == [x] && [x][..0] == [];
    assert "" + x == x && Joined([x]) == "" + x;
    var (c, o) := Written(rules, "", x);
    assert "" + o == o;
    assert Streamed(rules, [x]) == (c, o);
  }

  /** What two chunks come out as. */
  lemma TwoChunks(v: string, r: string, x: string, y: string)
    requires v != ""
    ensures var out := ReplaceAll(x, v, r);
            var k := Cut(|out|, v);
            Received([Rule(v, r)], [x, y]) == out[..k] + ReplaceAll(out[k..] + y, v, r)
  {
    var out := ReplaceAll(x, v, r);
    var k := Cut(|out|, v);
    var o := ReplaceAll(out[k..] + y, v, r);
    var l := Cut(|o|, v);
    StreamedTwo([Rule(v, r)], x, y);
    WrittenOne("", x, v, r);
    assert "" + x == x;
    WrittenOne(out[k..], y, v, r);
    Regroup(out[..k], o[..l], o[l..]);
    Rejoin(o, l);
  }

  lemma Rejoin(s: string, k: nat)
    requires k <= |s|
    ensures s[..k] + s[k..] == s
  {
  }

  lemma MatchThen(z: string, v: string, r: string)
    requires v != ""
    ensures ReplaceAll(v + z, v, r) == r + ReplaceAll(z, v, r)
  {
    assert (v + z)[|v|..] == z;
  }

  lemma Whole(v: string, r: string)
    requires v != ""
    ensures ReplaceAll(v, v, r) == r
  {
    MatchThen("", v, r);
    assert v + "" == v && r + "" == r;
  }

  /** Re-scanning a tail of the replacement joined with the rest of the value. */
  lemma Rejoined(v: string, r: string, n: nat, k: nat)
    requires 0 < n < |v| && EndsWith(r, v[..n]) && k <= |r| - n
    ensures r[k..] + v[n..] == r[k..|r|-n] + v
  {
    assert r[k..] == r[k..|r|-n] + v[..n];
    assert v[..n] + v[n..] == v;
  }

  /** A prefix of the value ends the replacement: cut right after a match. */
  lemma SeamAfterMatch(v: string, r: string, n: nat)
    requires r != v && 0 < n < |v| && EndsWith(r, v[..n])
    ensures Received([Rule(v, r)], [v, v[n..]]) != ReplaceAll(Joined([v, v[n..]]), v, r)
  {
    var t := v[n..];
    TwoChunks(v, r, v, t);
    Whole(v, r);
    MatchThen(t, v, r);
    var k := Cut(|r|, v);
    StreamedTwo([Rule(v, r)], v, t);
    Rejoined(v, r, n, k);
    var c := r[k..|r|-n];
    assert (c + v)[|c|..] == v;
    ReplacementShows(c + v, |c|, v, r);
    DifferentTails(r[..k], ReplaceAll(c + v, v, r), c + v);
    Splice(r, "", t, t, k);
    assert r + "" == r && ReplaceAll(t, v, r) == t;
  }

  lemma DifferentTails(a: string, b: string, c: string)
    requires b != c
    ensures a + b != a + c
  {
    assert (a + b)[|a|..] == b && (a + c)[|a|..] == c;
  }

  /** If `v` reoccurs at `q` in `v[..m] + v`, it repeats with period `m - q`. */
  lemma Periodic(v: string, m: nat, q: nat, i: nat)
    requires q < m <= |v| && m - q <= i < |v|
    requires v <= v[..m][q..] + v
    ensures v[i] == v[i - (m - q)]
  {
    assert (v[..m][q..] + v)[i] == v[i - (m - q)];
  }

  /** An early match would leave a shorter prefix that ends in the replacement. */
  lemma EarlyMatch(v: string, r: string, n: nat, q: nat)
    requires |r| < n < |v| && EndsWith(v[..n], r)
    requires q < n - |r| && v <= v[..n-|r|][q..] + v
    ensures EndsWith(v[..|r|+q], r)
    ensures n - |r| == 1 ==> Uniform(v)
  {
    var m := n - |r|;
    forall i | 0 <= i < |r| ensures v[q+i] == r[i] {
      Periodic(v, m, q, m + i);
      assert v[..n][m..][i] == r[i];
    }
    assert v[..|r|+q][q..] == r;
    if m == 1 {
      forall i | 0 <= i < |v| ensures v[i] == v[0] {
        RepeatsFirst(v, i);
      }
    }
  }

  lemma {:induction false} RepeatsFirst(v: string, i: nat)
    requires |v| > 1 && v <= v[..1][0..] + v && i < |v|
    ensures v[i] == v[0]
  {
    if i == 0 {
    } else {
      Periodic(v, 1, 0, i);
      RepeatsFirst(v, i - 1);
    }
  }

  /** The bytes in front of the shortest such prefix hold no match. */
  lemma NoEarlyMatch(v: string, r: string, n: nat, q: nat)
    requires |r| < n < |v| && EndsWith(v[..n], r)
    requires forall m :: |r| < m < n ==> !EndsWith(v[..m], r)
    requires r == "" ==> !Uniform(v)
    requires r != "" ==> !EndsWith(r, v[..|r|])
    requires q < n - |r|
    ensures !(v <= v[..n-|r|][q..] + v)
  {
    if v <= v[..n-|r|][q..] + v {
      assert EndsWith(v[..|r|], r) ==> EndsWith(r, v[..|r|]);
      assert r == "" && n > 1 ==> EndsWith(v[..1], r);
      EarlyMatch(v, r, n, q);
    }
  }

  /** The replacement sits inside the value: cut so that the value reassembles around it. */
  lemma SeamAroundMatch(v: string, r: string, n: nat)
    requires r != v && |r| < n < |v| && EndsWith(v[..n], r)
    requires forall m :: |r| < m < n ==> !EndsWith(v[..m], r)
    requires r == "" ==> !Uniform(v)
    requires r != "" ==> !EndsWith(r, v[..|r|])
    ensures var a := v[..n-|r|];
            Received([Rule(v, r)], [a + v, v[n..]]) != ReplaceAll(Joined([a + v, v[n..]]), v, r)
  {
    var a, t := v[..n-|r|], v[n..];
    forall q | 0 <= q < |a| ensures !(v <= a[q..] + v) {
      NoEarlyMatch(v, r, n, q);
    }
    SeamAround(v, r, a, t);
  }

  lemma SeamAround(v: string, r: string, a: string, t: string)
    requires r != v && v == a + r + t && a != "" && t != ""
    requires forall q :: 0 <= q < |a| ==> !(v <= a[q..] + v)
    ensures Received([Rule(v, r)], [a + v, t]) != ReplaceAll(Joined([a + v, t]), v, r)
  {
    AroundBatch(v, r, a, t);
    AroundStream(v, r, a, t);
    StreamedTwo([Rule(v, r)], a + v, t);
  }

  /** The batch leaves the value whole around the replaced occurrence. */
  lemma AroundBatch(v: string, r: string, a: string, t: string)
    requires v == a + r + t && a != ""
    requires forall q :: 0 <= q < |a| ==> !(v <= a[q..] + v)
    ensures ReplaceAll((a + v) + t, v, r) == v
  {
    forall q | 0 <= q < |a| ensures !(v <= a[q..] + (v + t)) {
      assert (a[q..] + (v + t))[..|v|] == (a[q..] + v)[..|v|];
    }
    PassThrough(a, v + t, v, r);
    MatchThen(t, v, r);
    Regroup(a, v, t);
    Regroup(a, r, t);
  }

  /** The stream re-scans the carry and replaces it a second time. */
  lemma AroundStream(v: string, r: string, a: string, t: string)
    requires v == a + r + t && a != "" && t != ""
    requires forall q :: 0 <= q < |a| ==> !(v <= a[q..] + v)
    ensures Received([Rule(v, r)], [a + v, t]) == r
  {
    PassThrough(a, v, v, r);
    Whole(v, r);
    TwoChunks(v, r, a + v, t);
    var out := a + r;
    assert Cut(|out|, v) == 0 && out[0..] == out && out[..0] + r == r;
  }

  /** The shortest prefix that ends in the replacement. */
  lemma ShortestSeam(v: string, r: string, n: nat) returns (m: nat)
    requires |r| < n < |v| && EndsWith(v[..n], r)
    ensures |r| < m <= n && EndsWith(v[..m], r)
    ensures forall i :: |r| < i < m ==> !EndsWith(v[..i], r)
  {
    if i: nat :| |r| < i < n && EndsWith(v[..i], r) {
      m := ShortestSeam(v, r, i);
    } else {
      m := n;
    }
  }

  lemma SameLength(p: string, r: string)
    ensures EndsWith(p, r) && |p| == |r| ==> EndsWith(r, p)
  {
  }

  lemma SeamShows(v: string, r: string) returns (chunks: seq<string>)
    requires v != "" && !Seamless(v, r)
    ensures Received([Rule(v, r)], chunks) != ReplaceAll(Joined(chunks), v, r)
  {
    if n: nat :| 0 < n < |v| && EndsWith(r, v[..n]) {
      SeamAfterMatch(v, r, n);
      chunks := [v, v[n..]];
    } else {
      var n :| 0 < n < |v| && EndsWith(v[..n], r);
      SameLength(v[..n], r);
      var m := ShortestSeam(v, r, n);
      SeamAroundMatch(v, r, m);
      chunks := [v[..m-|r|] + v, v[m..]];
    }
  }

  /**
    The exact law of a single rule: the stream equals the buffer for every
    input and every way of cutting it if and only if the rule is seamless.
   */
  lemma StreamEqualsBatchExactly(v: string, r: string)
    requires v != ""
    ensures Seamless(v, r) <==> forall chunks :: Received([Rule(v, r)], chunks) == ReplaceAll(Joined(chunks), v, r)
  {
    if Seamless(v, r) {
      forall chunks ensures Received([Rule(v, r)], chunks) == ReplaceAll(Joined(chunks), v, r) {
        SeamlessStream(v, r, chunks);
      }
    } else {
      var chunks := SeamShows(v, r);
    }
  }
}
