/**
  Unpadded base64url (section 5 of RFC 4648), as Go's RawURLEncoding does it:
  the decoder skips CR and LF, refuses padding and does not check that the
  unused bits of the last symbol are zero.
 */
module Base64Url {
  import opened Wrappers

  type byte = i: int | 0 <= i < 256
  type sextet = i: int | 0 <= i < 64

  // ---- symbols ----

  /** The alphabet: A-Z, a-z, 0-9, '-', '_'. */
  function Symbol(i: sextet): (c: char)
    ensures c == '_' <==> i == 63
    ensures c != '\n' && c != '\r'
    ensures Value(c) == Some(i)
  {
    if i < 26 then 'A' + i as char
    else if i < 52 then 'a' + (i - 26) as char
    else if i < 62 then '0' + (i - 52) as char
    else if i == 62 then '-' else '_'
  }

  function Value(c: char): Option<sextet> {
    if 'A' <= c <= 'Z' then Some((c - 'A') as int)
    else if 'a' <= c <= 'z' then Some((c - 'a') as int + 26)
    else if '0' <= c <= '9' then Some((c - '0') as int + 52)
    else if c == '-' then Some(62)
    else if c == '_' then Some(63)
    else None
  }

  function Spell(x: seq<sextet>): (s: string)
    ensures |s| == |x|
    ensures forall i :: 0 <= i < |x| ==> s[i] == Symbol(x[i])
  {
    seq(|x|, i requires 0 <= i < |x| => Symbol(x[i]))
  }

  function Unspell(s: string): (x: Option<seq<sextet>>)
    ensures x.Some? ==> |x.value| == |s|
  {
    if s == "" then Some([])
    else
      var v, rest := Value(s[0]), Unspell(s[1..]);
      if v.None? || rest.None? then None else Some([v.value] + rest.value)
  }

  function Stripped(s: string): (t: string)
    ensures (forall i :: 0 <= i < |s| ==> s[i] != '\n' && s[i] != '\r') ==> t == s
  {
    if s == "" then ""
    else if s[0] == '\n' || s[0] == '\r' then Stripped(s[1..])
    else [s[0]] + Stripped(s[1..])
  }

  lemma {:induction false} SpellRoundTrip(x: seq<sextet>)
    ensures Unspell(Spell(x)) == Some(x)
  {
    if x == [] {
    } else {
      SpellRoundTrip(x[1..]);
      assert Spell(x)[1..] == Spell(x[1..]);
      assert x == [x[0]] + x[1..];
    }
  }

  // ---- bits ----

  // The four sextets of three bytes, and the three bytes of four sextets.

  function First(x: byte): sextet { x as int / 4 }
  function Second(x: byte, y: byte): sextet { x as int % 4 * 16 + y as int / 16 }
  function Third(y: byte, z: byte): sextet { y as int % 16 * 4 + z as int / 64 }
  function Fourth(z: byte): sextet { z as int % 64 }

  function High(p: sextet, q: sextet): byte { p as int * 4 + q as int / 16 }
  function Middle(q: sextet, r: sextet): byte { q as int % 16 * 16 + r as int / 4 }
  function Low(r: sextet, s: sextet): byte { r as int % 4 * 64 + s as int }

  lemma Bytes(x: byte, y: byte, z: byte)
    ensures High(First(x), Second(x, y)) == x
    ensures Middle(Second(x, y), Third(y, z)) == y
    ensures Low(Third(y, z), Fourth(z)) == z
  {
  }

  lemma Sextets(p: sextet, q: sextet, r: sextet, s: sextet)
    ensures First(High(p, q)) == p && Second(High(p, q), Middle(q, r)) == q
    ensures Third(Middle(q, r), Low(r, s)) == r && Fourth(Low(r, s)) == s
  {
  }

  /** Three bytes to four sextets; one and two bytes to two and three. */
  function Split(b: seq<byte>): (x: seq<sextet>)
    ensures |x| == (4 * |b| + 2) / 3
    decreases |b|
  {
    if |b| == 0 then []
    else if |b| == 1 then [First(b[0]), Second(b[0], 0)]
    else if |b| == 2 then [First(b[0]), Second(b[0], b[1]), Third(b[1], 0)]
    else [First(b[0]), Second(b[0], b[1]), Third(b[1], b[2]), Fourth(b[2])] + Split(b[3..])
  }

  /** Four sextets to three bytes; a lone last sextet is an error. */
  function Merge(x: seq<sextet>): (r: Option<seq<byte>>)
    ensures r.Some? ==> |r.value| == |x| * 3 / 4
    decreases |x|
  {
    if |x| == 0 then Some([])
    else if |x| == 1 then None
    else if |x| == 2 then Some([High(x[0], x[1])])
    else if |x| == 3 then Some([High(x[0], x[1]), Middle(x[1], x[2])])
    else
      var rest := Merge(x[4..]);
      if rest.None? then None
      else Some([High(x[0], x[1]), Middle(x[1], x[2]), Low(x[2], x[3])] + rest.value)
  }

  lemma SplitGroup(x: byte, y: byte, z: byte, rest: seq<byte>)
    ensures Split([x, y, z] + rest) == [First(x), Second(x, y), Third(y, z), Fourth(z)] + Split(rest)
  {
    assert ([x, y, z] + rest)[3..] == rest;
  }

  lemma MergeGroup(p: sextet, q: sextet, r: sextet, s: sextet, rest: seq<sextet>)
    ensures Merge([p, q, r, s] + rest).Some? <==> Merge(rest).Some?
    ensures Merge(rest).Some? ==>
              Merge([p, q, r, s] + rest) == Some([High(p, q), Middle(q, r), Low(r, s)] + Merge(rest).value)
  {
    assert ([p, q, r, s] + rest)[4..] == rest;
  }

  lemma GroupBack(x: byte, y: byte, z: byte, rest: seq<byte>)
    requires Merge(Split(rest)) == Some(rest)
    ensures Merge(Split([x, y, z] + rest)) == Some([x, y, z] + rest)
  {
    Bytes(x, y, z);
    SplitGroup(x, y, z, rest);
    MergeGroup(First(x), Second(x, y), Third(y, z), Fourth(z), Split(rest));
  }

  lemma SplitShort(x: byte, y: byte)
    ensures Split([x]) == [First(x), Second(x, 0)]
    ensures Split([x, y]) == [First(x), Second(x, y), Third(y, 0)]
  {
  }

  lemma MergeShort(p: sextet, q: sextet, r: sextet)
    ensures Merge([p, q]) == Some([High(p, q)])
    ensures Merge([p, q, r]) == Some([High(p, q), Middle(q, r)])
  {
  }

  lemma PairBack(b: seq<byte>, x: byte, p: sextet, q: sextet)
    requires Split(b) == [p, q] && High(p, q) == x
    ensures Merge(Split(b)) == Some([x])
  {
    MergeShort(p, q, 0);
  }

  lemma TripleBack(b: seq<byte>, x: byte, y: byte, p: sextet, q: sextet, r: sextet)
    requires Split(b) == [p, q, r] && High(p, q) == x && Middle(q, r) == y
    ensures Merge(Split(b)) == Some([x, y])
  {
    MergeShort(p, q, r);
  }

  lemma OneBack(x: byte)
    ensures Merge(Split([x])) == Some([x])
  {
    SplitShort(x, 0);
    Bytes(x, 0, 0);
    PairBack([x], x, First(x), Second(x, 0));
  }

  lemma TwoBack(x: byte, y: byte)
    ensures Merge(Split([x, y])) == Some([x, y])
  {
    SplitShort(x, y);
    Bytes(x, y, 0);
    TripleBack([x, y], x, y, First(x), Second(x, y), Third(y, 0));
  }

  lemma {:induction false} BitsRoundTrip(b: seq<byte>)
    ensures Merge(Split(b)) == Some(b)
    decreases |b|
  {
    if |b| >= 3 {
      BitsRoundTrip(b[3..]);
      GroupBack(b[0], b[1], b[2], b[3..]);
      assert b == [b[0], b[1], b[2]] + b[3..];
    } else if |b| == 2 {
      TwoBack(b[0], b[1]);
      assert b == [b[0], b[1]];
    } else if |b| == 1 {
      OneBack(b[0]);
      assert b == [b[0]];
    }
  }

  // ---- the codec ----

  function Encode(b: seq<byte>): (s: string)
    ensures forall i :: 0 <= i < |s| ==> s[i] != '\n' && s[i] != '\r'
    ensures |s| == (4 * |b| + 2) / 3
  {
    Spell(Split(b))
  }

  function Decode(s: string): Option<seq<byte>> {
    var x := Unspell(Stripped(s));
    if x.None? then None else Merge(x.value)
  }

  lemma RoundTrip(b: seq<byte>)
    ensures Decode(Encode(b)) == Some(b)
  {
    SpellRoundTrip(Split(b));
    BitsRoundTrip(b);
  }

  /** What a text decodes to has three bytes for every four symbols. */
  lemma DecodedLength(s: string)
    requires forall i :: 0 <= i < |s| ==> s[i] != '\n' && s[i] != '\r'
    ensures Decode(s).Some? ==> |Decode(s).value| == |s| * 3 / 4
  {
    assert Stripped(s) == s;
  }

  // ---- exactly what decodes, and to what ----

  /** A letter of the alphabet. */
  predicate Letter(c: char) {
    || 'A' <= c <= 'Z' || 'a' <= c <= 'z'
    || '0' <= c <= '9' || c in "-_"
  }

  lemma ValueOfLetter(c: char)
    ensures Value(c).Some? <==> Letter(c)
  {
  }

  lemma SpellsFirst(v: sextet, rest: seq<sextet>)
    ensures Spell([v] + rest) == [Symbol(v)] + Spell(rest)
  {
    var s := Spell([v] + rest);
    assert forall i :: 1 <= i < |s| ==> s[i] == Symbol(rest[i-1]);
  }

  lemma AllLetters(s: string)
    requires s != ""
    ensures (forall i :: 0 <= i < |s| ==> Letter(s[i])) <==> Letter(s[0]) && forall i :: 0 <= i < |s[1..]| ==> Letter(s[1..][i])
  {
    assert forall i :: 0 <= i < |s| ==> s[i] == if i == 0 then s[0] else s[1..][i-1];
  }

  lemma {:induction false} UnspellsExactly(s: string)
    ensures Unspell(s).Some? <==> forall i :: 0 <= i < |s| ==> Letter(s[i])
    ensures Unspell(s).Some? ==> Spell(Unspell(s).value) == s
  {
    if s == "" {
    } else {
      UnspellsExactly(s[1..]);
      ValueOfLetter(s[0]);
      AllLetters(s);
      if Unspell(s).Some? {
        ValueSpells(s[0]);
        SpellsFirst(Value(s[0]).value, Unspell(s[1..]).value);
        assert s == [s[0]] + s[1..];
      }
    }
  }

  lemma ValueSpells(c: char)
    requires Value(c).Some?
    ensures Symbol(Value(c).value) == c
  {
  }

  lemma ShortMerges(x: seq<sextet>)
    requires |x| < 4
    ensures Merge(x).Some? <==> |x| != 1
  {
  }

  lemma FourFewer(n: nat)
    requires n >= 4
    ensures n % 4 == (n - 4) % 4
  {
  }

  lemma {:induction false} MergesExactly(x: seq<sextet>)
    ensures Merge(x).Some? <==> |x| % 4 != 1
    decreases |x|
  {
    if |x| < 4 {
      ShortMerges(x);
    } else {
      MergesExactly(x[4..]);
      FourFewer(|x|);
      MergeGroup(x[0], x[1], x[2], x[3], x[4..]);
      assert x == [x[0], x[1], x[2], x[3]] + x[4..];
    }
  }

  /** Text without line breaks decodes if and only if it is spelled in the alphabet and leaves no lone symbol. */
  lemma DecodesExactly(s: string)
    requires forall i :: 0 <= i < |s| ==> s[i] != '\n' && s[i] != '\r'
    ensures Decode(s).Some? <==> |s| % 4 != 1 && forall i :: 0 <= i < |s| ==> Letter(s[i])
  {
    UnspellsExactly(s);
    if Unspell(s).Some? {
      MergesExactly(Unspell(s).value);
    }
  }

  lemma Regrouped(a: string, b: string, c: string)
    ensures (a + b) + c == a + (b + c)
  {
  }

  lemma StripFirst(c: char, s: string)
    ensures Stripped([c] + s) == (if c == '\n' || c == '\r' then "" else [c]) + Stripped(s)
  {
    assert ([c] + s)[1..] == s;
  }

  lemma {:induction false} StripsApart(a: string, b: string)
    ensures Stripped(a + b) == Stripped(a) + Stripped(b)
  {
    if a == "" {
      assert a + b == b;
    } else {
      var c := a[0];
      StripsApart(a[1..], b);
      StripFirst(c, a[1..]);
      StripFirst(c, a[1..] + b);
      Regrouped(if c == '\n' || c == '\r' then "" else [c], Stripped(a[1..]), Stripped(b));
      assert a == [c] + a[1..] && a + b == [c] + (a[1..] + b);
    }
  }

  /** A line break anywhere in the text makes no difference. */
  lemma SkipsBreaks(a: string, c: char, b: string)
    requires c == '\n' || c == '\r'
    ensures Decode((a + [c]) + b) == Decode(a + b)
  {
    StripsApart(a + [c], b);
    StripsApart(a, [c]);
    StripsApart(a, b);
    assert Stripped([c]) == "";
    assert Stripped(a) + "" == Stripped(a);
  }

  /** All but the last symbol are the same, and that too if it has no spare bits. */
  predicate SameBut(y: seq<sextet>, x: seq<sextet>) {
    |y| == |x| && (forall i :: 0 <= i < |x| - 1 ==> y[i] == x[i]) && (|x| % 4 == 0 ==> y == x)
  }

  lemma TwoSplitBack(p: sextet, q: sextet)
    ensures Merge([p, q]).Some? && SameBut(Split(Merge([p, q]).value), [p, q])
  {
    Sextets(p, q, 0, 0);
  }

  lemma ThreeSplitBack(p: sextet, q: sextet, r: sextet)
    ensures Merge([p, q, r]).Some? && SameBut(Split(Merge([p, q, r]).value), [p, q, r])
  {
    Sextets(p, q, r, 0);
  }

  lemma FourMerged(x: seq<sextet>)
    requires |x| >= 4 && Merge(x).Some?
    ensures Merge(x[4..]).Some?
    ensures Split(Merge(x).value) == [x[0], x[1], x[2], x[3]] + Split(Merge(x[4..]).value)
  {
    var p, q, r, s := x[0], x[1], x[2], x[3];
    assert x == [p, q, r, s] + x[4..];
    MergeGroup(p, q, r, s, x[4..]);
    Sextets(p, q, r, s);
    SplitGroup(High(p, q), Middle(q, r), Low(r, s), Merge(x[4..]).value);
  }

  lemma SameBehind(y: seq<sextet>, x: seq<sextet>)
    requires |x| >= 4 && SameBut(y, x[4..])
    ensures SameBut([x[0], x[1], x[2], x[3]] + y, x)
  {
    var z := [x[0], x[1], x[2], x[3]] + y;
    forall i | 0 <= i < |x| - 1 ensures z[i] == x[i] {
      if i >= 4 {
        assert z[i] == y[i-4] && x[i] == x[4..][i-4];
      }
    }
    if |x| % 4 == 0 {
      assert x == [x[0], x[1], x[2], x[3]] + x[4..];
    }
  }

  /** Splitting again what was merged gives the symbols back, but for the spare bits of the last. */
  lemma {:induction false} SplitsBack(x: seq<sextet>)
    requires Merge(x).Some?
    ensures SameBut(Split(Merge(x).value), x)
    decreases |x|
  {
    if |x| == 0 {
    } else if |x| == 2 {
      TwoSplitBack(x[0], x[1]);
      assert x == [x[0], x[1]];
    } else if |x| == 3 {
      ThreeSplitBack(x[0], x[1], x[2]);
      assert x == [x[0], x[1], x[2]];
    } else {
      FourMerged(x);
      SplitsBack(x[4..]);
      SameBehind(Split(Merge(x[4..]).value), x);
    }
  }

  /** What a text decodes to encodes back to it, but for its last symbol when that has spare bits. */
  lemma DecodedReads(s: string)
    requires (forall i :: 0 <= i < |s| ==> s[i] != '\n' && s[i] != '\r') && Decode(s).Some?
    ensures var t := Encode(Decode(s).value);
            |t| == |s| && (forall i :: 0 <= i < |s| - 1 ==> t[i] == s[i]) && (|s| % 4 == 0 ==> t == s)
  {
    UnspellsExactly(s);
    SplitsBack(Unspell(s).value);
  }

  // ---- when the encoding contains '_' ----

  /** Bytes that put all-ones into one of their group's four sextets. */
  predicate YieldsAllOnes(b: seq<byte>, i: nat)
    requires i < |b|
  {
    if i % 3 == 0 then b[i] >= 252
    else if i % 3 == 1 then b[i-1] % 4 == 3 && b[i] >= 240
    else (b[i-1] % 16 == 15 && b[i] >= 192) || b[i] % 64 == 63
  }

  lemma {:induction false} AllOnesExactly(b: seq<byte>)
    ensures 63 in Split(b) <==> exists i :: 0 <= i < |b| && YieldsAllOnes(b, i)
    decreases |b|
  {
    if |b| >= 3 {
      AllOnesExactly(b[3..]);
      var head := Split(b)[..4];
      assert Split(b) == head + Split(b[3..]);
      assert 63 in head <==> YieldsAllOnes(b, 0) || YieldsAllOnes(b, 1) || YieldsAllOnes(b, 2);
      forall i | 0 <= i < |b[3..]| ensures YieldsAllOnes(b[3..], i) <==> YieldsAllOnes(b, i + 3) {
      }
      if i :| 0 <= i < |b[3..]| && YieldsAllOnes(b[3..], i) {
        assert YieldsAllOnes(b, i + 3);
      }
      if i :| 3 <= i < |b| && YieldsAllOnes(b, i) {
        assert YieldsAllOnes(b[3..], i - 3);
      }
    } else if |b| == 2 {
      assert 63 in Split(b) <==> YieldsAllOnes(b, 0) || YieldsAllOnes(b, 1);
    } else if |b| == 1 {
      assert 63 in Split(b) <==> YieldsAllOnes(b, 0);
    }
  }

  lemma UnderscoreExactly(b: seq<byte>)
    ensures '_' in Encode(b) <==> exists i :: 0 <= i < |b| && YieldsAllOnes(b, i)
  {
    AllOnesExactly(b);
    var x := Split(b);
    if 63 in x {
      var i :| 0 <= i < |x| && x[i] == 63;
      assert Encode(b)[i] == '_';
    }
  }

  lemma AsciiByte(x: byte)
    requires x < 128
    ensures x % 64 == 63 <==> x == 63 || x == 127
  {
  }

  /** For ASCII bytes only '?' and DEL, as the third byte of a group, put it there. */
  lemma AsciiUnderscore(b: seq<byte>)
    requires forall i :: 0 <= i < |b| ==> b[i] < 128
    ensures '_' in Encode(b) <==> exists i :: 0 <= i < |b| && i % 3 == 2 && (b[i] == 63 || b[i] == 127)
  {
    UnderscoreExactly(b);
    forall i | 0 <= i < |b| ensures YieldsAllOnes(b, i) <==> i % 3 == 2 && (b[i] == 63 || b[i] == 127) {
      AsciiByte(b[i]);
    }
  }
}
