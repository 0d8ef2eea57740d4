/**
  Strings as bytes, one char each, and what a JSON encoder does to them: every
  byte that starts no well-formed UTF-8 sequence becomes U+FFFD.
 */
module Utf8 {
  function Code(s: string, i: nat): int {
    if i < |s| then s[i] as int else -1
  }

  predicate Tail(s: string, i: nat, low: int, high: int) {
    low <= Code(s, i) <= high
  }

  /** Length of the well-formed sequence at the start, 0 if there is none. */
  function Width(s: string): (w: nat)
    ensures w <= |s|
  {
    var b := Code(s, 0);
    if 0 <= b < 0x80 then 1
    else if 0xC2 <= b <= 0xDF && Tail(s, 1, 0x80, 0xBF) then 2
    else if b == 0xE0 && Tail(s, 1, 0xA0, 0xBF) && Tail(s, 2, 0x80, 0xBF) then 3
    else if b == 0xED && Tail(s, 1, 0x80, 0x9F) && Tail(s, 2, 0x80, 0xBF) then 3
    else if 0xE1 <= b <= 0xEF && b != 0xED && Tail(s, 1, 0x80, 0xBF) && Tail(s, 2, 0x80, 0xBF) then 3
    else if b == 0xF0 && Tail(s, 1, 0x90, 0xBF) && Tail(s, 2, 0x80, 0xBF) && Tail(s, 3, 0x80, 0xBF) then 4
    else if 0xF1 <= b <= 0xF3 && Tail(s, 1, 0x80, 0xBF) && Tail(s, 2, 0x80, 0xBF) && Tail(s, 3, 0x80, 0xBF) then 4
    else if b == 0xF4 && Tail(s, 1, 0x80, 0x8F) && Tail(s, 2, 0x80, 0xBF) && Tail(s, 3, 0x80, 0xBF) then 4
    else 0
  }

  predicate Valid(s: string) {
    s != [] ==> Width(s) > 0 && Valid(s[Width(s)..])
  }

  const REPLACEMENT: string := [0xEF as char, 0xBF as char, 0xBD as char]

  /** The string as it reads back from JSON. */
  function Fix(s: string): string {
    if s == [] then []
    else if Width(s) == 0 then REPLACEMENT + Fix(s[1..])
    else s[..Width(s)] + Fix(s[Width(s)..])
  }

  // ---- what well-formed means ----

  /** A code point that is not a surrogate. */
  predicate Scalar(c: int) {
    0 <= c < 0xD800 || 0xE000 <= c <= 0x10FFFF
  }

  function Cont(c: int): char
    requires c >= 0
  {
    (0x80 + c % 64) as char
  }

  /** Its bytes (section 3 of RFC 3629). */
  function Bytes(c: int): (s: string)
    requires Scalar(c)
    ensures s != ""
  {
    if c < 0x80 then [c as char]
    else if c < 0x800 then [(0xC0 + c / 64) as char, Cont(c)]
    else if c < 0x10000 then [(0xE0 + c / 4096) as char, Cont(c / 64), Cont(c)]
    else [(0xF0 + c / 262144) as char, Cont(c / 4096), Cont(c / 64), Cont(c)]
  }

  ghost predicate Scalars(cs: seq<int>) {
    forall i :: 0 <= i < |cs| ==> Scalar(cs[i])
  }

  ghost function Spelled(cs: seq<int>): string
    requires Scalars(cs)
  {
    if cs == [] then "" else Bytes(cs[0]) + Spelled(cs[1..])
  }

  /** The code point a sequence of this width spells. */
  function Point(s: string, w: nat): int
    requires 1 <= w <= |s|
  {
    if w == 1 then s[0] as int
    else if w == 2 then (s[0] as int - 0xC0) * 64 + (s[1] as int - 0x80)
    else if w == 3 then (s[0] as int - 0xE0) * 4096 + (s[1] as int - 0x80) * 64 + (s[2] as int - 0x80)
    else if w == 4 then (s[0] as int - 0xF0) * 262144 + (s[1] as int - 0x80) * 4096 + (s[2] as int - 0x80) * 64
                        + (s[3] as int - 0x80)
    else 0
  }

  lemma Digits(a: int, b: int, d: int, e: int)
    requires 0 <= b < 64 && 0 <= d < 64 && 0 <= e < 64 && a >= 0
    ensures (a * 64 + b) / 64 == a && (a * 64 + b) % 64 == b
    ensures (a * 4096 + b * 64 + d) / 64 == a * 64 + b && (a * 4096 + b * 64 + d) % 64 == d
    ensures (a * 4096 + b * 64 + d) / 4096 == a
    ensures (a * 262144 + b * 4096 + d * 64 + e) / 64 == a * 4096 + b * 64 + d
    ensures (a * 262144 + b * 4096 + d * 64 + e) % 64 == e
    ensures (a * 262144 + b * 4096 + d * 64 + e) / 4096 == a * 64 + b
    ensures (a * 262144 + b * 4096 + d * 64 + e) / 262144 == a
  {
  }

  lemma BytesOfTwo(x: int, y: int)
    requires 2 <= x < 32 && 0 <= y < 64
    ensures Scalar(x * 64 + y) && Bytes(x * 64 + y) == [(0xC0 + x) as char, (0x80 + y) as char]
  {
    Digits(x, y, 0, 0);
  }

  lemma BytesOfThree(a: int, b: int, d: int)
    requires 0 <= a < 16 && 0 <= b < 64 && 0 <= d < 64 && (a == 0 ==> 32 <= b) && (a == 13 ==> b < 32)
    ensures Scalar(a * 4096 + b * 64 + d)
    ensures Bytes(a * 4096 + b * 64 + d) == [(0xE0 + a) as char, (0x80 + b) as char, (0x80 + d) as char]
  {
    Digits(a, b, d, 0);
    Digits(a, b, 0, 0);
  }

  lemma BytesOfFour(a: int, b: int, d: int, e: int)
    requires 0 <= a <= 4 && 0 <= b < 64 && 0 <= d < 64 && 0 <= e < 64 && (a == 0 ==> 16 <= b) && (a == 4 ==> b < 16)
    ensures Scalar(a * 262144 + b * 4096 + d * 64 + e)
    ensures Bytes(a * 262144 + b * 4096 + d * 64 + e)
            == [(0xF0 + a) as char, (0x80 + b) as char, (0x80 + d) as char, (0x80 + e) as char]
  {
    Digits(a, b, d, e);
    Digits(a, b, d, 0);
    Digits(a, b, 0, 0);
  }

  /** The bytes at the start of a well-formed sequence, as the digits they carry. */
  lemma WidthDigits(s: string)
    ensures Width(s) == 2 ==> 2 <= Code(s, 0) - 0xC0 < 32 && 0 <= Code(s, 1) - 0x80 < 64
    ensures Width(s) == 3 ==>
              var a, b, d := Code(s, 0) - 0xE0, Code(s, 1) - 0x80, Code(s, 2) - 0x80;
              0 <= a < 16 && 0 <= b < 64 && 0 <= d < 64 && (a == 0 ==> 32 <= b) && (a == 13 ==> b < 32)
    ensures Width(s) == 4 ==>
              var a, b, d, e := Code(s, 0) - 0xF0, Code(s, 1) - 0x80, Code(s, 2) - 0x80, Code(s, 3) - 0x80;
              0 <= a <= 4 && 0 <= b < 64 && 0 <= d < 64 && 0 <= e < 64 && (a == 0 ==> 16 <= b) && (a == 4 ==> b < 16)
    ensures Width(s) == 1 ==> 0 <= Code(s, 0) < 0x80
    ensures Width(s) <= 4
  {
  }

  lemma WidthSpells(s: string)
    requires Width(s) > 0
    ensures Scalar(Point(s, Width(s))) && Bytes(Point(s, Width(s))) == s[..Width(s)]
  {
    var w := Width(s);
    WidthDigits(s);
    if w == 2 {
      BytesOfTwo(s[0] as int - 0xC0, s[1] as int - 0x80);
    } else if w == 3 {
      BytesOfThree(s[0] as int - 0xE0, s[1] as int - 0x80, s[2] as int - 0x80);
    } else if w == 4 {
      BytesOfFour(s[0] as int - 0xF0, s[1] as int - 0x80, s[2] as int - 0x80, s[3] as int - 0x80);
    }
  }

  lemma Two(c: int)
    requires 0x80 <= c < 0x800
    ensures 2 <= c / 64 < 32
  {
  }

  lemma Three(c: int, a: int, b: int)
    requires 0x800 <= c < 0x10000 && Scalar(c) && a == c / 4096 && b == c / 64 % 64
    ensures 0 <= a < 16 && 0 <= b < 64 && (a == 0 ==> 32 <= b) && (a == 13 ==> b < 32)
  {
    assert c / 64 == a * 64 + b;
  }

  lemma Four(c: int, a: int, b: int)
    requires 0x10000 <= c <= 0x10FFFF && a == c / 262144 && b == c / 4096 % 64
    ensures 0 <= a <= 4 && 0 <= b < 64 && (a == 0 ==> 16 <= b) && (a == 4 ==> b < 16)
  {
    assert c / 4096 == a * 64 + b;
  }

  /** Only the first `n` bytes matter. */
  lemma WidthOfTwo(s: string, x: int, y: int)
    requires |s| >= 2 && s[0] as int == 0xC0 + x && s[1] as int == 0x80 + y && 2 <= x < 32 && 0 <= y < 64
    ensures Width(s) == 2
  {
  }

  lemma WidthOfThree(s: string, a: int, b: int, d: int)
    requires |s| >= 3 && s[0] as int == 0xE0 + a && s[1] as int == 0x80 + b && s[2] as int == 0x80 + d
    requires 0 <= a < 16 && 0 <= b < 64 && 0 <= d < 64 && (a == 0 ==> 32 <= b) && (a == 13 ==> b < 32)
    ensures Width(s) == 3
  {
  }

  lemma WidthOfFour(s: string, a: int, b: int, d: int, e: int)
    requires |s| >= 4 && s[0] as int == 0xF0 + a && s[1] as int == 0x80 + b && s[2] as int == 0x80 + d && s[3] as int == 0x80 + e
    requires 0 <= a <= 4 && 0 <= b < 64 && 0 <= d < 64 && 0 <= e < 64 && (a == 0 ==> 16 <= b) && (a == 4 ==> b < 16)
    ensures Width(s) == 4
  {
  }

  lemma SpelledHasWidth(c: int, rest: string)
    requires Scalar(c)
    ensures Width(Bytes(c) + rest) == |Bytes(c)|
  {
    var s := Bytes(c) + rest;
    if c < 0x80 {
      assert s[0] as int == c;
    } else if c < 0x800 {
      Two(c);
      WidthOfTwo(s, c / 64, c % 64);
    } else if c < 0x10000 {
      Three(c, c / 4096, c / 64 % 64);
      WidthOfThree(s, c / 4096, c / 64 % 64, c % 64);
    } else {
      Four(c, c / 262144, c / 4096 % 64);
      WidthOfFour(s, c / 262144, c / 4096 % 64, c / 64 % 64, c % 64);
    }
  }

  /** A text is well-formed if and only if it spells a sequence of scalar values. */
  lemma {:induction false} ValidSpells(s: string) returns (cs: seq<int>)
    requires Valid(s)
    ensures Scalars(cs) && Spelled(cs) == s
    decreases |s|
  {
    if s == "" {
      cs := [];
    } else {
      var w := Width(s);
      WidthSpells(s);
      var rest := ValidSpells(s[w..]);
      cs := [Point(s, w)] + rest;
      assert cs[1..] == rest && s == s[..w] + s[w..];
    }
  }

  lemma {:induction false} SpelledIsValid(cs: seq<int>)
    requires Scalars(cs)
    ensures Valid(Spelled(cs))
  {
    if cs == [] {
    } else {
      var b, rest := Bytes(cs[0]), Spelled(cs[1..]);
      SpelledIsValid(cs[1..]);
      SpelledHasWidth(cs[0], rest);
      assert (b + rest)[|b|..] == rest;
    }
  }

  lemma ValidExactly(s: string)
    ensures Valid(s) <==> exists cs :: Scalars(cs) && Spelled(cs) == s
  {
    if Valid(s) {
      var cs := ValidSpells(s);
    }
    if cs :| Scalars(cs) && Spelled(cs) == s {
      SpelledIsValid(cs);
    }
  }

  // ---- what the encoder makes of any text ----

  /** The text opens with the bytes of this scalar value. */
  ghost predicate Opens(s: string, c: int) {
    Scalar(c) && Bytes(c) <= s
  }

  /** The scalar values a reader finds: one for each that is spelled, U+FFFD for every byte that starts none. */
  ghost function Runes(s: string): (cs: seq<int>)
    ensures Scalars(cs)
  {
    if s == "" then []
    else if exists c :: Opens(s, c) then
      var c :| Opens(s, c);
      [c] + Runes(s[|Bytes(c)|..])
    else [0xFFFD] + Runes(s[1..])
  }

  lemma OpensWidth(s: string, c: int)
    requires Opens(s, c)
    ensures Width(s) == |Bytes(c)| && s[..Width(s)] == Bytes(c)
  {
    SpelledHasWidth(c, s[|Bytes(c)|..]);
    assert Bytes(c) + s[|Bytes(c)|..] == s;
  }

  lemma NoneOpens(s: string)
    requires s != "" && forall c :: !Opens(s, c)
    ensures Width(s) == 0
  {
    if Width(s) > 0 {
      WidthSpells(s);
      assert Opens(s, Point(s, Width(s)));
    }
  }

  lemma ReplacementIs()
    ensures Bytes(0xFFFD) == REPLACEMENT
  {
  }

  lemma SpelledFirst(c: int, cs: seq<int>)
    requires Scalar(c) && Scalars(cs)
    ensures Scalars([c] + cs) && Spelled([c] + cs) == Bytes(c) + Spelled(cs)
  {
    assert ([c] + cs)[1..] == cs;
  }

  /** A JSON encoder writes the scalar values a reader finds, so what reads back is well-formed whatever went in. */
  lemma {:induction false} FixSpellsRunes(s: string)
    ensures Fix(s) == Spelled(Runes(s)) && Valid(Fix(s))
    decreases |s|
  {
    if s == "" {
    } else if exists c :: Opens(s, c) {
      var c := Runes(s)[0];
      assert Opens(s, c);
      OpensWidth(s, c);
      FixSpellsRunes(s[|Bytes(c)|..]);
      SpelledFirst(c, Runes(s[|Bytes(c)|..]));
    } else {
      NoneOpens(s);
      FixSpellsRunes(s[1..]);
      ReplacementIs();
      SpelledFirst(0xFFFD, Runes(s[1..]));
    }
    SpelledIsValid(Runes(s));
  }

  /** JSON keeps exactly the well-formed strings. */
  lemma {:induction false} FixExactly(s: string)
    ensures Fix(s) == s <==> Valid(s)
    decreases |s|
  {
    if s == [] {
    } else {
      var w := Width(s);
      if w == 0 {
        NotReplacement(s, Fix(s[1..]));
      } else {
        FixExactly(s[w..]);
        assert s == s[..w] + s[w..];
        if Fix(s) == s {
          assert Fix(s)[w..] == Fix(s[w..]);
        }
      }
    }
  }

  /** The replacement is itself well-formed, so an ill-formed string never opens with it. */
  lemma NotReplacement(s: string, rest: string)
    requires Width(s) == 0
    ensures REPLACEMENT + rest != s
  {
    var t := REPLACEMENT + rest;
    assert Code(t, 0) == 0xEF && Code(t, 1) == 0xBF && Code(t, 2) == 0xBD;
    assert Width(t) == 3;
  }
}
