/**
  The text of a request body: JSON values as they are spelled, with any white
  space between tokens, and what the byte pre-filter finds in that text.
 */
module CompactionText {
  import opened Wrappers
  import opened Compaction

  // ---- tokens and their text ----

  datatype Token =
    | Mark(c: char)         // one of { } [ ] : ,
    | Quoted(t: string)     // a string as spelled between its quotes
    | Bare(s: string)       // a number, true, false or null

  const QUOTE: string := ['\"']

  predicate Blank(gap: string) {
    forall i :: 0 <= i < |gap| ==> gap[i] in " \t\n\r"
  }

  function Spell(k: Token): string {
    match k
    case Mark(c) => [c]
    case Quoted(t) => QUOTE + t + QUOTE
    case Bare(s) => s
  }

  predicate Legal(k: Token) {
    match k
    case Mark(c) => c in "{}[]:,"
    case Quoted(_) => true
    case Bare(s) => '\"' !in s
  }

  /** A text with these tokens; `gaps` is the white space before each of them and at the end. */
  function Text(toks: seq<Token>, gaps: seq<string>): string
    requires |gaps| == |toks| + 1
  {
    if toks == [] then gaps[0] else gaps[0] + (Spell(toks[0]) + Text(toks[1..], gaps[1..]))
  }

  /** A string or a bare value is followed by punctuation or by nothing. */
  predicate Spaced(toks: seq<Token>) {
    && (forall i :: 0 <= i < |toks| ==> Legal(toks[i]))
    && (forall i :: 0 <= i < |toks| - 1 && !toks[i].Mark? ==> toks[i+1].Mark?)
  }

  predicate Blanks(gaps: seq<string>) {
    forall i :: 0 <= i < |gaps| ==> Blank(gaps[i])
  }

  // ---- searching the text ----

  predicate Contains(text: string, pattern: string) {
    exists p :: 0 <= p <= |text| && pattern <= text[p..]
  }

  predicate WordChar(c: char) {
    'a' <= c <= 'z' || 'A' <= c <= 'Z' || '0' <= c <= '9' || c == '_'
  }

  /** Prefixes of tool names: letters, digits and underscores. */
  predicate Word(prefix: string) {
    prefix != "" && forall i :: 0 <= i < |prefix| ==> WordChar(prefix[i])
  }

  /** The pattern starts in `a` when `b` follows it. */
  predicate StartsIn(a: string, b: string, pattern: string) {
    exists p :: 0 <= p < |a| && pattern <= a[p..] + b
  }

  lemma ContainsLater(a: string, b: string, pattern: string)
    requires StartsIn(a, b, pattern) || Contains(b, pattern)
    ensures Contains(a + b, pattern)
  {
    if StartsIn(a, b, pattern) {
      var p :| 0 <= p < |a| && pattern <= a[p..] + b;
      assert (a + b)[p..] == a[p..] + b;
    } else {
      var p :| 0 <= p <= |b| && pattern <= b[p..];
      assert (a + b)[p+|a|..] == b[p..];
    }
  }

  lemma ContainsSplits(a: string, b: string, pattern: string)
    ensures Contains(a + b, pattern) <==> StartsIn(a, b, pattern) || Contains(b, pattern)
  {
    if StartsIn(a, b, pattern) || Contains(b, pattern) {
      ContainsLater(a, b, pattern);
    } else if Contains(a + b, pattern) {
      var p :| 0 <= p <= |a + b| && pattern <= (a + b)[p..];
      FoundIn(a, b, pattern, p);
    }
  }

  lemma FoundIn(a: string, b: string, pattern: string, p: nat)
    requires p <= |a + b| && pattern <= (a + b)[p..]
    ensures StartsIn(a, b, pattern) || Contains(b, pattern)
  {
    if p < |a| {
      assert (a + b)[p..] == a[p..] + b;
    } else {
      assert (a + b)[p..] == b[p-|a|..];
    }
  }

  /** What the pre-filter looks for. */
  function Needle(prefix: string): string {
    QUOTE + prefix
  }

  lemma NoQuoteNoStart(a: string, b: string, prefix: string)
    requires '\"' !in a
    ensures !StartsIn(a, b, Needle(prefix))
  {
    forall p | 0 <= p < |a| ensures !(Needle(prefix) <= a[p..] + b) {
      assert (a[p..] + b)[0] == a[p] && Needle(prefix)[0] == '\"';
    }
  }

  /** The prefix, right behind a quote, is found only in front of the next quote. */
  lemma WordStaysInside(prefix: string, t: string, b: string)
    requires Word(prefix)
    ensures prefix <= t + (QUOTE + b) <==> prefix <= t
  {
    var s := t + (QUOTE + b);
    assert s[|t|] == '\"';
    assert |prefix| <= |t| ==> s[..|prefix|] == t[..|prefix|];
  }

  /** The text behind a string opens with no letter of a word. */
  predicate Apart(b: string) {
    b == "" || !WordChar(b[0])
  }

  lemma QuotedAt(t: string, b: string, prefix: string, p: nat)
    requires Word(prefix) && Apart(b) && p < |t| + 2
    ensures Needle(prefix) <= (QUOTE + t + QUOTE)[p..] + b <==>
              if p == 0 then prefix <= t
              else if p <= |t| then t[p-1] == '\"' && prefix <= t[p..]
              else false
  {
    var a := QUOTE + t + QUOTE;
    if p == 0 {
      assert a[0..] + b == QUOTE + (t + (QUOTE + b));
      NeedleBehind(prefix, t + (QUOTE + b));
      WordStaysInside(prefix, t, b);
    } else if p <= |t| {
      assert a[p..] + b == [t[p-1]] + (t[p..] + (QUOTE + b));
      if t[p-1] == '\"' {
        NeedleBehind(prefix, t[p..] + (QUOTE + b));
      } else {
        assert Needle(prefix)[0] == '\"';
      }
      WordStaysInside(prefix, t[p..], b);
    } else {
      assert a[p..] + b == QUOTE + b;
      NeedleBehind(prefix, b);
    }
  }

  lemma NeedleBehind(prefix: string, s: string)
    ensures Needle(prefix) <= QUOTE + s <==> prefix <= s
  {
    var n := Needle(prefix);
    assert n[1..] == prefix && (QUOTE + s)[1..] == s;
    if prefix <= s {
      assert QUOTE + s == n + s[|prefix|..];
    }
  }

  /** A spelled string shows the pattern: at its start, or behind a quote it contains. */
  predicate Shows(t: string, prefix: string) {
    prefix <= t || Contains(t, Needle(prefix))
  }

  lemma QuotedShows(t: string, b: string, prefix: string)
    requires Word(prefix) && Apart(b)
    ensures StartsIn(Spell(Quoted(t)), b, Needle(prefix)) <==> Shows(t, prefix)
  {
    if StartsIn(Spell(Quoted(t)), b, Needle(prefix)) {
      StartShows(t, b, prefix);
    }
    if Shows(t, prefix) {
      ShowsStart(t, b, prefix);
    }
  }

  lemma StartShows(t: string, b: string, prefix: string)
    requires Word(prefix) && Apart(b) && StartsIn(Spell(Quoted(t)), b, Needle(prefix))
    ensures Shows(t, prefix)
  {
    var p :| 0 <= p < |Spell(Quoted(t))| && Needle(prefix) <= Spell(Quoted(t))[p..] + b;
    QuotedAt(t, b, prefix, p);
    if p > 0 {
      assert t[p-1..] == QUOTE + t[p..];
      NeedleBehind(prefix, t[p..]);
    }
  }

  lemma ShowsStart(t: string, b: string, prefix: string)
    requires Word(prefix) && Apart(b) && Shows(t, prefix)
    ensures StartsIn(Spell(Quoted(t)), b, Needle(prefix))
  {
    if prefix <= t {
      QuotedAt(t, b, prefix, 0);
    } else {
      var p :| 0 <= p <= |t| && Needle(prefix) <= t[p..];
      assert t[p] == Needle(prefix)[0] == '\"';
      assert t[p..] == QUOTE + t[p+1..];
      NeedleBehind(prefix, t[p+1..]);
      QuotedAt(t, b, prefix, p + 1);
    }
  }

  lemma BehindString(toks: seq<Token>, gaps: seq<string>)
    requires |gaps| == |toks| + 1 && Blanks(gaps) && (toks != [] ==> toks[0].Mark? && Legal(toks[0]))
    ensures Apart(Text(toks, gaps))
  {
    if gaps[0] != "" {
      assert Text(toks, gaps)[0] == gaps[0][0];
    } else if toks != [] {
      assert Text(toks, gaps)[0] == toks[0].c;
    }
  }

  lemma {:induction false} TextShows(toks: seq<Token>, gaps: seq<string>, prefix: string)
    requires |gaps| == |toks| + 1 && Blanks(gaps) && Spaced(toks) && Word(prefix)
    ensures Contains(Text(toks, gaps), Needle(prefix)) <==>
              exists i :: 0 <= i < |toks| && toks[i].Quoted? && Shows(toks[i].t, prefix)
  {
    assert '\"' !in gaps[0] by { assert Blank(gaps[0]); }
    if toks == [] {
      NoQuoteNoStart(gaps[0], "", prefix);
      ContainsSplits(gaps[0], "", Needle(prefix));
      assert gaps[0] + "" == gaps[0];
      assert !Contains("", Needle(prefix));
    } else {
      var rest := Text(toks[1..], gaps[1..]);
      var piece := Spell(toks[0]);
      TextShows(toks[1..], gaps[1..], prefix);
      NoQuoteNoStart(gaps[0], piece + rest, prefix);
      ContainsSplits(gaps[0], piece + rest, Needle(prefix));
      ContainsSplits(piece, rest, Needle(prefix));
      FirstShows(toks, gaps, prefix);
    }
  }

  lemma FirstShows(toks: seq<Token>, gaps: seq<string>, prefix: string)
    requires |gaps| == |toks| + 1 && Blanks(gaps) && Spaced(toks) && Word(prefix) && toks != []
    ensures StartsIn(Spell(toks[0]), Text(toks[1..], gaps[1..]), Needle(prefix)) <==>
              toks[0].Quoted? && Shows(toks[0].t, prefix)
  {
    if toks[0].Quoted? {
      BehindString(toks[1..], gaps[1..]);
      QuotedShows(toks[0].t, Text(toks[1..], gaps[1..]), prefix);
    } else {
      assert Legal(toks[0]);
      NoQuoteNoStart(Spell(toks[0]), Text(toks[1..], gaps[1..]), prefix);
    }
  }
}
