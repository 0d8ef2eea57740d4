/**
  The byte pre-filter of compaction: a body whose text shows no quoted prefix is
  passed on untouched.  Exactly when that loses a compaction.
 */
module CompactionFilter {
  import opened Wrappers
  import opened Compaction
  import opened CompactionLaws
  import opened CompactionText

  // ---- values as they are spelled ----

  datatype Raw = RawStr(t: string) | RawBare(s: string) | RawArr(items: RawItems) | RawObj(fields: RawFields)
  datatype RawItems = NoItem | RawItem(head: Raw, tail: RawItems)
  datatype RawFields = NoField | RawField(key: string, value: Raw, next: RawFields)

  function Tokens(r: Raw): seq<Token> {
    match r
    case RawStr(t) => [Quoted(t)]
    case RawBare(s) => [Bare(s)]
    case RawArr(items) => [Mark('[')] + ItemTokens(items, true)
    case RawObj(fields) => [Mark('{')] + FieldTokens(fields, true)
  }

  function Separator(first: bool): seq<Token> {
    if first then [] else [Mark(',')]
  }

  function ItemTokens(items: RawItems, first: bool): seq<Token> {
    match items
    case NoItem => [Mark(']')]
    case RawItem(r, more) => Separator(first) + (Tokens(r) + ItemTokens(more, false))
  }

  function FieldTokens(fields: RawFields, first: bool): seq<Token> {
    match fields
    case NoField => [Mark('}')]
    case RawField(k, v, more) => Separator(first) + ([Quoted(k), Mark(':')] + (Tokens(v) + FieldTokens(more, false)))
  }

  /** Bare values contain no quote. */
  predicate Proper(r: Raw) {
    match r
    case RawStr(_) => true
    case RawBare(s) => '\"' !in s
    case RawArr(items) => ProperItems(items)
    case RawObj(fields) => ProperFields(fields)
  }

  predicate ProperItems(items: RawItems) {
    items.RawItem? ==> Proper(items.head) && ProperItems(items.tail)
  }

  predicate ProperFields(fields: RawFields) {
    fields.RawField? ==> Proper(fields.value) && ProperFields(fields.next)
  }

  // ---- what the spelling means ----

  function HexDigit(c: char): int {
    if '0' <= c <= '9' then c as int - '0' as int
    else if 'a' <= c <= 'f' then c as int - 'a' as int + 10
    else if 'A' <= c <= 'F' then c as int - 'A' as int + 10
    else 0
  }

  function Escaped(c: char): char {
    match c
    case 'b' => 8 as char
    case 'f' => 12 as char
    case 'n' => '\n'
    case 'r' => '\r'
    case 't' => '\t'
    case _ => c
  }

  /** The code point of four hexadecimal digits; a lone surrogate reads as U+FFFD. */
  function CodePoint(t: string): char
    requires |t| == 4
  {
    var n := ((HexDigit(t[0]) * 16 + HexDigit(t[1])) * 16 + HexDigit(t[2])) * 16 + HexDigit(t[3]);
    if 0 <= n < 0xD800 || 0xE000 <= n < 0x10000 then n as char else 0xFFFD as char
  }

  function Unescape(t: string): string {
    if t == "" then ""
    else if t[0] != '\\' || |t| == 1 then [t[0]] + Unescape(t[1..])
    else if t[1] == 'u' && |t| >= 6 then [CodePoint(t[2..6])] + Unescape(t[6..])
    else [Escaped(t[1])] + Unescape(t[2..])
  }

  function Value(r: Raw): Json {
    match r
    case RawStr(t) => Str(Unescape(t))
    case RawBare(s) => if s == "null" then Null else if s == "true" || s == "false" then Bool(s == "true") else Num(s)
    case RawArr(items) => Arr(ItemValues(items))
    case RawObj(fields) => Obj(FieldValues(fields))
  }

  function ItemValues(items: RawItems): seq<Json> {
    match items
    case NoItem => []
    case RawItem(r, more) => [Value(r)] + ItemValues(more)
  }

  /** A later field overwrites an earlier one of the same name. */
  function FieldValues(fields: RawFields): map<string, Json> {
    match fields
    case NoField => map[]
    case RawField(k, v, more) => map[Unescape(k) := Value(v)] + FieldValues(more)
  }

  // ---- what a literal means ----

  /** A hexadecimal digit, in either case. */
  predicate HexOf(c: char, d: int) {
    if 0 <= d < 10 then c as int == '0' as int + d
    else 10 <= d < 16 && c as int in {'a' as int + d - 10, 'A' as int + d - 10}
  }

  predicate HexSpells(w: string, n: int, a: int, b: int, d: int, e: int) {
    && |w| == 6 && w[0] == '\\' && w[1] == 'u'
    && HexOf(w[2], a) && HexOf(w[3], b) && HexOf(w[4], d) && HexOf(w[5], e)
    && n == a * 4096 + b * 256 + d * 16 + e
  }

  /** The letters after a backslash (section 7 of RFC 8259) and what they stand for. */
  predicate ShortFor(e: char, c: char) {
    || (e == c && e in "\"\\/")
    || (e as int, c as int) in {('b' as int, 8), ('f' as int, 12), ('n' as int, 10), ('r' as int, 13), ('t' as int, 9)}
  }

  /** One way of writing a character in a literal: as itself, after a backslash, or by its code point. */
  ghost predicate Spells(w: string, c: char) {
    || (w == [c] && c != '\\')
    || (|w| == 2 && w[0] == '\\' && ShortFor(w[1], c))
    || ByCode(w, c as int)
  }

  ghost predicate ByCode(w: string, n: int) {
    exists a, b, d, e :: HexSpells(w, n, a, b, d, e)
  }

  lemma HexDigitReads(c: char, d: int)
    requires HexOf(c, d)
    ensures HexDigit(c) == d
  {
  }

  lemma CodePointReads(w: string, n: int, a: int, b: int, d: int, e: int)
    requires HexSpells(w, n, a, b, d, e)
    ensures CodePoint(w[2..6]) as int == if 0xD800 <= n < 0xE000 then 0xFFFD else n
  {
    HexDigitReads(w[2], a);
    HexDigitReads(w[3], b);
    HexDigitReads(w[4], d);
    HexDigitReads(w[5], e);
    var t := w[2..6];
    assert t[0] == w[2] && t[1] == w[3] && t[2] == w[4] && t[3] == w[5];
  }

  lemma ReadsCodePoint(w: string, rest: string)
    requires |w| == 6 && w[0] == '\\' && w[1] == 'u'
    ensures Unescape(w + rest) == [CodePoint(w[2..6])] + Unescape(rest)
  {
    assert (w + rest)[2..6] == w[2..6] && (w + rest)[6..] == rest;
  }

  lemma ReadsShort(w: string, c: char, rest: string)
    requires |w| == 2 && w[0] == '\\' && ShortFor(w[1], c)
    ensures Unescape(w + rest) == [c] + Unescape(rest)
  {
    assert (w + rest)[2..] == rest && (w + rest)[1] == w[1];
  }

  lemma ReadsItself(c: char, rest: string)
    requires c != '\\'
    ensures Unescape([c] + rest) == [c] + Unescape(rest)
  {
    assert ([c] + rest)[1..] == rest;
  }

  lemma ReadsFirst(w: string, c: char, rest: string)
    requires Spells(w, c)
    ensures Unescape(w + rest) == [c] + Unescape(rest)
  {
    if w == [c] && c != '\\' {
      ReadsItself(c, rest);
    } else if |w| == 2 && w[0] == '\\' && ShortFor(w[1], c) {
      ReadsShort(w, c, rest);
    } else {
      var n := c as int;
      var a, b, d, e :| HexSpells(w, n, a, b, d, e);
      CodePointReads(w, n, a, b, d, e);
      ReadsCodePoint(w, rest);
    }
  }

  function Pieces(ws: seq<string>): string {
    if ws == [] then "" else ws[0] + Pieces(ws[1..])
  }

  /** However each character of a text is written, the literal reads back as the text. */
  lemma {:induction false} LiteralReads(ws: seq<string>, cs: string)
    requires |ws| == |cs| && forall i :: 0 <= i < |cs| ==> Spells(ws[i], cs[i])
    ensures Unescape(Pieces(ws)) == cs
  {
    if ws == [] {
    } else {
      LiteralReads(ws[1..], cs[1..]);
      ReadsFirst(ws[0], cs[0], Pieces(ws[1..]));
      assert cs == [cs[0]] + cs[1..];
    }
  }

  /** The three bare words; every other bare token is a number. */
  lemma BareReads(s: string)
    ensures Value(RawBare("null")) == Null
    ensures Value(RawBare("true")) == Bool(true) && Value(RawBare("false")) == Bool(false)
    ensures Value(RawBare(s)).Num? || s in {"null", "true", "false"}
    ensures Value(RawBare(s)).Num? ==> Value(RawBare(s)) == Num(s)
  {
  }

  // ---- the tokens are apart ----

  lemma SpacedJoin(a: seq<Token>, b: seq<Token>)
    requires Spaced(a) && Spaced(b) && (a != [] && b != [] && !a[|a|-1].Mark? ==> b[0].Mark?)
    ensures Spaced(a + b)
  {
  }

  lemma {:induction false} TokensSpaced(r: Raw)
    requires Proper(r)
    ensures Spaced(Tokens(r)) && Tokens(r) != []
  {
    match r
    case RawStr(_) =>
    case RawBare(_) =>
    case RawArr(items) =>
      ItemsSpaced(items, true);
      SpacedJoin([Mark('[')], ItemTokens(items, true));
    case RawObj(fields) =>
      FieldsSpaced(fields, true);
      SpacedJoin([Mark('{')], FieldTokens(fields, true));
  }

  lemma {:induction false} ItemsSpaced(items: RawItems, first: bool)
    requires ProperItems(items)
    ensures Spaced(ItemTokens(items, first)) && ItemTokens(items, first) != []
    ensures !first || items.NoItem? ==> ItemTokens(items, first)[0].Mark?
  {
    match items
    case NoItem =>
    case RawItem(r, more) =>
      TokensSpaced(r);
      ItemsSpaced(more, false);
      SpacedJoin(Tokens(r), ItemTokens(more, false));
      SpacedJoin(Separator(first), Tokens(r) + ItemTokens(more, false));
  }

  lemma {:induction false} FieldsSpaced(fields: RawFields, first: bool)
    requires ProperFields(fields)
    ensures Spaced(FieldTokens(fields, first)) && FieldTokens(fields, first) != []
    ensures !first || fields.NoField? ==> FieldTokens(fields, first)[0].Mark?
  {
    match fields
    case NoField =>
    case RawField(k, v, more) =>
      TokensSpaced(v);
      FieldsSpaced(more, false);
      var rest := Tokens(v) + FieldTokens(more, false);
      SpacedJoin(Tokens(v), FieldTokens(more, false));
      SpacedJoin([Quoted(k), Mark(':')], rest);
      SpacedJoin(Separator(first), [Quoted(k), Mark(':')] + rest);
  }

  // ---- the filter ----

  /** The body as sent: its tokens with this white space. */
  predicate Sent(r: Raw, gaps: seq<string>) {
    Proper(r) && |gaps| == |Tokens(r)| + 1 && Blanks(gaps)
  }

  function Mentions(r: Raw, gaps: seq<string>, prefix: string): bool
    requires Sent(r, gaps)
  {
    Contains(Text(Tokens(r), gaps), Needle(prefix))
  }

  /** Some string of the body shows the prefix in its own spelling. */
  predicate Spelled(r: Raw, prefix: string) {
    exists k :: k in Tokens(r) && k.Quoted? && Shows(k.t, prefix)
  }

  /** The filter passes a body on for compaction exactly when some string in it shows the prefix as spelled. */
  lemma MentionsExactly(r: Raw, gaps: seq<string>, prefix: string)
    requires Sent(r, gaps) && Word(prefix)
    ensures Mentions(r, gaps, prefix) <==> Spelled(r, prefix)
  {
    TokensSpaced(r);
    TextShows(Tokens(r), gaps, prefix);
    if Spelled(r, prefix) {
      var k :| k in Tokens(r) && k.Quoted? && Shows(k.t, prefix);
      var i :| 0 <= i < |Tokens(r)| && Tokens(r)[i] == k;
    }
    if i :| 0 <= i < |Tokens(r)| && Tokens(r)[i].Quoted? && Shows(Tokens(r)[i].t, prefix) {
      assert Tokens(r)[i] in Tokens(r);
    }
  }

  /** The filter loses a compaction if and only if some aged call is to be stubbed and no string shows the prefix as spelled. */
  lemma FilterLosesExactly(r: Raw, gaps: seq<string>, window: int, prefix: string)
    requires Sent(r, gaps) && Word(prefix)
    ensures Compacted(Value(r), Mentions(r, gaps, prefix), window, prefix) != Compacted(Value(r), true, window, prefix)
            <==> Stubs(Value(r), window, prefix) && !Spelled(r, prefix)
  {
    MentionsExactly(r, gaps, prefix);
    StubsExactly(Value(r), window, prefix);
  }

  // ---- a name that a pass stubs is spelled somewhere in the body ----

  /** Every token of `v` is one of the body's. */
  ghost predicate Inside(v: Raw, toks: seq<Token>) {
    forall k :: k in Tokens(v) ==> k in toks
  }

  lemma {:induction false} FieldFrom(fields: RawFields, k: string, first: bool) returns (v: Raw)
    requires k in FieldValues(fields)
    ensures Value(v) == FieldValues(fields)[k] && Inside(v, FieldTokens(fields, first))
  {
    if k in FieldValues(fields.next) {
      v := FieldFrom(fields.next, k, false);
    } else {
      v := fields.value;
    }
  }

  lemma {:induction false} ItemFrom(items: RawItems, i: nat, first: bool) returns (v: Raw)
    requires i < |ItemValues(items)|
    ensures Value(v) == ItemValues(items)[i] && Inside(v, ItemTokens(items, first))
  {
    if i == 0 {
      v := items.head;
    } else {
      v := ItemFrom(items.tail, i - 1, false);
    }
  }

  lemma FieldOf(r: Raw, k: string, toks: seq<Token>) returns (v: Raw)
    requires Inside(r, toks) && Value(r).Obj? && k in Value(r).fields
    ensures Value(v) == Value(r).fields[k] && Inside(v, toks)
  {
    v := FieldFrom(r.fields, k, true);
  }

  lemma ItemOf(r: Raw, i: nat, toks: seq<Token>) returns (v: Raw)
    requires Inside(r, toks) && Value(r).Arr? && i < |Value(r).items|
    ensures Value(v) == Value(r).items[i] && Inside(v, toks)
  {
    v := ItemFrom(r.items, i, true);
  }

  /** A message and a call in it that the pass stubs. */
  lemma SomeStubbed(body: Json, window: int, prefix: string) returns (m: nat, c: nat)
    requires Stubs(body, window, prefix)
    ensures body.Obj? && "messages" in body.fields && body.fields["messages"].Arr?
    ensures m < |body.fields["messages"].items|
    ensures var msg := body.fields["messages"].items[m];
            && msg.Obj? && "tool_calls" in msg.fields && msg.fields["tool_calls"].Arr?
            && c < |msg.fields["tool_calls"].items| && Wanted(msg.fields["tool_calls"].items[c], prefix)
  {
    var msgs := MessagesOf(body).value;
    var aged := AgedCalls(Total(msgs), window);
    m :| 0 <= m < |msgs| && RewritesAt(msgs, aged, prefix, m);
    c :| 0 <= c < |CallsOf(msgs[m])| && Wanted(CallsOf(msgs[m])[c], prefix);
  }

  lemma NameSpelled(r: Raw, window: int, prefix: string) returns (t: string)
    requires Stubs(Value(r), window, prefix)
    ensures Quoted(t) in Tokens(r) && prefix <= Unescape(t)
  {
    var m, c := SomeStubbed(Value(r), window, prefix);
    var toks := Tokens(r);
    var messages := FieldOf(r, "messages", toks);
    var msg := ItemOf(messages, m, toks);
    var calls := FieldOf(msg, "tool_calls", toks);
    var call := ItemOf(calls, c, toks);
    t := NameOf(call, toks, prefix);
  }

  lemma NameOf(call: Raw, toks: seq<Token>, prefix: string) returns (t: string)
    requires prefix != "" && Inside(call, toks) && Wanted(Value(call), prefix)
    ensures Quoted(t) in toks && prefix <= Unescape(t)
  {
    WantedShape(Value(call), prefix);
    var fn := FieldOf(call, "function", toks);
    var name := FieldOf(fn, "name", toks);
    t := name.t;
    assert Quoted(t) in Tokens(name);
  }

  /** No string hides the prefix behind an escape. */
  ghost predicate PlainPrefixes(r: Raw, prefix: string) {
    forall t :: Quoted(t) in Tokens(r) && prefix <= Unescape(t) ==> prefix <= t
  }

  /** Where the prefix is never spelled with escapes, the filter changes nothing. */
  lemma PlainPrefixesLoseNothing(r: Raw, gaps: seq<string>, window: int, prefix: string)
    requires Sent(r, gaps) && Word(prefix) && PlainPrefixes(r, prefix)
    ensures Compacted(Value(r), Mentions(r, gaps, prefix), window, prefix) == Compacted(Value(r), true, window, prefix)
  {
    FilterLosesExactly(r, gaps, window, prefix);
    if Stubs(Value(r), window, prefix) {
      var t := NameSpelled(r, window, prefix);
      assert Shows(Quoted(t).t, prefix);
    }
  }

  /** The router on the text of a body: the filter, then the pass. */
  method CompactText(r: Raw, gaps: seq<string>, window: int, prefix: string) returns (out: Json, stubbed: nat)
    requires Sent(r, gaps)
    ensures (out, stubbed) == Compacted(Value(r), Mentions(r, gaps, prefix), window, prefix)
    ensures stubbed == 0 ==> out == Value(r)
    ensures Word(prefix) ==> (stubbed > 0 <==> Stubs(Value(r), window, prefix) && Spelled(r, prefix))
    ensures Word(prefix) && PlainPrefixes(r, prefix) ==> (out, stubbed) == Compacted(Value(r), true, window, prefix)
  {
    var changed;
    out, stubbed, changed := Compact(Value(r), Mentions(r, gaps, prefix), window, prefix);
    if Word(prefix) {
      MentionsExactly(r, gaps, prefix);
      StubsExactly(Value(r), window, prefix);
    }
    ghost var plain := Word(prefix) && PlainPrefixes(r, prefix);
    if plain {
      PlainPrefixesLoseNothing(r, gaps, window, prefix);
    }
  }

  lemma {:induction false} NoEscapes(t: string)
    requires '\\' !in t
    ensures Unescape(t) == t
  {
    if t == "" {
    } else {
      assert t[0] in t;
      forall i | 0 <= i < |t[1..]| ensures t[1..][i] != '\\' {
        assert t[1..][i] == t[i+1];
      }
      NoEscapes(t[1..]);
    }
  }

  // ---- a name the filter misses ----

  function HexChar(n: int): char
    requires 0 <= n < 16
  {
    if n < 10 then ('0' as int + n) as char else ('a' as int + n - 10) as char
  }

  /** The word with its first letter as a \u escape. */
  function FirstEscaped(w: string): string
    requires Word(w)
  {
    var n := w[0] as int;
    ['\\', 'u', '0', '0', HexChar(n / 16), HexChar(n % 16)] + w[1..]
  }

  lemma EscapeMeans(w: string)
    requires Word(w)
    ensures Unescape(FirstEscaped(w)) == w && !Shows(FirstEscaped(w), w)
  {
    var t := FirstEscaped(w);
    var n := w[0] as int;
    assert t[2..6] == ['0', '0', HexChar(n / 16), HexChar(n % 16)] && t[6..] == w[1..];
    assert CodePoint(t[2..6]) == w[0];
    assert '\\' !in w[1..];
    NoEscapes(w[1..]);
    assert w == [w[0]] + w[1..];
    assert t[0] == '\\' && !(w <= t);
    assert '\"' !in t;
    forall p | 0 <= p <= |t| ensures !(Needle(w) <= t[p..]) {
      assert Needle(w)[0] == '\"';
    }
  }

  function One(key: string, value: Raw): Raw {
    RawObj(RawField(key, value, NoField))
  }

  /** A body with one call, whose name is spelled `t`. */
  function OneCall(t: string): Raw {
    One("messages", RawArr(RawItem(One("tool_calls", RawArr(RawItem(One("function", One("name", RawStr(t))), NoItem))), NoItem)))
  }

  lemma OneValue(key: string, v: Raw)
    requires '\\' !in key
    ensures Value(One(key, v)) == Obj(map[key := Value(v)])
  {
    NoEscapes(key);
    assert FieldValues(RawField(key, v, NoField)) == map[key := Value(v)];
  }

  lemma SingleValue(v: Raw)
    ensures Value(RawArr(RawItem(v, NoItem))) == Arr([Value(v)])
  {
    assert ItemValues(RawItem(v, NoItem)) == [Value(v)] + [];
  }

  /** The call a name makes, and the body around it, as values. */
  lemma OneCallValue(t: string)
    ensures Value(OneCall(t)) == Obj(map["messages" := Arr([Obj(map["tool_calls" := Arr([NamedCall(Unescape(t))])])])])
  {
    var call := One("function", One("name", RawStr(t)));
    CallValue(t);
    SingleValue(call);
    var msg := One("tool_calls", RawArr(RawItem(call, NoItem)));
    OneValue("tool_calls", RawArr(RawItem(call, NoItem)));
    SingleValue(msg);
    OneValue("messages", RawArr(RawItem(msg, NoItem)));
  }

  lemma CallValue(t: string)
    ensures Value(One("function", One("name", RawStr(t)))) == NamedCall(Unescape(t))
  {
    OneValue("name", RawStr(t));
    OneValue("function", One("name", RawStr(t)));
  }

  function NamedCall(name: string): Json {
    Obj(map["function" := Obj(map["name" := Str(name)])])
  }

  lemma OneTokens(key: string, v: Raw, k: Token)
    requires k in Tokens(One(key, v))
    ensures k.Mark? || k == Quoted(key) || k in Tokens(v)
  {
    var fields := RawField(key, v, NoField);
    assert FieldTokens(NoField, false) == [Mark('}')];
    assert FieldTokens(fields, true) == [] + ([Quoted(key), Mark(':')] + (Tokens(v) + [Mark('}')]));
    assert Tokens(One(key, v)) == [Mark('{')] + FieldTokens(fields, true);
  }

  lemma SingleTokens(v: Raw, k: Token)
    requires k in Tokens(RawArr(RawItem(v, NoItem)))
    ensures k.Mark? || k in Tokens(v)
  {
    var items := RawItem(v, NoItem);
    assert ItemTokens(NoItem, false) == [Mark(']')];
    assert ItemTokens(items, true) == [] + (Tokens(v) + [Mark(']')]);
    assert Tokens(RawArr(items)) == [Mark('[')] + ItemTokens(items, true);
  }

  lemma QuietField(key: string, v: Raw, prefix: string)
    requires !Shows(key, prefix) && !Spelled(v, prefix)
    ensures !Spelled(One(key, v), prefix)
  {
    forall k | k in Tokens(One(key, v)) && k.Quoted? ensures !Shows(k.t, prefix) {
      OneTokens(key, v, k);
    }
  }

  lemma QuietItem(v: Raw, prefix: string)
    requires !Spelled(v, prefix)
    ensures !Spelled(RawArr(RawItem(v, NoItem)), prefix)
  {
    forall k | k in Tokens(RawArr(RawItem(v, NoItem))) && k.Quoted? ensures !Shows(k.t, prefix) {
      SingleTokens(v, k);
    }
  }

  lemma QuietKey(key: string, prefix: string)
    requires '\"' !in key && !(prefix <= key)
    ensures !Shows(key, prefix)
  {
    forall p | 0 <= p <= |key| ensures !(Needle(prefix) <= key[p..]) {
      assert Needle(prefix)[0] == '\"';
    }
  }

  /** None of the body's own keys opens with the prefix. */
  predicate Foreign(prefix: string) {
    !(prefix <= "messages") && !(prefix <= "tool_calls") && !(prefix <= "function") && !(prefix <= "name")
  }

  lemma OneCallQuiet(t: string, prefix: string)
    requires Foreign(prefix) && !Shows(t, prefix)
    ensures !Spelled(OneCall(t), prefix)
  {
    QuietKey("name", prefix);
    QuietField("name", RawStr(t), prefix);
    QuietKey("function", prefix);
    var call := One("function", One("name", RawStr(t)));
    QuietField("function", One("name", RawStr(t)), prefix);
    QuietItem(call, prefix);
    QuietKey("tool_calls", prefix);
    var msg := One("tool_calls", RawArr(RawItem(call, NoItem)));
    QuietField("tool_calls", RawArr(RawItem(call, NoItem)), prefix);
    QuietItem(msg, prefix);
    QuietKey("messages", prefix);
    QuietField("messages", RawArr(RawItem(msg, NoItem)), prefix);
  }

  lemma OneCallCounts(name: string, prefix: string)
    requires prefix != "" && prefix <= name
    ensures var msg := Obj(map["tool_calls" := Arr([NamedCall(name)])]);
            Total([msg]) == 1 && StubCount([msg], 1, prefix) == 1
  {
    var call := NamedCall(name);
    var msg := Obj(map["tool_calls" := Arr([call])]);
    assert ToolCallsOf(msg) == Some([call]) && CallCount(msg) == 1;
    assert Before([msg], 0) == 0 && Before([msg], 1) == 1;
    assert Wanted(call, prefix) && !Stubbed(call) && AsObj(call).Some?;
    assert [call][..0] == [];
    assert FreshCount([call], 1, prefix) == 1 && !Malformed([call], 1);
    assert Counted(Counter(prefix), [msg], 1, 0) == 0;
    assert Counter(prefix)(msg, 1) == 1;
  }

  lemma OneCallStubs(body: Json, name: string, prefix: string)
    requires prefix != "" && prefix <= name
    requires body == Obj(map["messages" := Arr([Obj(map["tool_calls" := Arr([NamedCall(name)])])])])
    ensures Compacted(body, true, 0, prefix).1 == 1
  {
    OneCallCounts(name, prefix);
    assert MessagesOf(body) == Some([Obj(map["tool_calls" := Arr([NamedCall(name)])])]);
  }

  /** For every such prefix, a body whose one name is spelled with an escape: the pass would stub its call, and the filter skips it. */
  lemma EscapedNameIsLost(gaps: seq<string>, prefix: string)
    requires Word(prefix) && Foreign(prefix) && Sent(OneCall(FirstEscaped(prefix)), gaps)
    ensures var body := Value(OneCall(FirstEscaped(prefix)));
            && Compacted(body, true, 0, prefix).1 == 1
            && !Mentions(OneCall(FirstEscaped(prefix)), gaps, prefix)
  {
    var t := FirstEscaped(prefix);
    EscapeMeans(prefix);
    OneCallValue(t);
    OneCallStubs(Value(OneCall(t)), prefix, prefix);
    OneCallQuiet(t, prefix);
    MentionsExactly(OneCall(t), gaps, prefix);
  }
}
