/**
  The duplicate-key walk over one JSON document.  The decoder is the standard
  library's token state machine over lexemes; strings and scalars are single
  lexemes with their escapes already resolved.
 */
module JsonWalk {
  import opened Wrappers

  datatype Lexeme =
    | LBrace | RBrace | LBracket | RBracket | Colon | Comma
    | Str(text: string)
    | Lit(value: string)   // a number, true, false or null
    | Bad                  // anything the scanner refuses

  datatype State = Top | ArrayStart | ArrayValue | ArrayComma
                 | ObjectStart | ObjectKey | ObjectColon | ObjectValue | ObjectComma

  datatype Dec = Dec(rest: seq<Lexeme>, state: State, stack: seq<State>)

  datatype Error = EOF | Syntax | Duplicate(key: string) | Trailing | NotObject

  predicate ValueAllowed(s: State) {
    s == Top || s == ArrayStart || s == ArrayValue || s == ObjectValue
  }

  function ValueEnd(s: State): State {
    match s
    case ArrayStart => ArrayComma
    case ArrayValue => ArrayComma
    case ObjectValue => ObjectComma
    case _ => s
  }

  /** Leaves the innermost container; the decoder opened one whenever it is in a container state. */
  function Pop(d: Dec): Dec {
    if d.stack == [] then d
    else Dec(d.rest, ValueEnd(d.stack[|d.stack|-1]), d.stack[..|d.stack|-1])
  }

  /** The decoder's next token, separators consumed on the way. */
  function Token(d: Dec): (r: Result<(Lexeme, Dec), Error>)
    ensures r.Ok? ==> |r.value.1.rest| < |d.rest|
    decreases |d.rest|
  {
    if d.rest == [] then Err(EOF)
    else
      var l, after := d.rest[0], d.(rest := d.rest[1..]);
      match l
      case LBracket =>
        if ValueAllowed(d.state) then Ok((l, Dec(after.rest, ArrayStart, d.stack + [d.state]))) else Err(Syntax)
      case LBrace =>
        if ValueAllowed(d.state) then Ok((l, Dec(after.rest, ObjectStart, d.stack + [d.state]))) else Err(Syntax)
      case RBracket =>
        if d.state == ArrayStart || d.state == ArrayComma then Ok((l, Pop(after))) else Err(Syntax)
      case RBrace =>
        if d.state == ObjectStart || d.state == ObjectComma then Ok((l, Pop(after))) else Err(Syntax)
      case Colon =>
        if d.state == ObjectColon then Token(after.(state := ObjectValue)) else Err(Syntax)
      case Comma =>
        if d.state == ArrayComma then Token(after.(state := ArrayValue))
        else if d.state == ObjectComma then Token(after.(state := ObjectKey))
        else Err(Syntax)
      case Str(_) =>
        if d.state == ObjectStart || d.state == ObjectKey then Ok((l, after.(state := ObjectColon)))
        else if ValueAllowed(d.state) then Ok((l, after.(state := ValueEnd(d.state))))
        else Err(Syntax)
      case Lit(_) =>
        if ValueAllowed(d.state) then Ok((l, after.(state := ValueEnd(d.state)))) else Err(Syntax)
      case Bad => Err(Syntax)
  }

  predicate More(d: Dec) {
    d.rest != [] && d.rest[0] != RBracket && d.rest[0] != RBrace
  }

  /** The key a token stands for: a non-string reads as the empty key. */
  function KeyOf(l: Lexeme): string {
    if l.Str? then l.text else ""
  }

  function Walk(d: Dec): (r: Result<Dec, Error>)
    ensures r.Ok? ==> |r.value.rest| < |d.rest|
    decreases |d.rest|, 0
  {
    match Token(d)
    case Err(e) => Err(e)
    case Ok((l, next)) =>
      match l
      case LBrace => Members(next, {})
      case LBracket => Elements(next)
      case _ => Ok(next)
  }

  function Members(d: Dec, seen: set<string>): (r: Result<Dec, Error>)
    ensures r.Ok? ==> |r.value.rest| < |d.rest|
    decreases |d.rest|, 1
  {
    if !More(d) then
      match Token(d)
      case Err(e) => Err(e)
      case Ok((_, next)) => Ok(next)
    else
      match Token(d)
      case Err(e) => Err(e)
      case Ok((l, next)) =>
        if KeyOf(l) in seen then Err(Duplicate(KeyOf(l)))
        else
          match Walk(next)
          case Err(e) => Err(e)
          case Ok(after) => Members(after, seen + {KeyOf(l)})
  }

  function Elements(d: Dec): (r: Result<Dec, Error>)
    ensures r.Ok? ==> |r.value.rest| < |d.rest|
    decreases |d.rest|, 1
  {
    if !More(d) then
      match Token(d)
      case Err(e) => Err(e)
      case Ok((_, next)) => Ok(next)
    else
      match Walk(d)
      case Err(e) => Err(e)
      case Ok(next) => Elements(next)
  }

  /** The whole check: one document, nothing after it. */
  function Refusal(data: seq<Lexeme>): Option<Error> {
    match Walk(Dec(data, Top, []))
    case Err(e) => Some(e)
    case Ok(d) =>
      match Token(d)
      case Err(EOF) => None
      case _ => Some(Trailing)
  }

  // ---- documents ----

  datatype Tree = Leaf(lexeme: Lexeme) | Arr(items: Items) | Obj(fields: Fields)
  datatype Items = Nil | Item(head: Tree, tail: Items)
  datatype Fields = End | Field(key: string, value: Tree, next: Fields)

  predicate Proper(t: Tree) {
    match t
    case Leaf(l) => l.Str? || l.Lit?
    case Arr(items) => ProperItems(items)
    case Obj(fields) => ProperFields(fields)
  }

  predicate ProperItems(items: Items) {
    items.Item? ==> Proper(items.head) && ProperItems(items.tail)
  }

  predicate ProperFields(fields: Fields) {
    fields.Field? ==> Proper(fields.value) && ProperFields(fields.next)
  }

  function Print(t: Tree): seq<Lexeme> {
    match t
    case Leaf(l) => [l]
    case Arr(items) => [LBracket] + PrintItems(items, true)
    case Obj(fields) => [LBrace] + PrintFields(fields, true)
  }

  function Separator(first: bool): seq<Lexeme> {
    if first then [] else [Comma]
  }

  function PrintItems(items: Items, first: bool): seq<Lexeme> {
    match items
    case Nil => [RBracket]
    case Item(t, more) => Separator(first) + (Print(t) + PrintItems(more, false))
  }

  function PrintFields(fields: Fields, first: bool): seq<Lexeme> {
    match fields
    case End => [RBrace]
    case Field(k, v, more) => Separator(first) + ([Str(k), Colon] + (Print(v) + PrintFields(more, false)))
  }

  /** No object at any depth names a key twice. */
  predicate Distinct(t: Tree) {
    match t
    case Leaf(_) => true
    case Arr(items) => DistinctItems(items)
    case Obj(fields) => DistinctFields(fields, {})
  }

  predicate DistinctItems(items: Items) {
    items.Item? ==> Distinct(items.head) && DistinctItems(items.tail)
  }

  predicate DistinctFields(fields: Fields, seen: set<string>) {
    fields.Field? ==>
      fields.key !in seen && Distinct(fields.value) && DistinctFields(fields.next, seen + {fields.key})
  }

  // ---- every document is walked to its end, or to its first repeated key ----

  /** The walk's outcome over a printed value. */
  ghost predicate Ends(r: Result<Dec, Error>, distinct: bool, d: Dec) {
    if distinct then r == Ok(d) else r.Err? && r.error.Duplicate?
  }

  /** A leading separator only moves the decoder to the state that wants a value. */
  lemma SkipSeparator(d: Dec, l: Lexeme, s: State, wants: State)
    requires (l, s, wants) in [(Comma, ArrayComma, ArrayValue), (Colon, ObjectColon, ObjectValue), (Comma, ObjectComma, ObjectKey)]
    ensures Token(Dec([l] + d.rest, s, d.stack)) == Token(Dec(d.rest, wants, d.stack))
  {
    assert ([l] + d.rest)[1..] == d.rest;
  }

  lemma {:induction false} WalkPrinted(t: Tree, rest: seq<Lexeme>, s: State, stack: seq<State>)
    requires Proper(t) && ValueAllowed(s)
    ensures Ends(Walk(Dec(Print(t) + rest, s, stack)), Distinct(t), Dec(rest, ValueEnd(s), stack))
    decreases t
  {
    match t
    case Leaf(l) =>
      assert ([l] + rest)[1..] == rest;
    case Arr(items) =>
      var body := PrintItems(items, true) + rest;
      assert Print(t) + rest == [LBracket] + body && ([LBracket] + body)[1..] == body;
      ElementsPrinted(items, true, rest, s, stack);
    case Obj(fields) =>
      var body := PrintFields(fields, true) + rest;
      assert Print(t) + rest == [LBrace] + body && ([LBrace] + body)[1..] == body;
      MembersPrinted(fields, true, {}, rest, s, stack);
  }

  function AtItem(first: bool): State {
    if first then ArrayStart else ArrayComma
  }

  function AtField(first: bool): State {
    if first then ObjectStart else ObjectComma
  }

  /** Printed values open with a lexeme that is neither a closer nor a separator. */
  lemma PrintOpens(t: Tree)
    requires Proper(t)
    ensures Print(t) != [] && Print(t)[0] !in [RBrace, RBracket, Comma, Colon, Bad]
  {
  }

  /** An element's walk starts past the comma, if there is one. */
  lemma ItemOpens(value: seq<Lexeme>, first: bool, stack: seq<State>)
    requires value != [] && value[0] != RBracket && value[0] != RBrace
    ensures var here := Dec(Separator(first) + value, AtItem(first), stack);
            More(here) && Walk(here) == Walk(Dec(value, if first then ArrayStart else ArrayValue, stack))
  {
    var d := Dec(value, if first then ArrayStart else ArrayValue, stack);
    if first {
      assert Separator(first) + value == value;
    } else {
      SkipSeparator(d, Comma, ArrayComma, ArrayValue);
    }
  }

  lemma {:induction false} ElementsPrinted(items: Items, first: bool, rest: seq<Lexeme>, s: State, stack: seq<State>)
    requires ProperItems(items) && ValueAllowed(s)
    ensures Ends(Elements(Dec(PrintItems(items, first) + rest, AtItem(first), stack + [s])),
                 DistinctItems(items), Dec(rest, ValueEnd(s), stack))
    decreases items
  {
    match items
    case Nil =>
      assert ([RBracket] + rest)[1..] == rest;
    case Item(t, more) =>
      var tail := PrintItems(more, false) + rest;
      PrintOpens(t);
      assert (Print(t) + tail)[0] == Print(t)[0];
      ItemOpens(Print(t) + tail, first, stack + [s]);
      assert PrintItems(items, first) + rest == Separator(first) + (Print(t) + tail);
      WalkPrinted(t, tail, if first then ArrayStart else ArrayValue, stack + [s]);
      ElementsPrinted(more, false, rest, s, stack);
  }

  /** The key's token is taken, and the value's walk starts past the colon. */
  lemma FieldOpens(k: string, first: bool, value: seq<Lexeme>, stack: seq<State>)
    ensures var here := Dec(Separator(first) + ([Str(k), Colon] + value), AtField(first), stack);
            var next := Dec([Colon] + value, ObjectColon, stack);
            More(here) && Token(here) == Ok((Str(k), next)) && Walk(next) == Walk(Dec(value, ObjectValue, stack))
  {
    var here := Dec(Separator(first) + ([Str(k), Colon] + value), AtField(first), stack);
    var d := Dec([Str(k), Colon] + value, if first then ObjectStart else ObjectKey, stack);
    assert d.rest[1..] == [Colon] + value;
    if first {
      assert here.rest == d.rest;
    } else {
      SkipSeparator(d, Comma, ObjectComma, ObjectKey);
    }
    SkipSeparator(Dec(value, ObjectValue, stack), Colon, ObjectColon, ObjectValue);
  }

  lemma {:induction false} MembersPrinted(fields: Fields, first: bool, seen: set<string>, rest: seq<Lexeme>, s: State, stack: seq<State>)
    requires ProperFields(fields) && ValueAllowed(s)
    ensures Ends(Members(Dec(PrintFields(fields, first) + rest, AtField(first), stack + [s]), seen),
                 DistinctFields(fields, seen), Dec(rest, ValueEnd(s), stack))
    decreases fields
  {
    match fields
    case End =>
      assert ([RBrace] + rest)[1..] == rest;
    case Field(k, v, more) =>
      var tail := PrintFields(more, false) + rest;
      var here := Dec(PrintFields(fields, first) + rest, AtField(first), stack + [s]);
      assert here.rest == Separator(first) + ([Str(k), Colon] + (Print(v) + tail));
      FieldOpens(k, first, Print(v) + tail, stack + [s]);
      WalkPrinted(v, tail, ObjectValue, stack + [s]);
      MembersPrinted(more, false, seen + {k}, rest, s, stack);
  }

  // ---- whatever the walk accepts is a document ----

  ghost predicate Opened(d: Dec) {
    d.stack != [] && ValueAllowed(d.stack[|d.stack|-1])
  }

  /** The decoder after the innermost container has closed. */
  function Outside(d: Dec, rest: seq<Lexeme>): Dec {
    Pop(d.(rest := rest))
  }

  /** The first token of a value is its first lexeme. */
  lemma ValueReads(d: Dec)
    requires ValueAllowed(d.state) && (d.state == ArrayStart ==> More(d)) && Token(d).Ok?
    ensures d.rest != [] && Token(d).value.0 == d.rest[0]
    ensures match d.rest[0]
            case LBracket => Token(d).value.1 == Dec(d.rest[1..], ArrayStart, d.stack + [d.state])
            case LBrace => Token(d).value.1 == Dec(d.rest[1..], ObjectStart, d.stack + [d.state])
            case l => (l.Str? || l.Lit?) && Token(d).value.1 == Dec(d.rest[1..], ValueEnd(d.state), d.stack)
  {
  }

  lemma {:induction false} WalkSound(d: Dec) returns (t: Tree)
    requires ValueAllowed(d.state) && (d.state == ArrayStart ==> More(d)) && Walk(d).Ok?
    ensures Proper(t) && Distinct(t) && d.rest == Print(t) + Walk(d).value.rest
    ensures Walk(d).value == Dec(Walk(d).value.rest, ValueEnd(d.state), d.stack)
    decreases |d.rest|, 0
  {
    ValueReads(d);
    var l, next := d.rest[0], Token(d).value.1;
    assert d.rest == [l] + next.rest;
    if l == LBracket {
      var items := ElementsSound(next, true);
      t := Arr(items);
      Prepend(d.rest, [l], next.rest, PrintItems(items, true), Walk(d).value.rest);
    } else if l == LBrace {
      var fields := MembersSound(next, true, {});
      t := Obj(fields);
      Prepend(d.rest, [l], next.rest, PrintFields(fields, true), Walk(d).value.rest);
    } else {
      t := Leaf(l);
    }
  }

  lemma Prepend<T>(whole: seq<T>, a: seq<T>, tail: seq<T>, b: seq<T>, rest: seq<T>)
    requires whole == a + tail && tail == b + rest
    ensures whole == (a + b) + rest
  {
  }

  lemma ElementsClose(d: Dec, first: bool)
    requires d.state == AtItem(first) && Opened(d) && !More(d) && Elements(d).Ok?
    ensures d.rest == [RBracket] + Elements(d).value.rest && Elements(d).value == Outside(d, Elements(d).value.rest)
  {
  }

  /** The element's walk starts past the comma, if there is one. */
  lemma ItemReads(d: Dec, first: bool) returns (value: Dec)
    requires d.state == AtItem(first) && More(d) && Walk(d).Ok?
    ensures value == Dec(value.rest, if first then ArrayStart else ArrayValue, d.stack)
    ensures d.rest == Separator(first) + value.rest && Walk(d) == Walk(value) && (first ==> value == d)
  {
    value := if first then d else Dec(d.rest[1..], ArrayValue, d.stack);
    if !first {
      assert d.rest == [Comma] + value.rest;
      SkipSeparator(value, Comma, ArrayComma, ArrayValue);
    }
  }

  lemma {:induction false} ElementsSound(d: Dec, first: bool) returns (items: Items)
    requires d.state == AtItem(first) && Opened(d) && Elements(d).Ok?
    ensures ProperItems(items) && DistinctItems(items) && d.rest == PrintItems(items, first) + Elements(d).value.rest
    ensures Elements(d).value == Outside(d, Elements(d).value.rest)
    decreases |d.rest|, 1
  {
    if !More(d) {
      ElementsClose(d, first);
      items := Nil;
    } else {
      var value := ItemReads(d, first);
      var t := WalkSound(value);
      var next := Walk(d).value;
      var more := ElementsSound(next, false);
      items := Item(t, more);
      Regroup(d.rest, Separator(first), Print(t), next.rest, PrintItems(more, false), Elements(next).value.rest);
    }
  }

  lemma Regroup<T>(whole: seq<T>, a: seq<T>, b: seq<T>, tail: seq<T>, c: seq<T>, rest: seq<T>)
    requires whole == a + (b + tail) && tail == c + rest
    ensures whole == a + (b + c) + rest
  {
  }

  /** The key's token, past the comma if there is one. */
  lemma KeyReads(d: Dec, first: bool) returns (k: string, rest: seq<Lexeme>)
    requires d.state == AtField(first) && More(d) && Token(d).Ok?
    ensures d.rest == Separator(first) + ([Str(k)] + rest) && Token(d).value.1 == Dec(rest, ObjectColon, d.stack)
  {
    var key := if first then d else Dec(d.rest[1..], ObjectKey, d.stack);
    if !first {
      assert d.rest == [Comma] + key.rest;
      SkipSeparator(key, Comma, ObjectComma, ObjectKey);
    }
    k, rest := key.rest[0].text, key.rest[1..];
    assert key.rest == [Str(k)] + rest;
  }

  lemma ColonReads(d: Dec)
    requires d.state == ObjectColon && Walk(d).Ok?
    ensures d.rest != [] && d.rest == [Colon] + d.rest[1..]
  {
  }

  /** A key and its colon open every member that is walked to its end. */
  lemma FieldReads(d: Dec, first: bool) returns (k: string, value: seq<Lexeme>)
    requires d.state == AtField(first) && More(d) && Token(d).Ok? && Walk(Token(d).value.1).Ok?
    ensures d.rest == Separator(first) + ([Str(k), Colon] + value)
  {
    var rest;
    k, rest := KeyReads(d, first);
    ColonReads(Dec(rest, ObjectColon, d.stack));
    value := rest[1..];
    assert [Str(k)] + rest == [Str(k), Colon] + value;
  }

  lemma MembersClose(d: Dec, first: bool, seen: set<string>)
    requires d.state == AtField(first) && Opened(d) && !More(d) && Members(d, seen).Ok?
    ensures d.rest == [RBrace] + Members(d, seen).value.rest
    ensures Members(d, seen).value == Outside(d, Members(d, seen).value.rest)
  {
  }

  /** A member, its value, and where the walk goes on. */
  lemma MemberReads(d: Dec, first: bool, seen: set<string>) returns (k: string, value: seq<Lexeme>)
    requires d.state == AtField(first) && More(d) && Members(d, seen).Ok?
    ensures d.rest == Separator(first) + ([Str(k), Colon] + value) && k !in seen
    ensures var v := Dec(value, ObjectValue, d.stack);
            Walk(v).Ok? && Members(d, seen) == Members(Walk(v).value, seen + {k})
  {
    k, value := FieldReads(d, first);
    FieldOpens(k, first, value, d.stack);
  }

  lemma MembersJoin(whole: seq<Lexeme>, first: bool, k: string, value: seq<Lexeme>, t: Tree, tail: seq<Lexeme>, more: Fields, rest: seq<Lexeme>)
    requires whole == Separator(first) + ([Str(k), Colon] + value)
    requires value == Print(t) + tail && tail == PrintFields(more, false) + rest
    ensures whole == PrintFields(Field(k, t, more), first) + rest
  {
    Regroup(value, [], Print(t), tail, PrintFields(more, false), rest);
    assert [] + (Print(t) + PrintFields(more, false)) == Print(t) + PrintFields(more, false);
    Regroup(whole, Separator(first), [Str(k), Colon], value, Print(t) + PrintFields(more, false), rest);
  }

  lemma {:induction false} MembersSound(d: Dec, first: bool, seen: set<string>) returns (fields: Fields)
    requires d.state == AtField(first) && Opened(d) && Members(d, seen).Ok?
    ensures ProperFields(fields) && DistinctFields(fields, seen)
    ensures d.rest == PrintFields(fields, first) + Members(d, seen).value.rest
    ensures Members(d, seen).value == Outside(d, Members(d, seen).value.rest)
    decreases |d.rest|, 1
  {
    if !More(d) {
      MembersClose(d, first, seen);
      fields := End;
    } else {
      var k, value := MemberReads(d, first, seen);
      var v := Dec(value, ObjectValue, d.stack);
      var t := WalkSound(v);
      var next := Walk(v).value;
      var more := MembersSound(next, false, seen + {k});
      fields := Field(k, t, more);
      MembersJoin(d.rest, first, k, value, t, next.rest, more, Members(d, seen).value.rest);
    }
  }

  /** The check passes exactly the single documents in which no object repeats a key. */
  lemma AcceptsExactly(data: seq<Lexeme>)
    ensures Refusal(data).None? <==> exists t :: Proper(t) && Distinct(t) && Print(t) == data
  {
    if Refusal(data).None? {
      var d := Dec(data, Top, []);
      var t := WalkSound(d);
      assert Walk(d).value.rest == [];
      assert Print(t) == data;
    }
    if t :| Proper(t) && Distinct(t) && Print(t) == data {
      WalkPrinted(t, [], Top, []);
      assert Print(t) + [] == data;
    }
  }
}
