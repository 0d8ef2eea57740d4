/**
  Decoding one payload file: the duplicate-key walk as the imperative pass the
  agent runs, and what the decoded field map then holds.
 */
module BoardPayload {
  import opened Wrappers
  import opened JsonWalk

  class Walker {
    var dec: Dec

    constructor (data: seq<Lexeme>)
      ensures dec == Dec(data, Top, [])
    {
      dec := Dec(data, Top, []);
    }

    method Next() returns (r: Result<Lexeme, Error>)
      modifies this
      ensures match Token(old(dec))
              case Ok((l, next)) => r == Ok(l) && dec == next
              case Err(e) => r == Err(e) && dec == old(dec)
    {
      match Token(dec)
      case Ok((l, next)) =>
        dec := next;
        r := Ok(l);
      case Err(e) =>
        r := Err(e);
    }

    method WalkValue() returns (err: Option<Error>)
      modifies this
      ensures match Walk(old(dec))
              case Ok(next) => err == None && dec == next
              case Err(e) => err == Some(e)
      decreases |dec.rest|
    {
      ghost var start := dec;
      var tok := Next();
      if tok.Err? {
        return Some(tok.error);
      }
      if tok.value == LBrace {
        var seen: set<string> := {};
        while More(dec)
          invariant |dec.rest| < |start.rest| && Members(dec, seen) == Walk(start)
          decreases |dec.rest|
        {
          var keyTok := Next();
          if keyTok.Err? {
            return Some(keyTok.error);
          }
          var key := KeyOf(keyTok.value);
          if key in seen {
            return Some(Duplicate(key));
          }
          seen := seen + {key};
          var failed := WalkValue();
          if failed.Some? {
            return failed;
          }
        }
        var close := Next();
        err := if close.Err? then Some(close.error) else None;
      } else if tok.value == LBracket {
        while More(dec)
          invariant |dec.rest| < |start.rest| && Elements(dec) == Walk(start)
          decreases |dec.rest|
        {
          var failed := WalkValue();
          if failed.Some? {
            return failed;
          }
        }
        var close := Next();
        err := if close.Err? then Some(close.error) else None;
      } else {
        err := None;
      }
    }
  }

  method RefuseDuplicateKeys(data: seq<Lexeme>) returns (err: Option<Error>)
    ensures err.None? <==> exists t :: Proper(t) && Distinct(t) && Print(t) == data
    ensures err == Refusal(data)
  {
    AcceptsExactly(data);
    var walker := new Walker(data);
    err := walker.WalkValue();
    if err.Some? {
      return err;
    }
    var trailing := walker.Next();
    err := if trailing == Err(EOF) then None else Some(Trailing);
  }

  // ---- one reading per document ----

  lemma Cancel<T>(a: seq<T>, r: seq<T>, b: seq<T>, s: seq<T>)
    requires a + r == b + s && |a| == |b|
    ensures a == b && r == s
  {
    assert a == (a + r)[..|a|] && b == (b + s)[..|b|];
    assert r == (a + r)[|a|..] && s == (b + s)[|b|..];
  }

  /** Two printed values that agree as far as they go are the same value. */
  lemma {:induction false} PrintReads(t: Tree, r: seq<Lexeme>, u: Tree, s: seq<Lexeme>)
    requires Proper(t) && Proper(u) && Print(t) + r == Print(u) + s
    ensures t == u && r == s
    decreases t
  {
    assert (Print(t) + r)[0] == Print(t)[0] && (Print(u) + s)[0] == Print(u)[0];
    match t
    case Leaf(l) =>
      Cancel([l], r, Print(u), s);
    case Arr(items) =>
      assert Print(t) + r == [LBracket] + (PrintItems(items, true) + r);
      assert Print(u) + s == [LBracket] + (PrintItems(u.items, true) + s);
      Cancel([LBracket], PrintItems(items, true) + r, [LBracket], PrintItems(u.items, true) + s);
      ItemsRead(items, true, r, u.items, s);
    case Obj(fields) =>
      assert Print(t) + r == [LBrace] + (PrintFields(fields, true) + r);
      assert Print(u) + s == [LBrace] + (PrintFields(u.fields, true) + s);
      Cancel([LBrace], PrintFields(fields, true) + r, [LBrace], PrintFields(u.fields, true) + s);
      FieldsRead(fields, true, r, u.fields, s);
  }

  lemma ItemsOpen(items: Items, first: bool, r: seq<Lexeme>)
    requires ProperItems(items)
    ensures PrintItems(items, first) + r != []
    ensures (PrintItems(items, first) + r)[0] == RBracket <==> items.Nil?
    ensures items.Item? ==> PrintItems(items, first) + r
                            == Separator(first) + (Print(items.head) + (PrintItems(items.tail, false) + r))
  {
    if items.Item? {
      PrintOpens(items.head);
    }
  }

  lemma {:induction false} ItemsRead(a: Items, first: bool, r: seq<Lexeme>, b: Items, s: seq<Lexeme>)
    requires ProperItems(a) && ProperItems(b) && PrintItems(a, first) + r == PrintItems(b, first) + s
    ensures a == b && r == s
    decreases a
  {
    ItemsOpen(a, first, r);
    ItemsOpen(b, first, s);
    if a.Nil? {
      Cancel([RBracket], r, [RBracket], s);
    } else {
      var p, q := PrintItems(a.tail, false) + r, PrintItems(b.tail, false) + s;
      Cancel(Separator(first), Print(a.head) + p, Separator(first), Print(b.head) + q);
      PrintReads(a.head, p, b.head, q);
      ItemsRead(a.tail, false, r, b.tail, s);
    }
  }

  lemma FieldsOpen(fields: Fields, first: bool, r: seq<Lexeme>)
    ensures PrintFields(fields, first) + r != []
    ensures (PrintFields(fields, first) + r)[0] == RBrace <==> fields.End?
    ensures fields.Field? ==>
              PrintFields(fields, first) + r ==
              Separator(first) + ([Str(fields.key), Colon] + (Print(fields.value) + (PrintFields(fields.next, false) + r)))
  {
  }

  lemma {:induction false} FieldsRead(a: Fields, first: bool, r: seq<Lexeme>, b: Fields, s: seq<Lexeme>)
    requires ProperFields(a) && ProperFields(b) && PrintFields(a, first) + r == PrintFields(b, first) + s
    ensures a == b && r == s
    decreases a
  {
    FieldsOpen(a, first, r);
    FieldsOpen(b, first, s);
    if a.End? {
      Cancel([RBrace], r, [RBrace], s);
    } else {
      var p, q := PrintFields(a.next, false) + r, PrintFields(b.next, false) + s;
      var v, w := Print(a.value) + p, Print(b.value) + q;
      Cancel(Separator(first), [Str(a.key), Colon] + v, Separator(first), [Str(b.key), Colon] + w);
      Cancel([Str(a.key), Colon], v, [Str(b.key), Colon], w);
      assert [Str(a.key), Colon][0] == [Str(b.key), Colon][0];
      PrintReads(a.value, p, b.value, q);
      FieldsRead(a.next, false, r, b.next, s);
    }
  }

  /** A document has one reading. */
  lemma OneReading(t: Tree, u: Tree)
    requires Proper(t) && Proper(u) && Print(t) == Print(u)
    ensures t == u
  {
    assert Print(t) + [] == Print(u) + [];
    PrintReads(t, [], u, []);
  }

  // ---- the decoded fields ----

  /** The standard decoder's map: a later field overwrites an earlier one of the same name. */
  function ToMap(fields: Fields): map<string, Tree> {
    match fields
    case End => map[]
    case Field(k, v, more) => map[k := v] + ToMap(more)
  }

  function Length(fields: Fields): nat {
    match fields
    case End => 0
    case Field(_, _, more) => 1 + Length(more)
  }

  predicate Has(fields: Fields, k: string, v: Tree) {
    fields.Field? && ((fields.key == k && fields.value == v) || Has(fields.next, k, v))
  }

  /** No two of these fields share a name. */
  predicate NamesDiffer(fields: Fields) {
    fields.Field? ==> fields.key !in ToMap(fields.next) && NamesDiffer(fields.next)
  }

  lemma {:induction false} MapIsFields(fields: Fields, k: string, v: Tree)
    ensures k in ToMap(fields) && ToMap(fields)[k] == v ==> Has(fields, k, v)
    ensures Has(fields, k, v) ==> k in ToMap(fields)
    ensures NamesDiffer(fields) && Has(fields, k, v) ==> ToMap(fields)[k] == v
  {
    if fields.End? {
    } else {
      MapIsFields(fields.next, k, v);
    }
  }

  /** The map is as large as the field list exactly when no name repeats. */
  lemma {:induction false} MapLosesNothingExactly(fields: Fields)
    ensures |ToMap(fields)| <= Length(fields)
    ensures |ToMap(fields)| == Length(fields) <==> NamesDiffer(fields)
  {
    if fields.End? {
    } else {
      MapLosesNothingExactly(fields.next);
      var m := ToMap(fields.next);
      var k := fields.key;
      assert ToMap(fields).Keys == m.Keys + {k};
      if k in m {
        assert m.Keys + {k} == m.Keys;
      }
      assert |ToMap(fields)| == |ToMap(fields).Keys| && |m| == |m.Keys|;
    }
  }

  lemma {:induction false} DistinctNames(fields: Fields, seen: set<string>)
    requires DistinctFields(fields, seen)
    ensures NamesDiffer(fields) && forall k :: k in ToMap(fields) ==> k !in seen
  {
    if fields.End? {
    } else {
      DistinctNames(fields.next, seen + {fields.key});
    }
  }

  ghost function Document(data: seq<Lexeme>): (t: Tree)
    requires exists t :: Proper(t) && Print(t) == data
    ensures Proper(t) && Print(t) == data
  {
    var t :| Proper(t) && Print(t) == data;
    t
  }

  /** The payload decoder: the walk, then the decode into a field map. */
  ghost function Payload(data: seq<Lexeme>): Result<map<string, Tree>, Error> {
    match Refusal(data)
    case Some(e) => Err(e)
    case None =>
      AcceptsExactly(data);
      var t := Document(data);
      if t.Obj? then Ok(ToMap(t.fields)) else Err(NotObject)
  }

  /** The data is this object, and no object in it repeats a key. */
  ghost predicate Reads(data: seq<Lexeme>, fields: Fields) {
    Proper(Obj(fields)) && Distinct(Obj(fields)) && Print(Obj(fields)) == data
  }

  /** The map has each field under its name with its value, and nothing else. */
  ghost predicate Holds(m: map<string, Tree>, fields: Fields) {
    |m| == Length(fields) && forall k, v :: Has(fields, k, v) <==> k in m && m[k] == v
  }

  lemma MapHolds(fields: Fields)
    requires Distinct(Obj(fields))
    ensures Holds(ToMap(fields), fields)
  {
    var w := ToMap(fields);
    DistinctNames(fields, {});
    MapLosesNothingExactly(fields);
    forall k, v ensures Has(fields, k, v) <==> k in w && w[k] == v {
      MapIsFields(fields, k, v);
    }
  }

  /** Two maps that hold the same fields are the same. */
  lemma HoldsOnce(fields: Fields, m: map<string, Tree>, w: map<string, Tree>)
    requires Holds(m, fields) && Holds(w, fields)
    ensures m == w
  {
    forall k ensures (k in m <==> k in w) && (k in m ==> m[k] == w[k]) {
      if k in m {
        assert Has(fields, k, m[k]);
      }
      if k in w {
        assert Has(fields, k, w[k]);
      }
    }
  }

  lemma WholeExactly(fields: Fields, m: map<string, Tree>)
    requires Distinct(Obj(fields))
    ensures Holds(m, fields) <==> m == ToMap(fields)
  {
    MapHolds(fields);
    if Holds(m, fields) {
      HoldsOnce(fields, m, ToMap(fields));
    }
  }

  lemma PayloadOf(data: seq<Lexeme>, fields: Fields)
    requires Reads(data, fields)
    ensures Payload(data) == Ok(ToMap(fields))
  {
    AcceptsExactly(data);
    OneReading(Obj(fields), Document(data));
  }

  lemma PayloadFrom(data: seq<Lexeme>) returns (fields: Fields)
    requires Payload(data).Ok?
    ensures Reads(data, fields)
  {
    AcceptsExactly(data);
    var t :| Proper(t) && Distinct(t) && Print(t) == data;
    OneReading(t, Document(data));
    fields := t.fields;
  }

  /**
    A payload is accepted exactly when it is one object with no key repeated at
    any depth, and then the map has each of its fields, and nothing else.
   */
  lemma PayloadExactly(data: seq<Lexeme>, m: map<string, Tree>)
    ensures Payload(data) == Ok(m) <==> exists fields :: Reads(data, fields) && Holds(m, fields)
  {
    if Payload(data) == Ok(m) {
      var fields := PayloadFrom(data);
      PayloadOf(data, fields);
      WholeExactly(fields, m);
    }
    if fields :| Reads(data, fields) && Holds(m, fields) {
      PayloadOf(data, fields);
      WholeExactly(fields, m);
    }
  }
}
