/**
  Names and values of dev-preview headers: their canonical form, the reserved
  names, and the rules a pair has to meet before it may be stored.
 */
module HeaderStore {
  import opened Wrappers

  const MAX_ENTRIES: nat := 20
  const MAX_NAME: nat := 128
  const MAX_VALUE: nat := 4096

  /** The reserved names, each as the one or two words a hyphen joins. */
  const RESERVED: seq<(string, string)> := [
    ("Authorization", ""), ("Cookie", ""), ("Set", "Cookie"), ("Host", ""), ("Connection", ""), ("Keep", "Alive"),
    ("Proxy", "Authenticate"), ("Proxy", "Authorization"), ("Te", ""), ("Trailer", ""), ("Transfer", "Encoding"),
    ("Upgrade", ""), ("Proxy", "Connection")]

  function Joined(words: (string, string)): string {
    if words.1 == "" then words.0 else words.0 + ("-" + words.1)
  }

  /** The WebSocket handshake names all open with this. */
  const SEC_PREFIX: string := "Sec" + ("-" + ("Websocket" + "-"))

  // ---- names ----

  predicate IsLower(c: char) { 'a' <= c <= 'z' }

  predicate IsUpper(c: char) { 'A' <= c <= 'Z' }

  function Lower(c: char): char {
    if IsUpper(c) then (c as int + 32) as char else c
  }

  function Upper(c: char): char {
    if IsLower(c) then (c as int - 32) as char else c
  }

  /** The MIME form of a token: capitals first and after each hyphen, small letters elsewhere. */
  function Canon(s: string, upper: bool): (r: string)
    ensures |r| == |s|
  {
    if s == [] then []
    else [if upper then Upper(s[0]) else Lower(s[0])] + Canon(s[1..], s[0] == '-')
  }

  /** The name with letter case ignored. */
  function Folded(s: string): (r: string)
    ensures |r| == |s|
  {
    if s == [] then [] else [Lower(s[0])] + Folded(s[1..])
  }

  lemma {:induction false} CanonFolds(s: string, upper: bool)
    ensures Folded(Canon(s, upper)) == Folded(s)
  {
    if s == [] {
    } else {
      CanonFolds(s[1..], s[0] == '-');
      var c := Canon(s, upper);
      assert c[1..] == Canon(s[1..], s[0] == '-');
    }
  }

  /** Two names have the same canonical form exactly when they differ in letter case only. */
  lemma {:induction false} CanonIgnoresCaseExactly(s: string, t: string, upper: bool)
    ensures Canon(s, upper) == Canon(t, upper) <==> Folded(s) == Folded(t)
  {
    if Folded(s) == Folded(t) {
      CanonOfFolded(s, t, upper);
    }
    CanonFolds(s, upper);
    CanonFolds(t, upper);
  }

  lemma {:induction false} CanonOfFolded(s: string, t: string, upper: bool)
    requires Folded(s) == Folded(t)
    ensures Canon(s, upper) == Canon(t, upper)
  {
    assert |s| == |t|;
    if s == [] {
    } else {
      assert Lower(s[0]) == Folded(s)[0] == Folded(t)[0] == Lower(t[0]);
      assert Folded(s[1..]) == Folded(s)[1..] == Folded(t)[1..] == Folded(t[1..]);
      CanonOfFolded(s[1..], t[1..], s[0] == '-');
    }
  }

  lemma CanonTwice(s: string)
    ensures Canon(Canon(s, true), true) == Canon(s, true)
  {
    CanonFolds(s, true);
    CanonOfFolded(Canon(s, true), s, true);
  }

  predicate TokenChar(c: char) {
    IsLower(c) || IsUpper(c) || '0' <= c <= '9' || c in "!#$%&'*+-.^_`|~"
  }

  predicate Reserved(canonical: string) {
    (exists i :: 0 <= i < |RESERVED| && canonical == Joined(RESERVED[i])) || SEC_PREFIX <= canonical
  }

  datatype Error = NameMissing | NameTooLong | NameInvalid | NameReserved
                 | ValueMissing | ValueTooLong | ValueInvalid | Full | PersistFailed

  method ValidateName(name: string) returns (r: Result<string, Error>)
    ensures r == CheckName(name)
  {
    if name == "" {
      return Err(NameMissing);
    }
    if |name| > MAX_NAME {
      return Err(NameTooLong);
    }
    for i := 0 to |name|
      invariant forall k :: 0 <= k < i ==> TokenChar(name[k])
    {
      if !TokenChar(name[i]) {
        return Err(NameInvalid);
      }
    }
    var canonical := Canon(name, true);
    if Reserved(canonical) {
      return Err(NameReserved);
    }
    return Ok(canonical);
  }

  function CheckName(name: string): Result<string, Error> {
    if name == "" then Err(NameMissing)
    else if |name| > MAX_NAME then Err(NameTooLong)
    else if exists k :: 0 <= k < |name| && !TokenChar(name[k]) then Err(NameInvalid)
    else if Reserved(Canon(name, true)) then Err(NameReserved)
    else Ok(Canon(name, true))
  }

  // ---- values ----

  predicate ValueChar(c: char) {
    c == '\t' || 0x20 <= c as int <= 0x7e || c as int >= 0x80
  }

  predicate GoodValue(v: string) {
    0 < |v| <= MAX_VALUE && forall i :: 0 <= i < |v| ==> ValueChar(v[i])
  }

  method Validate(name: string, value: string) returns (r: Result<string, Error>)
    ensures r == Check(name, value)
  {
    r := ValidateName(name);
    if r.Err? {
      return r;
    }
    if value == "" {
      return Err(ValueMissing);
    }
    if |value| > MAX_VALUE {
      return Err(ValueTooLong);
    }
    for i := 0 to |value|
      invariant forall k :: 0 <= k < i ==> ValueChar(value[k])
    {
      if !ValueChar(value[i]) {
        return Err(ValueInvalid);
      }
    }
  }

  function Check(name: string, value: string): Result<string, Error> {
    if CheckName(name).Err? then CheckName(name)
    else if value == "" then Err(ValueMissing)
    else if |value| > MAX_VALUE then Err(ValueTooLong)
    else if exists k :: 0 <= k < |value| && !ValueChar(value[k]) then Err(ValueInvalid)
    else CheckName(name)
  }

  // ---- what can be stored ----

  predicate GoodName(n: string) {
    0 < |n| <= MAX_NAME && Canon(n, true) == n && !Reserved(n) && forall i :: 0 <= i < |n| ==> TokenChar(n[i])
  }

  lemma {:induction false} CanonTokens(s: string, upper: bool)
    requires forall i :: 0 <= i < |s| ==> TokenChar(s[i])
    ensures forall i :: 0 <= i < |s| ==> TokenChar(Canon(s, upper)[i])
  {
    if s == [] {
    } else {
      CanonTokens(s[1..], s[0] == '-');
    }
  }

  lemma CheckGives(name: string, value: string)
    requires Check(name, value).Ok?
    ensures GoodName(Check(name, value).value) && GoodValue(value) && Check(name, value).value == Canon(name, true)
  {
    CanonTokens(name, true);
    CanonTwice(name);
  }

  /** The delimiters of section 3.2.6 of RFC 7230. */
  const DELIMITERS := "\"(),/:;<=>?@[\\]{}"

  /** A byte no header name may hold: a blank, a control, a delimiter, or one beyond ASCII. */
  predicate BreaksName(c: char) {
    c as int <= 0x20 || c as int >= 0x7f || c in DELIMITERS
  }

  /** A byte no header value may hold: NUL, CR, LF, DEL and every other control but the tab. */
  predicate BreaksValue(c: char) {
    (c as int < 0x20 && c as int != 9) || c as int == 0x7f
  }

  /** The two byte sets are what the separators and controls leave over. */
  lemma BytesExactly(c: char)
    ensures TokenChar(c) <==> !BreaksName(c)
    ensures ValueChar(c) <==> !BreaksValue(c)
  {
  }

  /** A name none of the rules refuses. */
  ghost predicate Acceptable(name: string) {
    && 1 <= |name| <= 128 && (forall i :: 0 <= i < |name| ==> !BreaksName(name[i]))
    && !Reserved(Canon(name, true))
  }

  /** Validation, exactly: which pairs pass, and the name they pass under. */
  lemma CheckExactly(name: string, value: string)
    ensures CheckName(name).Ok? <==> Acceptable(name)
    ensures Check(name, value).Ok? <==>
              Acceptable(name) && 1 <= |value| <= 4096 && forall i :: 0 <= i < |value| ==> !BreaksValue(value[i])
    ensures Check(name, value).Ok? ==> Check(name, value).value == Canon(name, true)
    ensures CheckName(name).Ok? ==> CheckName(name).value == Canon(name, true)
  {
    forall c {
      BytesExactly(c);
    }
  }

  /** Nothing that could end a header line, or a name early, is ever stored. */
  lemma StoredBytes(n: string, v: string)
    requires GoodName(n) && GoodValue(v)
    ensures '\r' !in v && '\n' !in v && '\0' !in v && 0x7f as char !in v
    ensures ' ' !in n && '\t' !in n && ':' !in n && '\r' !in n && '\n' !in n
  {
    forall i | 0 <= i < |n| ensures !BreaksName(n[i]) {
      BytesExactly(n[i]);
    }
  }

  lemma GoodChecks(name: string, value: string)
    requires GoodName(name) && GoodValue(value)
    ensures Check(name, value) == Ok(name)
  {
  }

  /** One capitalised word. */
  predicate Word(w: string) {
    w != "" && !IsLower(w[0]) && w[0] != '-' && forall i :: 1 <= i < |w| ==> !IsUpper(w[i]) && w[i] != '-'
  }

  lemma {:induction false} SmallStays(w: string, rest: string)
    requires forall i :: 0 <= i < |w| ==> !IsUpper(w[i]) && w[i] != '-'
    ensures Canon(w + rest, false) == w + Canon(rest, false)
  {
    if w == [] {
      assert w + rest == rest;
    } else {
      assert (w + rest)[1..] == w[1..] + rest;
      SmallStays(w[1..], rest);
    }
  }

  /** A capitalised word, followed by nothing or by a hyphen, is in canonical form. */
  lemma WordStays(w: string, rest: string)
    requires Word(w)
    ensures Canon(w + rest, true) == w + Canon(rest, false)
  {
    assert (w + rest)[1..] == w[1..] + rest;
    SmallStays(w[1..], rest);
  }

  lemma HyphenStays(rest: string)
    ensures Canon("-" + rest, false) == "-" + Canon(rest, true)
  {
    assert ("-" + rest)[1..] == rest;
  }

  lemma JoinedStays(words: (string, string))
    requires Word(words.0) && (words.1 == "" || Word(words.1))
    ensures Canon(Joined(words), true) == Joined(words)
  {
    var (a, b) := words;
    if b == "" {
      WordStays(a, "");
      assert a + "" == a;
    } else {
      WordStays(a, "-" + b);
      HyphenStays(b);
      WordStays(b, "");
      assert b + "" == b;
    }
  }

  lemma ReservedAreWords(i: nat)
    requires i < |RESERVED|
    ensures Word(RESERVED[i].0) && (RESERVED[i].1 == "" || Word(RESERVED[i].1))
  {
  }

  lemma PrefixStays()
    ensures Canon(SEC_PREFIX, true) == SEC_PREFIX
  {
    var last := "-";
    WordStays("Sec", "-" + ("Websocket" + last));
    HyphenStays("Websocket" + last);
    WordStays("Websocket", last);
    HyphenStays("");
    assert "-" + "" == last;
  }

  lemma {:induction false} CanonPrefix(s: string, n: nat, upper: bool)
    requires n <= |s|
    ensures Canon(s, upper)[..n] == Canon(s[..n], upper)
  {
    if n == 0 {
    } else {
      CanonPrefix(s[1..], n - 1, s[0] == '-');
      assert s[..n][1..] == s[1..][..n-1];
    }
  }

  lemma CaseDiffers(n: string, r: string)
    requires Canon(n, true) == n && Canon(r, true) == r && n != r
    ensures Folded(n) != Folded(r)
  {
    CanonIgnoresCaseExactly(n, r, true);
  }

  /** A storable name is no reserved name in any letter case. */
  lemma NeverReservedInAnyCase(n: string, i: nat)
    requires GoodName(n) && i < |RESERVED|
    ensures Folded(n) != Folded(Joined(RESERVED[i]))
  {
    var r := Joined(RESERVED[i]);
    ReservedAreWords(i);
    JoinedStays(RESERVED[i]);
    CaseDiffers(n, r);
  }

  lemma GoodNameIs(n: string)
    requires GoodName(n)
    ensures Canon(n, true) == n && !(SEC_PREFIX <= n)
  {
  }

  lemma NotThatPrefix(n: string, p: string)
    requires |n| >= |p| && Canon(n, true) == n && Canon(p, true) == p && !(p <= n)
    ensures Folded(n[..|p|]) != Folded(p)
  {
    CanonPrefix(n, |p|, true);
    CaseDiffers(n[..|p|], p);
  }

  /** A storable name opens with no cased form of the WebSocket prefix. */
  lemma NeverWebSocketInAnyCase(n: string, p: string)
    requires GoodName(n) && p == SEC_PREFIX && |n| >= |p|
    ensures Folded(n[..|p|]) != Folded(p)
  {
    PrefixStays();
    GoodNameIs(n);
    NotThatPrefix(n, p);
  }
}
