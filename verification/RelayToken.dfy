/**
  Relay tokens: "lrt_" base64url(payload JSON) "_" base64url(HMAC).

  The JSON codec and the HMAC come with the signing key as a `Signer`; times
  are nanoseconds, except the two stamps in the payload, which are seconds.
 */
module RelayToken {
  import opened Wrappers
  import opened Base64Url

  datatype Payload = Payload(
    workspaceID: string, providerSlug: string, baseURL: string,
    modelAllowlist: seq<string>, issuedAt: int, expiresAt: int, keyID: string)

  datatype Signer = Signer(
    marshal: Payload -> seq<byte>,
    unmarshal: seq<byte> -> Option<Payload>,
    mac: string -> seq<byte>)

  datatype TokenError = Malformed | BadSignature | Expired | NotYetValid

  const PREFIX := "lrt_"
  const SECOND := 1_000_000_000
  const SKEW := 30 * SECOND

  function Mint(m: Signer, p: Payload): Result<string, TokenError> {
    if p.workspaceID == "" || p.providerSlug == "" || p.baseURL == "" then Err(Malformed)
    else if p.expiresAt <= p.issuedAt then Err(Malformed)
    else
      var encoded := Encode(m.marshal(p));
      Ok(PREFIX + (encoded + "_" + Encode(m.mac(encoded))))
  }

  /** The first '_' of `s`, or its length. */
  function FirstUnderscore(s: string): (k: nat)
    ensures k <= |s| && forall i :: 0 <= i < k ==> s[i] != '_'
    ensures k < |s| ==> s[k] == '_'
  {
    if s == "" || s[0] == '_' then 0
    else FirstUnderscore(s[1..]) + 1
  }

  function Verify(m: Signer, now: int, token: string): Result<Payload, TokenError> {
    if !(PREFIX <= token) then Err(Malformed)
    else
      var rest := token[|PREFIX|..];
      var k := FirstUnderscore(rest);
      if k == |rest| || k == 0 || k + 1 == |rest| then Err(Malformed)
      else Checked(m, now, rest[..k], Decode(rest[k+1..]))
  }

  /** After the cut: the signature, then the body, then the clock. */
  function Checked(m: Signer, now: int, encoded: string, sig: Option<seq<byte>>): Result<Payload, TokenError> {
    if sig != Some(m.mac(encoded)) then Err(BadSignature) else Judged(m, now, Decode(encoded))
  }

  function Judged(m: Signer, now: int, body: Option<seq<byte>>): Result<Payload, TokenError> {
    if body.None? then Err(Malformed)
    else
      var p := m.unmarshal(body.value);
      if p.None? then Err(Malformed)
      else if now > p.value.expiresAt * SECOND + SKEW then Err(Expired)
      else if p.value.issuedAt * SECOND > now + SKEW then Err(NotYetValid)
      else Ok(p.value)
  }

  /** HMAC-SHA256 is 32 bytes; JSON of a payload is not empty and reads back. */
  ghost predicate Lawful(m: Signer, p: Payload) {
    && (forall s :: |m.mac(s)| == 32)
    && m.marshal(p) != []
    && m.unmarshal(m.marshal(p)) == Some(p)
  }

  /** Half a minute of skew at either end; the stamps are seconds, the time is nanoseconds. */
  predicate InWindow(p: Payload, now: int) {
    (p.issuedAt - 30) * 1_000_000_000 <= now <= (p.expiresAt + 30) * 1_000_000_000
  }

  predicate OneLine(s: string) {
    forall i :: 0 <= i < |s| ==> s[i] != '\n' && s[i] != '\r'
  }

  /** Signature text that swallowed a piece of the body is too long to be 32 bytes. */
  lemma LongSignature(sig: string, piece: string)
    requires |sig| == 43 && OneLine(sig) && OneLine(piece)
    ensures Decode(piece + "_" + sig).None? || |Decode(piece + "_" + sig).value| > 32
  {
    DecodedLength(piece + "_" + sig);
  }

  lemma VerifyCuts(m: Signer, now: int, a: string, b: string)
    requires '_' !in a && a != "" && b != ""
    ensures Verify(m, now, PREFIX + (a + "_" + b)) == Checked(m, now, a, Decode(b))
  {
    var rest := a + "_" + b;
    assert (PREFIX + rest)[|PREFIX|..] == rest;
    assert rest[|a|] == '_' && forall i :: 0 <= i < |a| ==> rest[i] == a[i];
    assert FirstUnderscore(rest) == |a|;
    assert rest[..|a|] == a && rest[|a|+1..] == b;
  }

  /** The token reads "lrt_", a body without '_', '_' and a signature, neither of them empty. */
  predicate Reads(token: string, a: string, b: string) {
    token == PREFIX + (a + "_" + b) && '_' !in a && a != "" && b != ""
  }

  /** A token that reads in no such way is malformed. */
  lemma Unread(m: Signer, now: int, token: string)
    requires forall a, b :: !Reads(token, a, b)
    ensures Verify(m, now, token) == Err(Malformed)
  {
    if PREFIX <= token {
      var rest := token[|PREFIX|..];
      var k := FirstUnderscore(rest);
      if 0 < k && k + 1 < |rest| {
        assert rest == rest[..k] + "_" + rest[k+1..];
        assert token == PREFIX + rest;
        assert Reads(token, rest[..k], rest[k+1..]);
      }
    }
  }

  /** The signature is the MAC of the body. */
  predicate Signed(m: Signer, a: string, b: string) {
    Decode(b) == Some(m.mac(a))
  }

  /** These bytes are the payload. */
  predicate Holds(m: Signer, body: Option<seq<byte>>, p: Payload) {
    body.Some? && m.unmarshal(body.value) == Some(p)
  }

  predicate Carries(m: Signer, a: string, p: Payload) {
    Holds(m, Decode(a), p)
  }

  lemma JudgedExactly(m: Signer, now: int, body: Option<seq<byte>>)
    ensures forall p :: Judged(m, now, body) == Ok(p) <==> Holds(m, body, p) && InWindow(p, now)
    ensures Judged(m, now, body) == Err(Malformed) <==> forall p :: !Holds(m, body, p)
    ensures Judged(m, now, body) != Err(BadSignature)
    ensures forall p :: Holds(m, body, p) ==>
              && (Judged(m, now, body) == Err(Expired) <==> (p.expiresAt + 30) * 1_000_000_000 < now)
              && (Judged(m, now, body) == Err(NotYetValid) <==>
                    now <= (p.expiresAt + 30) * 1_000_000_000 && now < (p.issuedAt - 30) * 1_000_000_000)
  {
    if body.Some? && m.unmarshal(body.value).Some? {
      assert Holds(m, body, m.unmarshal(body.value).value);
    }
  }

  lemma SignedIsJudged(m: Signer, now: int, token: string, a: string, b: string, sig: Option<seq<byte>>, body: Option<seq<byte>>)
    requires Reads(token, a, b) && sig == Decode(b) && body == Decode(a)
    ensures Verify(m, now, token) == if sig == Some(m.mac(a)) then Judged(m, now, body) else Err(BadSignature)
  {
    VerifyCuts(m, now, a, b);
  }

  /** Every token that reads so gets one verdict: bad signature, no payload, out of its window, or its payload. */
  lemma VerdictExactly(m: Signer, now: int, token: string, a: string, b: string)
    requires Reads(token, a, b)
    ensures Verify(m, now, token) == Err(BadSignature) <==> !Signed(m, a, b)
    ensures Verify(m, now, token) == Err(Malformed) <==> Signed(m, a, b) && forall p :: !Carries(m, a, p)
    ensures forall p :: Signed(m, a, b) && Carries(m, a, p) ==>
              && (Verify(m, now, token) == Err(Expired) <==> (p.expiresAt + 30) * 1_000_000_000 < now)
              && (Verify(m, now, token) == Err(NotYetValid) <==>
                    now <= (p.expiresAt + 30) * 1_000_000_000 && now < (p.issuedAt - 30) * 1_000_000_000)
    ensures forall p :: Verify(m, now, token) == Ok(p) <==> Signed(m, a, b) && Carries(m, a, p) && InWindow(p, now)
  {
    var sig, body := Decode(b), Decode(a);
    SignedIsJudged(m, now, token, a, b, sig, body);
    JudgedExactly(m, now, body);
    assert forall p :: Carries(m, a, p) == Holds(m, body, p);
  }

  /**
    Verification, exactly, for every token: it gives a payload if and only if the
    token reads as a body and the MAC of that body, the body decodes to the
    payload, and the time is in its window.  No other signature ever verifies.
   */
  lemma VerifiesExactly(m: Signer, now: int, token: string, p: Payload)
    ensures Verify(m, now, token) == Ok(p)
            <==> exists a, b :: Reads(token, a, b) && Signed(m, a, b) && Carries(m, a, p) && InWindow(p, now)
    ensures (forall a, b :: !Reads(token, a, b)) ==> Verify(m, now, token) == Err(Malformed)
  {
    if a, b :| Reads(token, a, b) {
      forall c, d | Reads(token, c, d) ensures c == a && d == b {
        ReadsOneWay(token, a, b, c, d);
      }
      VerdictExactly(m, now, token, a, b);
    } else {
      Unread(m, now, token);
    }
  }

  lemma ReadsOneWay(token: string, a: string, b: string, c: string, d: string)
    requires Reads(token, a, b) && Reads(token, c, d)
    ensures c == a && d == b
  {
    var x, y := a + "_" + b, c + "_" + d;
    assert token[|PREFIX|..] == x && token[|PREFIX|..] == y;
    assert x[|a|] == '_' && y[|c|] == '_';
    assert forall i :: 0 <= i < |a| ==> x[i] == a[i] && a[i] in a;
    assert forall i :: 0 <= i < |c| ==> y[i] == c[i] && c[i] in c;
    assert |a| == |c|;
    assert x[..|a|] == a && y[..|c|] == c && x[|a|+1..] == b && y[|c|+1..] == d;
  }

  /** What can be minted: a payload with its three names and an expiry after its issue; and the token reads back. */
  lemma MintsExactly(m: Signer, p: Payload)
    ensures Mint(m, p).Ok? <==>
              |p.workspaceID| > 0 && |p.providerSlug| > 0 && |p.baseURL| > 0 && p.issuedAt < p.expiresAt
    ensures Mint(m, p).Ok? ==>
              exists a, b :: Mint(m, p).value == PREFIX + (a + "_" + b)
                             && Decode(a) == Some(m.marshal(p)) && Decode(b) == Some(m.mac(a))
    ensures Mint(m, p).Err? ==> Mint(m, p).error == Malformed
  {
    var a := Encode(m.marshal(p));
    RoundTrip(m.marshal(p));
    RoundTrip(m.mac(a));
  }

  lemma VerifyNeedsBody(m: Signer, now: int, b: string)
    ensures Verify(m, now, PREFIX + ("_" + b)) == Err(Malformed)
  {
    assert (PREFIX + ("_" + b))[|PREFIX|..] == "_" + b;
  }

  lemma UnsplitBody(m: Signer, p: Payload, now: int, encoded: string)
    requires Lawful(m, p) && encoded == Encode(m.marshal(p)) && '_' !in encoded
    ensures Verify(m, now, PREFIX + (encoded + "_" + Encode(m.mac(encoded))))
         == Checked(m, now, encoded, Some(m.mac(encoded)))
  {
    VerifyCuts(m, now, encoded, Encode(m.mac(encoded)));
    RoundTrip(m.mac(encoded));
  }

  /** A body with an underscore is cut at its first one. */
  lemma CutAtFirst(encoded: string, sig: string) returns (a: string, piece: string)
    requires '_' in encoded
    ensures '_' !in a && (OneLine(encoded) ==> OneLine(piece)) && encoded + "_" + sig == a + "_" + (piece + "_" + sig)
  {
    var k := FirstUnderscore(encoded);
    a, piece := encoded[..k], encoded[k+1..];
    assert encoded == a + "_" + piece;
  }

  /** What follows the cut is too long to be a signature. */
  lemma RestIsNoSignature(m: Signer, p: Payload, now: int, a: string, piece: string, encoded: string)
    requires Lawful(m, p) && encoded == Encode(m.marshal(p)) && '_' !in a && OneLine(piece)
    ensures Verify(m, now, PREFIX + (a + "_" + (piece + "_" + Encode(m.mac(encoded))))).Err?
  {
    var rest := piece + "_" + Encode(m.mac(encoded));
    if a == "" {
      assert a + "_" + rest == "_" + rest;
      VerifyNeedsBody(m, now, rest);
    } else {
      LongSignature(Encode(m.mac(encoded)), piece);
      VerifyCuts(m, now, a, rest);
    }
  }

  lemma SplitBody(m: Signer, p: Payload, now: int, encoded: string)
    requires Lawful(m, p) && encoded == Encode(m.marshal(p)) && '_' in encoded
    ensures Verify(m, now, PREFIX + (encoded + "_" + Encode(m.mac(encoded)))).Err?
  {
    var a, piece := CutAtFirst(encoded, Encode(m.mac(encoded)));
    RestIsNoSignature(m, p, now, a, piece, encoded);
  }

  /** A minted token verifies back to its payload exactly inside its window and without '_' in its body. */
  lemma MintedTokenVerifies(m: Signer, p: Payload, now: int)
    requires Lawful(m, p) && Mint(m, p).Ok?
    ensures Verify(m, now, Mint(m, p).value) == Ok(p) <==> InWindow(p, now) && '_' !in Encode(m.marshal(p))
    ensures '_' in Encode(m.marshal(p)) ==> Verify(m, now, Mint(m, p).value).Err?
    ensures '_' !in Encode(m.marshal(p)) && !InWindow(p, now) ==>
              Verify(m, now, Mint(m, p).value) == Err(if now > p.expiresAt * SECOND + SKEW then Expired else NotYetValid)
  {
    var encoded := Encode(m.marshal(p));
    if '_' in encoded {
      SplitBody(m, p, now, encoded);
    } else {
      UnsplitBody(m, p, now, encoded);
      RoundTrip(m.marshal(p));
    }
  }

  /** For an ASCII body the side condition is about '?' and DEL at every third byte. */
  lemma AsciiTokenVerifies(m: Signer, p: Payload, now: int)
    requires Lawful(m, p) && Mint(m, p).Ok? && InWindow(p, now)
    requires forall i :: 0 <= i < |m.marshal(p)| ==> m.marshal(p)[i] < 128
    ensures Verify(m, now, Mint(m, p).value) == Ok(p)
            <==> forall i :: 0 <= i < |m.marshal(p)| && i % 3 == 2 ==> m.marshal(p)[i] != 63 && m.marshal(p)[i] != 127
  {
    MintedTokenVerifies(m, p, now);
    AsciiUnderscore(m.marshal(p));
  }
}
