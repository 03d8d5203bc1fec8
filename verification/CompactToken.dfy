/**
 Issuing and verifying access tokens (livekit-api/src/access_token.rs:154-158, 263-320): the gate in
 `to_jwt`, the three-part compact form (section 7.1 of RFC 7515), the verifier, and reading claims
 without verifying.
 */
module CompactToken {
  import opened Wrappers
  import opened Base64
  import opened Json
  import opened Claims

  datatype AccessTokenError = InvalidKeys | InvalidClaims | Encoding

  /** The foreign functions the token layer is built on. */
  datatype World<!C> = World(
    mac: (string, string) -> seq<Byte>,
    sha256: string -> seq<Byte>,
    render: Json -> seq<Byte>,
    parse: seq<Byte> -> Option<Json>,
    config: ConfigCodec<C>,
    algorithms: set<string>
  )

  /** Verification settings the library fixes: the clock leeway, and whether a token may lack `iss`. */
  datatype Policy = Policy(leeway: nat, missingIssuerOk: bool)

  // ---------------------------------------------------------------- the compact form

  /** Splits at the last dot. */
  function SplitLast(t: string): Option<(string, string)> {
    if t == [] then None
    else
      var init, last := t[..|t| - 1], t[|t| - 1];
      if last == '.' then Some((init, ""))
      else
        match SplitLast(init)
        case None => None
        case Some((a, b)) => Some((a, b + [last]))
  }

  lemma {:induction false} SplitLastExact(t: string, a: string, b: string)
    ensures SplitLast(t) == Some((a, b)) <==> t == a + "." + b && '.' !in b
  {
    if t != [] {
      var init, last := t[..|t| - 1], t[|t| - 1];
      assert t == init + [last];
      if b == [] {
        assert a + "." + b == a + ".";
        assert t == a + "." <==> init == a && last == '.';
      } else {
        var b' := b[..|b| - 1];
        assert b == b' + [b[|b| - 1]];
        assert a + "." + b == (a + "." + b') + [b[|b| - 1]];
        SplitLastExact(init, a, b');
      }
    }
  }

  datatype Parts = Parts(header: string, payload: string, signature: string)

  function Compact(p: Parts): string {
    p.header + "." + p.payload + "." + p.signature
  }

  function SplitCompact(t: string): Option<Parts> {
    match SplitLast(t)
    case None => None
    case Some((message, signature)) =>
      match SplitLast(message)
      case None => None
      case Some((header, payload)) => Some(Parts(header, payload, signature))
  }

  lemma SplitCompactExact(t: string, p: Parts)
    ensures SplitCompact(t) == Some(p) <==> t == Compact(p) && '.' !in p.payload && '.' !in p.signature
  {
    var message := p.header + "." + p.payload;
    SplitLastExact(t, message, p.signature);
    SplitLastExact(message, p.header, p.payload);
    if SplitCompact(t) == Some(p) {
      var m := SplitLast(t).value.0;
      SplitLastExact(m, p.header, p.payload);
      SplitLastExact(t, m, p.signature);
    }
  }

  // ---------------------------------------------------------------- issuing

  const HEADER: Json := JObj([Field("typ", JStr("JWT")), Field("alg", JStr("HS256"))])

  /** What was printed for `j` parses back to `j`. */
  predicate ReadsBack<C>(w: World<C>, j: Json) {
    w.parse(w.render(j)) == Some(j)
  }

  /**
   Assumed of the foreign functions: configurations round-trip, HS256 is a known algorithm, and the
   JSON texts of the header and of claims parse back. Nothing is assumed of any other JSON value.
   */
  ghost predicate Lawful<C(!new)>(w: World<C>) {
    && LawfulCodec(w.config)
    && "HS256" in w.algorithms
    && ReadsBack(w, HEADER)
    && forall c: Claims<C>, order | forall k | k in order :: k in c.attributes ::
         ReadsBack(w, EncodeClaims(w.config, c, order))
  }

  function SigningInput(header: string, payload: string): string {
    header + "." + payload
  }

  function Sign<C>(w: World<C>, secret: string, payload: Json): Parts {
    var h, p := EncodeUrl(w.render(HEADER)), EncodeUrl(w.render(payload));
    Parts(h, p, EncodeUrl(w.mac(secret, SigningInput(h, p))))
  }

  /** `to_jwt`; `order` is the order in which the attributes are iterated. */
  function ToJwt<C>(w: World<C>, key: string, secret: string, claims: Claims<C>, order: seq<string>)
    : Result<string, AccessTokenError>
    requires forall k | k in order :: k in claims.attributes
  {
    if key == [] || secret == [] then Err(InvalidKeys)
    else if claims.video.roomJoin && (claims.sub == [] || claims.video.room == []) then Err(InvalidClaims)
    else Ok(Compact(Sign(w, secret, EncodeClaims(w.config, claims, order))))
  }

  // ---------------------------------------------------------------- verifying

  function ParsePart<C>(w: World<C>, part: string): Option<Json> {
    match DecodeUrl(part)
    case None => None
    case Some(b) => w.parse(b)
  }

  /** The algorithm a header names, if it is a header. */
  function HeaderAlgorithm<C>(w: World<C>, part: string): Option<string> {
    match ParsePart(w, part)
    case Some(JObj(fs)) =>
      (match Get(fs, "alg")
       case One(JStr(alg)) => if alg in w.algorithms then Some(alg) else None
       case _ => None)
    case _ => None
  }

  /**
   Registered claims: `exp` is required and not past (section 4.1.4 of RFC 7519), `nbf` is not
   ahead (4.1.5), `iss` is the verifier's key (4.1.1), and no audience is named (4.1.3).
   */
  predicate ValidNow(policy: Policy, key: string, now: nat, fs: seq<Field>) {
    && (match Get(fs, "exp") case One(JNum(exp)) => now <= exp + policy.leeway case _ => false)
    && (match Get(fs, "nbf") case One(JNum(nbf)) => nbf <= now + policy.leeway case Absent => true case _ => false)
    && (match Get(fs, "iss") case One(JStr(iss)) => iss == key case Absent => policy.missingIssuerOk case _ => false)
    && Get(fs, "aud").Absent?
  }

  /** The claims in a payload part, if it holds claims. */
  function PayloadClaims<C>(w: World<C>, part: string): Option<Claims<C>> {
    match ParsePart(w, part)
    case None => None
    case Some(j) => DecodeClaims(w.config, j)
  }

  /** The fields of a payload part. */
  function PayloadFields<C>(w: World<C>, part: string): seq<Field> {
    match ParsePart(w, part)
    case Some(JObj(fs)) => fs
    case _ => []
  }

  function Verify<C>(w: World<C>, key: string, secret: string, policy: Policy, now: nat, token: string)
    : Result<Claims<C>, AccessTokenError>
  {
    match SplitCompact(token)
    case None => Err(Encoding)
    case Some(p) =>
      if HeaderAlgorithm(w, p.header) != Some("HS256") then Err(Encoding)
      else if DecodeUrl(p.signature) != Some(w.mac(secret, SigningInput(p.header, p.payload))) then Err(Encoding)
      else
        match PayloadClaims(w, p.payload)
        case None => Err(Encoding)
        case Some(claims) =>
          if ValidNow(policy, key, now, PayloadFields(w, p.payload)) then Ok(claims) else Err(Encoding)
  }

  /** `Claims::from_unverified`: the same parsing, without signature and without validation. */
  function FromUnverified<C>(w: World<C>, token: string): Result<Claims<C>, AccessTokenError> {
    match SplitCompact(token)
    case None => Err(Encoding)
    case Some(p) =>
      if HeaderAlgorithm(w, p.header).None? then Err(Encoding)
      else
        match PayloadClaims(w, p.payload)
        case None => Err(Encoding)
        case Some(claims) => Ok(claims)
  }

  // ---------------------------------------------------------------- issued tokens

  /** The other secret yields the same MAC for the message in question. */
  predicate SameMac<C>(w: World<C>, secret: string, secret': string, payload: Json) {
    var p := Sign(w, secret, payload);
    w.mac(secret', SigningInput(p.header, p.payload)) == w.mac(secret, SigningInput(p.header, p.payload))
  }

  lemma PartParses<C>(w: World<C>, j: Json)
    requires ReadsBack(w, j)
    ensures ParsePart(w, EncodeUrl(w.render(j))) == Some(j) && '.' !in EncodeUrl(w.render(j))
  {
    RawExact(UrlSafe, EncodeUrl(w.render(j)), w.render(j));
    EncodeRawShape(UrlSafe, w.render(j));
  }

  lemma HeaderIsHs256<C>(w: World<C>)
    requires ReadsBack(w, HEADER) && "HS256" in w.algorithms
    ensures HeaderAlgorithm(w, EncodeUrl(w.render(HEADER))) == Some("HS256")
  {
    PartParses(w, HEADER);
    var fs := HEADER.fields;
    assert fs[0].key[0] != "alg"[0];
    assert fs[1..] == [Field("alg", JStr("HS256"))];
    assert Get(fs[1..], "alg") == One(JStr("HS256"));
  }

  lemma SignedSplits<C>(w: World<C>, secret: string, j: Json)
    requires ReadsBack(w, j)
    ensures SplitCompact(Compact(Sign(w, secret, j))) == Some(Sign(w, secret, j))
  {
    var p := Sign(w, secret, j);
    PartParses(w, j);
    EncodeRawShape(UrlSafe, w.mac(secret, SigningInput(p.header, p.payload)));
    SplitCompactExact(Compact(p), p);
  }

  /** What the validator finds in the claims that were written. */
  lemma RegisteredClaims<C(!new)>(w: World<C>, c: Claims<C>, order: seq<string>, policy: Policy, key: string, now: nat)
    requires forall k | k in order :: k in c.attributes
    ensures ValidNow(policy, key, now, EncodeClaims(w.config, c, order).fields)
       <==> c.iss == key && c.nbf <= now + policy.leeway && now <= c.exp + policy.leeway
  {
    var spec, vs := ClaimsSpec(w.config), ClaimsValues(w.config, c, order);
    ClaimKeysDistinct(w.config);
    GetEncoded(spec, vs, 0);
    GetEncoded(spec, vs, 1);
    GetEncoded(spec, vs, 2);
    AudienceIsNoClaim(w.config);
    GetMissing(spec, vs, "aud");
  }

  lemma AudienceIsNoClaim<C>(cc: ConfigCodec<C>)
    ensures forall i | 0 <= i < 11 :: ClaimsSpec(cc)[i].key != "aud"
  {
    forall i: nat | i < 11 ensures ClaimField(cc, i).key != "aud" {
      assert |ClaimField(cc, i).key| == 3 ==> ClaimField(cc, i).key[0] != 'a';
    }
  }

  /** The parts of a signed token are what verification looks for, up to the MAC. */
  lemma SignedParts<C>(w: World<C>, secret: string, j: Json, secret': string)
    requires ReadsBack(w, HEADER) && ReadsBack(w, j) && "HS256" in w.algorithms
    ensures var p := Sign(w, secret, j);
            && SplitCompact(Compact(p)) == Some(p)
            && HeaderAlgorithm(w, p.header) == Some("HS256")
            && ParsePart(w, p.payload) == Some(j)
            && (DecodeUrl(p.signature) == Some(w.mac(secret', SigningInput(p.header, p.payload)))
                <==> SameMac(w, secret, secret', j))
  {
    var p := Sign(w, secret, j);
    SignedSplits(w, secret, j);
    HeaderIsHs256(w);
    PartParses(w, j);
    RawExact(UrlSafe, p.signature, w.mac(secret, SigningInput(p.header, p.payload)));
  }

  /**
   An issued token is accepted exactly by a verifier whose secret gives the same MAC, whose key is
   the issuer, and whose clock is within the leeway of [nbf, exp]; it then yields exactly the claims
   that were issued.
   */
  lemma IssuedTokenVerifies<C(!new)>(w: World<C>, secret: string, c: Claims<C>, order: seq<string>,
                                     key: string, secret': string, policy: Policy, now: nat)
    requires Lawful(w) && Enumerates(order, c.attributes)
    ensures forall k | k in order :: k in c.attributes
    ensures Verify(w, key, secret', policy, now, Compact(Sign(w, secret, EncodeClaims(w.config, c, order))))
         == if && c.iss == key && c.nbf <= now + policy.leeway && now <= c.exp + policy.leeway
               && SameMac(w, secret, secret', EncodeClaims(w.config, c, order))
            then Ok(c) else Err(Encoding)
  {
    StringMapBack(order, c.attributes);
    var j := EncodeClaims(w.config, c, order);
    SignedParts(w, secret, j, secret');
    ClaimsRoundTrip(w.config, c, order);
    RegisteredClaims(w, c, order, policy, key, now);
  }

  // ---------------------------------------------------------------- accepted tokens

  /**
   An accepted token carries the one signature text for its message, and its claims are those that
   reading it without verifying gives.
   */
  lemma AcceptedIsSigned<C>(w: World<C>, key: string, secret: string, policy: Policy, now: nat, token: string)
    requires Verify(w, key, secret, policy, now, token).Ok?
    ensures FromUnverified(w, token) == Verify(w, key, secret, policy, now, token)
    ensures SplitCompact(token).Some?
    ensures token == Compact(SplitCompact(token).value) && SignedBy(w, secret, SplitCompact(token).value)
  {
    var p := SplitCompact(token).value;
    AcceptedParts(w, key, secret, policy, now, token);
    SplitCompactExact(token, p);
    RawExact(UrlSafe, p.signature, w.mac(secret, SigningInput(p.header, p.payload)));
  }

  /** The third part is the text of the MAC of the first two. */
  predicate SignedBy<C>(w: World<C>, secret: string, p: Parts) {
    p.signature == EncodeUrl(w.mac(secret, SigningInput(p.header, p.payload)))
  }

  lemma AcceptedParts<C>(w: World<C>, key: string, secret: string, policy: Policy, now: nat, token: string)
    requires Verify(w, key, secret, policy, now, token).Ok?
    ensures SplitCompact(token).Some?
    ensures FromUnverified(w, token) == Verify(w, key, secret, policy, now, token)
    ensures var p := SplitCompact(token).value;
            DecodeUrl(p.signature) == Some(w.mac(secret, SigningInput(p.header, p.payload)))
  {
  }

  /** Of all tokens with the same first two parts, at most one text is accepted. */
  lemma AcceptedTextUnique<C>(w: World<C>, secret: string, key1: string, key2: string, policy1: Policy, policy2: Policy,
                              now1: nat, now2: nat, token1: string, token2: string)
    requires Verify(w, key1, secret, policy1, now1, token1).Ok? && Verify(w, key2, secret, policy2, now2, token2).Ok?
    requires SplitCompact(token1).Some? && SplitCompact(token2).Some?
    requires SplitCompact(token1).value.header == SplitCompact(token2).value.header
    requires SplitCompact(token1).value.payload == SplitCompact(token2).value.payload
    ensures token1 == token2
  {
    AcceptedIsSigned(w, key1, secret, policy1, now1, token1);
    AcceptedIsSigned(w, key2, secret, policy2, now2, token2);
  }

  /** Reading without verifying never looks at the third part. */
  lemma UnverifiedIgnoresSignature<C>(w: World<C>, header: string, payload: string, s1: string, s2: string)
    requires '.' !in s1 && '.' !in s2
    ensures FromUnverified(w, Compact(Parts(header, payload, s1)))
         == FromUnverified(w, Compact(Parts(header, payload, s2)))
  {
    SplitLastExact(Compact(Parts(header, payload, s1)), header + "." + payload, s1);
    SplitLastExact(Compact(Parts(header, payload, s2)), header + "." + payload, s2);
  }

  /** An issued token can be read back without any key. */
  lemma IssuedTokenReads<C(!new)>(w: World<C>, secret: string, c: Claims<C>, order: seq<string>)
    requires Lawful(w) && Enumerates(order, c.attributes)
    ensures forall k | k in order :: k in c.attributes
    ensures FromUnverified(w, Compact(Sign(w, secret, EncodeClaims(w.config, c, order)))) == Ok(c)
  {
    IssuedTokenVerifies(w, secret, c, order, c.iss, secret, Policy(c.nbf, false), c.exp);
    StringMapBack(order, c.attributes);
    var token := Compact(Sign(w, secret, EncodeClaims(w.config, c, order)));
    AcceptedIsSigned(w, c.iss, secret, Policy(c.nbf, false), c.exp, token);
  }
}
