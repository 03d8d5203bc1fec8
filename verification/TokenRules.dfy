/**
 When a token is issued, accepted or read (livekit-api/src/access_token.rs:154-158, 263-320), for tokens of any
 origin: the gate of `to_jwt` over chains of calls, and the rules of the verifier by the names of the claims.
 */
module TokenRules {
  import opened Wrappers
  import opened Base64
  import opened Json
  import opened Claims
  import opened CompactToken
  import opened TokenBuilder

  // ---------------------------------------------------------------- accepting

  /** The part is the base64url text of bytes that parse to `j`. */
  ghost predicate Reads<C>(w: World<C>, part: string, j: Json) {
    exists b :: part == EncodeUrl(b) && w.parse(b) == Some(j)
  }

  lemma ReadsIff<C>(w: World<C>, part: string, j: Json)
    ensures Reads(w, part, j) <==> ParsePart(w, part) == Some(j)
  {
    if ParsePart(w, part) == Some(j) {
      RawExact(UrlSafe, part, DecodeUrl(part).value);
    }
    if Reads(w, part, j) {
      var b :| part == EncodeUrl(b) && w.parse(b) == Some(j);
      RawExact(UrlSafe, part, b);
    }
  }

  /** `exp` is required and not past, `nbf` is missing or has come, up to the leeway. */
  ghost predicate InTime(leeway: nat, now: nat, fs: seq<Field>) {
    && (exists exp: int :: Get(fs, "exp") == One(JNum(exp)) && now <= exp + leeway)
    && (Get(fs, "nbf").Absent? || exists nbf: int :: Get(fs, "nbf") == One(JNum(nbf)) && nbf <= now + leeway)
  }

  /** The issuer is the verifier's key, or missing where that is allowed; no audience is named. */
  predicate FromIssuer(missingIssuerOk: bool, key: string, fs: seq<Field>) {
    && (Get(fs, "iss") == One(JStr(key)) || (missingIssuerOk && Get(fs, "iss").Absent?))
    && Get(fs, "aud").Absent?
  }

  lemma ValidNowIff(policy: Policy, key: string, now: nat, fs: seq<Field>)
    ensures ValidNow(policy, key, now, fs)
       <==> InTime(policy.leeway, now, fs) && FromIssuer(policy.missingIssuerOk, key, fs)
  {
  }

  /** A header that names this algorithm, one that the library knows. */
  ghost predicate NamesAlgorithm<C>(w: World<C>, header: string, alg: string) {
    alg in w.algorithms && exists hs :: Reads(w, header, JObj(hs)) && Get(hs, "alg") == One(JStr(alg))
  }

  lemma NamesIff<C>(w: World<C>, header: string, alg: string)
    ensures NamesAlgorithm(w, header, alg) <==> HeaderAlgorithm(w, header) == Some(alg)
  {
    if HeaderAlgorithm(w, header) == Some(alg) {
      var hs := ParsePart(w, header).value.fields;
      ReadsIff(w, header, JObj(hs));
    }
    if NamesAlgorithm(w, header, alg) {
      var hs :| Reads(w, header, JObj(hs)) && Get(hs, "alg") == One(JStr(alg));
      ReadsIff(w, header, JObj(hs));
    }
  }

  /** The three parts of the token, and the fields of its payload, which hold these claims. */
  ghost predicate Carries<C>(w: World<C>, token: string, p: Parts, fs: seq<Field>, c: Claims<C>) {
    && token == p.header + "." + p.payload + "." + p.signature && '.' !in p.payload && '.' !in p.signature
    && Reads(w, p.payload, JObj(fs)) && DecodeClaims(w.config, JObj(fs)) == Some(c)
  }

  lemma CarriesIff<C>(w: World<C>, token: string, p: Parts, fs: seq<Field>, c: Claims<C>)
    ensures Carries(w, token, p, fs, c)
       <==> && SplitCompact(token) == Some(p)
            && ParsePart(w, p.payload) == Some(JObj(fs))
            && PayloadClaims(w, p.payload) == Some(c)
  {
    SplitCompactExact(token, p);
    ReadsIff(w, p.payload, JObj(fs));
  }

  /** The signature is the text of the MAC over the first two parts. */
  predicate Signed<C>(w: World<C>, secret: string, p: Parts) {
    p.signature == EncodeUrl(w.mac(secret, p.header + "." + p.payload))
  }

  ghost predicate Acceptable<C>(w: World<C>, key: string, secret: string, policy: Policy, now: nat, token: string,
                                p: Parts, fs: seq<Field>, c: Claims<C>)
  {
    && Carries(w, token, p, fs, c)
    && NamesAlgorithm(w, p.header, "HS256")
    && Signed(w, secret, p)
    && InTime(policy.leeway, now, fs)
    && FromIssuer(policy.missingIssuerOk, key, fs)
  }

  /**
   A token of any origin is accepted with these claims exactly when it has three parts, an HS256 header, the
   signature of this secret, and a payload that holds the claims, is in time and names the issuer; every other
   token is refused.
   */
  lemma VerifiedIff<C(!new)>(w: World<C>, key: string, secret: string, policy: Policy, now: nat, token: string,
                             c: Claims<C>)
    ensures Verify(w, key, secret, policy, now, token) == Ok(c)
       <==> exists p, fs :: Acceptable(w, key, secret, policy, now, token, p, fs, c)
    ensures Verify(w, key, secret, policy, now, token).Err? ==>
              Verify(w, key, secret, policy, now, token) == Err(Encoding)
  {
    if Verify(w, key, secret, policy, now, token) == Ok(c) {
      VerifiedIsAcceptable(w, key, secret, policy, now, token, c);
    }
    if exists p, fs :: Acceptable(w, key, secret, policy, now, token, p, fs, c) {
      var p, fs :| Acceptable(w, key, secret, policy, now, token, p, fs, c);
      AcceptableIsVerified(w, key, secret, policy, now, token, p, fs, c);
    }
  }

  lemma SignedIff<C>(w: World<C>, secret: string, p: Parts)
    ensures Signed(w, secret, p) <==> DecodeUrl(p.signature) == Some(w.mac(secret, SigningInput(p.header, p.payload)))
  {
    RawExact(UrlSafe, p.signature, w.mac(secret, p.header + "." + p.payload));
  }

  lemma VerifiedIsAcceptable<C>(w: World<C>, key: string, secret: string, policy: Policy, now: nat, token: string,
                                c: Claims<C>)
    requires Verify(w, key, secret, policy, now, token) == Ok(c)
    ensures exists p, fs :: Acceptable(w, key, secret, policy, now, token, p, fs, c)
  {
    var p := SplitCompact(token).value;
    var fs := PayloadFields(w, p.payload);
    CarriesIff(w, token, p, fs, c);
    NamesIff(w, p.header, "HS256");
    SignedIff(w, secret, p);
    ValidNowIff(policy, key, now, fs);
    assert Acceptable(w, key, secret, policy, now, token, p, fs, c);
  }

  lemma AcceptableIsVerified<C>(w: World<C>, key: string, secret: string, policy: Policy, now: nat, token: string,
                                p: Parts, fs: seq<Field>, c: Claims<C>)
    requires Acceptable(w, key, secret, policy, now, token, p, fs, c)
    ensures Verify(w, key, secret, policy, now, token) == Ok(c)
  {
    CarriesIff(w, token, p, fs, c);
    NamesIff(w, p.header, "HS256");
    SignedIff(w, secret, p);
    ValidNowIff(policy, key, now, fs);
  }

  /** Reading without verifying needs the three parts, a header with a known algorithm and the claims, nothing else. */
  lemma ReadIff<C(!new)>(w: World<C>, token: string, c: Claims<C>)
    ensures FromUnverified(w, token) == Ok(c)
       <==> exists p, fs, alg :: Carries(w, token, p, fs, c) && NamesAlgorithm(w, p.header, alg)
    ensures FromUnverified(w, token).Err? ==> FromUnverified(w, token) == Err(Encoding)
  {
    if FromUnverified(w, token) == Ok(c) {
      var p := SplitCompact(token).value;
      var fs, alg := PayloadFields(w, p.payload), HeaderAlgorithm(w, p.header).value;
      CarriesIff(w, token, p, fs, c);
      NamesIff(w, p.header, alg);
      assert Carries(w, token, p, fs, c) && NamesAlgorithm(w, p.header, alg);
    }
    if exists p, fs, alg :: Carries(w, token, p, fs, c) && NamesAlgorithm(w, p.header, alg) {
      var p, fs, alg :| Carries(w, token, p, fs, c) && NamesAlgorithm(w, p.header, alg);
      CarriesIff(w, token, p, fs, c);
      NamesIff(w, p.header, alg);
    }
  }

  // ---------------------------------------------------------------- issuing

  /** What is issued: a JWT header for HS256, the claims, and the signature over both. */
  lemma IssuedToken<C(!new)>(w: World<C>, key: string, secret: string, c: Claims<C>, order: seq<string>, jwt: string)
    requires Lawful(w) && Enumerates(order, c.attributes) && forall k | k in order :: k in c.attributes
    requires ToJwt(w, key, secret, c, order) == Ok(jwt)
    ensures SplitCompact(jwt).Some?
    ensures var p := SplitCompact(jwt).value;
            && Reads(w, p.header, JObj([Field("typ", JStr("JWT")), Field("alg", JStr("HS256"))]))
            && Reads(w, p.payload, EncodeClaims(w.config, c, order))
            && Signed(w, secret, p)
  {
    var j := EncodeClaims(w.config, c, order);
    SignedSplits(w, secret, j);
    assert EncodeUrl(w.render(HEADER)) == EncodeUrl(w.render(HEADER)) && w.parse(w.render(HEADER)) == Some(HEADER);
    assert EncodeUrl(w.render(j)) == EncodeUrl(w.render(j)) && w.parse(w.render(j)) == Some(j);
  }

  /** The `i`-th call is the last of its kind. */
  predicate IsLast<C>(calls: seq<Call<C>>, i: nat) {
    i < |calls| && forall j | i < j < |calls| :: KindOf(calls[j]) != KindOf(calls[i])
  }

  predicate NoneOf<C>(calls: seq<Call<C>>, k: Kind) {
    forall i | 0 <= i < |calls| :: KindOf(calls[i]) != k
  }

  lemma {:induction false} LastOfMeaning<C>(calls: seq<Call<C>>, k: Kind, i: nat)
    ensures LastOf(calls, k).None? <==> NoneOf(calls, k)
    ensures IsLast(calls, i) && KindOf(calls[i]) == k ==> LastOf(calls, k) == Some(calls[i])
  {
    if calls != [] {
      var init := calls[..|calls| - 1];
      LastOfMeaning(init, k, i);
      assert forall j | 0 <= j < |init| :: init[j] == calls[j];
      if NoneOf(calls, k) {
        assert NoneOf(init, k);
      }
    }
  }

  lemma {:induction false} LastIndex<C>(calls: seq<Call<C>>, k: Kind) returns (i: nat)
    requires !NoneOf(calls, k)
    ensures IsLast(calls, i) && KindOf(calls[i]) == k
  {
    i := |calls| - 1;
    if KindOf(calls[i]) != k {
      var init := calls[..i];
      assert forall j | 0 <= j < |init| :: init[j] == calls[j];
      i := LastIndex(init, k);
    }
  }

  lemma BuiltVideo<C>(key: string, start: nat, calls: seq<Call<C>>, i: nat)
    requires Representable(start + DEFAULT_TTL) && CanCallAll(calls)
    ensures NoneOf(calls, KGrants) ==> Build(Initial(key, start), calls).video == DEFAULT_VIDEO
    ensures IsLast(calls, i) && calls[i].Grants? ==> Build(Initial(key, start), calls).video == calls[i].grants
  {
    LastOfMeaning(calls, KGrants, i);
    LastCallWins(Initial(key, start), calls, KGrants);
  }

  lemma BuiltSub<C>(key: string, start: nat, calls: seq<Call<C>>, i: nat)
    requires Representable(start + DEFAULT_TTL) && CanCallAll(calls)
    ensures NoneOf(calls, KIdentity) ==> Build(Initial(key, start), calls).sub == ""
    ensures IsLast(calls, i) && calls[i].Identity? ==> Build(Initial(key, start), calls).sub == calls[i].identity
  {
    LastOfMeaning(calls, KIdentity, i);
    LastCallWins(Initial(key, start), calls, KIdentity);
  }

  /** The last `with_identity` call gives a text. */
  predicate NamesIdentity<C>(calls: seq<Call<C>>) {
    exists i: nat :: i < |calls| && IsLast(calls, i) && calls[i].Identity? && calls[i].identity != ""
  }

  /** There is no `with_grants` call, or the last one asks for no join, or for one with a room and an identity. */
  predicate MayIssue<C>(calls: seq<Call<C>>) {
    || NoneOf(calls, KGrants)
    || exists i: nat :: i < |calls| && IsLast(calls, i) && calls[i].Grants?
         && (!calls[i].grants.roomJoin || (calls[i].grants.room != "" && NamesIdentity(calls)))
  }

  lemma SubOfChain<C>(key: string, start: nat, calls: seq<Call<C>>)
    requires Representable(start + DEFAULT_TTL) && CanCallAll(calls)
    ensures Build(Initial(key, start), calls).sub != "" <==> NamesIdentity(calls)
  {
    if NoneOf(calls, KIdentity) {
      BuiltSub(key, start, calls, 0);
    } else {
      var i := LastIndex(calls, KIdentity);
      BuiltSub(key, start, calls, i);
      if NamesIdentity(calls) {
        var j: nat :| j < |calls| && IsLast(calls, j) && calls[j].Identity? && calls[j].identity != "";
        BuiltSub(key, start, calls, j);
      }
    }
  }

  lemma JoinOfChain<C>(key: string, start: nat, calls: seq<Call<C>>)
    requires Representable(start + DEFAULT_TTL) && CanCallAll(calls)
    ensures var c := Build(Initial(key, start), calls);
            !c.video.roomJoin || (c.sub != "" && c.video.room != "") <==> MayIssue(calls)
  {
    SubOfChain(key, start, calls);
    if NoneOf(calls, KGrants) {
      BuiltVideo(key, start, calls, 0);
    } else {
      var i := LastIndex(calls, KGrants);
      BuiltVideo(key, start, calls, i);
      if MayIssue(calls) {
        var j: nat :| j < |calls| && IsLast(calls, j) && calls[j].Grants?
                      && (!calls[j].grants.roomJoin || (calls[j].grants.room != "" && NamesIdentity(calls)));
        BuiltVideo(key, start, calls, j);
      }
    }
  }

  /**
   The gate, over every chain of calls: empty keys are refused first, then a join without room or identity, and
   every other chain is issued.
   */
  lemma IssuableIff<C>(w: World<C>, key: string, secret: string, start: nat, calls: seq<Call<C>>, order: seq<string>,
                       c: Claims<C>)
    requires Representable(start + DEFAULT_TTL) && CanCallAll(calls) && c == Build(Initial(key, start), calls)
    requires forall k | k in order :: k in c.attributes
    ensures ToJwt(w, key, secret, c, order) == Err(InvalidKeys) <==> key == "" || secret == ""
    ensures ToJwt(w, key, secret, c, order) == Err(InvalidClaims) <==> key != "" && secret != "" && !MayIssue(calls)
    ensures ToJwt(w, key, secret, c, order).Ok? <==> key != "" && secret != "" && MayIssue(calls)
  {
    JoinOfChain(key, start, calls);
  }

  /** Whoever accepts an issued token that lets its holder join knows the holder and the room. */
  lemma JoinIsNamed<C(!new)>(w: World<C>, key: string, secret: string, c: Claims<C>, order: seq<string>, jwt: string,
                             key': string, secret': string, policy: Policy, now: nat, read: Claims<C>)
    requires Lawful(w) && Enumerates(order, c.attributes) && forall k | k in order :: k in c.attributes
    requires ToJwt(w, key, secret, c, order) == Ok(jwt)
    requires Verify(w, key', secret', policy, now, jwt) == Ok(read) && read.video.roomJoin
    ensures read.sub != "" && read.video.room != ""
  {
    IssuedTokenVerifies(w, secret, c, order, key', secret', policy, now);
  }
}
