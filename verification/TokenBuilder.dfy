/**
 The token builder (livekit-api/src/access_token.rs:161-282): which claims a chain of `with_*` calls
 leaves, and that a token built by any chain is accepted for as long as it claims to be valid.
 Instants and durations are in nanoseconds since the epoch; claims hold whole seconds.
 */
module TokenBuilder {
  import opened Wrappers
  import opened Json
  import opened Claims
  import opened CompactToken

  const NANOS_PER_SECOND: nat := 1_000_000_000

  /** Six hours. */
  const DEFAULT_TTL: nat := 6 * 3600 * NANOS_PER_SECOND

  function Seconds(t: nat): nat {
    t / NANOS_PER_SECOND
  }

  /** The instant fits the clock's 64-bit seconds; adding a duration beyond that panics. */
  predicate Representable(t: nat) {
    Seconds(t) < 0x1_0000_0000_0000_0000
  }

  lemma RepresentableIff(t: nat)
    ensures Representable(t) <==> t < 18446744073709551616 * 1_000_000_000
  {
  }

  /** One builder call; a `Ttl` call reads the clock. */
  datatype Call<C> =
    | Ttl(now: nat, ttl: nat)
    | Grants(grants: VideoGrants)
    | Sip(sip: SipGrants)
    | Identity(identity: string)
    | DisplayName(name: string)
    | Metadata(metadata: string)
    | Attributes(pairs: seq<(string, string)>)
    | Sha256(sha256: string)
    | RoomConfig(config: C)

  predicate CanCall<C>(call: Call<C>) {
    call.Ttl? ==> Representable(call.now + call.ttl)
  }

  /** Collecting pairs into a hash map. */
  function Collect(pairs: seq<(string, string)>): map<string, string> {
    if pairs == [] then map[]
    else Collect(pairs[..|pairs| - 1])[pairs[|pairs| - 1].0 := pairs[|pairs| - 1].1]
  }

  function Initial<C>(key: string, now: nat): Claims<C>
    requires Representable(now + DEFAULT_TTL)
  {
    Claims(Seconds(now + DEFAULT_TTL), key, Seconds(now), "", "", DEFAULT_VIDEO, DEFAULT_SIP, "", "", map[], None)
  }

  function Apply<C>(c: Claims<C>, call: Call<C>): Claims<C>
    requires CanCall(call)
  {
    match call
    case Ttl(now, ttl) => c.(exp := Seconds(now + ttl))
    case Grants(g) => c.(video := g)
    case Sip(g) => c.(sip := g)
    case Identity(s) => c.(sub := s)
    case DisplayName(s) => c.(name := s)
    case Metadata(s) => c.(metadata := s)
    case Attributes(pairs) => c.(attributes := Collect(pairs))
    case Sha256(s) => c.(sha256 := s)
    case RoomConfig(x) => c.(roomConfig := Some(x))
  }

  /** The kinds of calls, one for each claim that can be set. */
  datatype Kind = KTtl | KGrants | KSip | KIdentity | KName | KMetadata | KAttributes | KSha256 | KRoomConfig

  /** The two claims agree on the field that calls of this kind set. */
  predicate SameField<C(==)>(k: Kind, a: Claims<C>, b: Claims<C>) {
    match k
    case KTtl => a.exp == b.exp
    case KGrants => a.video == b.video
    case KSip => a.sip == b.sip
    case KIdentity => a.sub == b.sub
    case KName => a.name == b.name
    case KMetadata => a.metadata == b.metadata
    case KAttributes => a.attributes == b.attributes
    case KSha256 => a.sha256 == b.sha256
    case KRoomConfig => a.roomConfig == b.roomConfig
  }

  /** Nothing but the claim that calls of this kind set has changed. */
  ghost predicate OthersKept<C(!new)>(k: Kind, before: Claims<C>, after: Claims<C>) {
    && after.iss == before.iss && after.nbf == before.nbf
    && forall other | other != k :: SameField(other, before, after)
  }

  predicate CanCallAll<C>(calls: seq<Call<C>>) {
    forall i | 0 <= i < |calls| :: CanCall(calls[i])
  }

  function Build<C>(c: Claims<C>, calls: seq<Call<C>>): Claims<C>
    requires CanCallAll(calls)
  {
    if calls == [] then c
    else Apply(Build(c, calls[..|calls| - 1]), calls[|calls| - 1])
  }

  class AccessToken<C(!new)> {
    const apiKey: string
    const apiSecret: string
    var claims: Claims<C>

    constructor WithApiKey(key: string, secret: string, now: nat)
      requires Representable(now + DEFAULT_TTL)
      ensures apiKey == key && apiSecret == secret && claims == Initial(key, now)
      ensures claims.iss == key && claims.nbf * 1_000_000_000 <= now < (claims.nbf + 1) * 1_000_000_000
      ensures claims.exp == claims.nbf + 21600
      ensures claims.sub == "" && claims.name == "" && claims.sha256 == "" && claims.metadata == ""
      ensures claims.video == VideoGrants(
                false, false, false, false, false, "", "", true, true, true, [], false, false, false, false)
      ensures claims.sip == SipGrants(false, false) && claims.attributes == map[] && claims.roomConfig == None
    {
      apiKey, apiSecret := key, secret;
      claims := Claims(
        Seconds(now + DEFAULT_TTL), key, Seconds(now), "", "", DEFAULT_VIDEO, DEFAULT_SIP, "", "", map[], None);
    }

    method WithTtl(now: nat, ttl: nat)
      requires Representable(now + ttl)
      modifies this`claims
      ensures claims.exp * 1_000_000_000 <= now + ttl < (claims.exp + 1) * 1_000_000_000
      ensures OthersKept(KTtl, old(claims), claims)
      ensures claims == Apply(old(claims), Ttl(now, ttl))
    {
      var time := now + ttl;
      claims := claims.(exp := Seconds(time));
    }

    method WithGrants(grants: VideoGrants)
      modifies this`claims
      ensures claims.video == grants
      ensures OthersKept(KGrants, old(claims), claims)
      ensures claims == Apply(old(claims), Grants(grants))
    {
      claims := claims.(video := grants);
    }

    method WithSipGrants(grants: SipGrants)
      modifies this`claims
      ensures claims.sip == grants
      ensures OthersKept(KSip, old(claims), claims)
      ensures claims == Apply(old(claims), Sip(grants))
    {
      claims := claims.(sip := grants);
    }

    method WithIdentity(identity: string)
      modifies this`claims
      ensures claims.sub == identity
      ensures OthersKept(KIdentity, old(claims), claims)
      ensures claims == Apply(old(claims), Identity(identity))
    {
      claims := claims.(sub := identity);
    }

    method WithName(name: string)
      modifies this`claims
      ensures claims.name == name
      ensures OthersKept(KName, old(claims), claims)
      ensures claims == Apply(old(claims), DisplayName(name))
    {
      claims := claims.(name := name);
    }

    method WithMetadata(metadata: string)
      modifies this`claims
      ensures claims.metadata == metadata
      ensures OthersKept(KMetadata, old(claims), claims)
      ensures claims == Apply(old(claims), Metadata(metadata))
    {
      claims := claims.(metadata := metadata);
    }

    method WithAttributes(attributes: seq<(string, string)>)
      modifies this`claims
      ensures claims.attributes == Collect(attributes)
      ensures OthersKept(KAttributes, old(claims), claims)
      ensures claims == Apply(old(claims), Attributes(attributes))
    {
      var collected: map<string, string> := map[];
      for i := 0 to |attributes|
        invariant collected == Collect(attributes[..i])
      {
        collected := collected[attributes[i].0 := attributes[i].1];
        assert attributes[..i + 1][..i] == attributes[..i];
      }
      assert attributes[..|attributes|] == attributes;
      claims := claims.(attributes := collected);
    }

    method WithSha256(sha256: string)
      modifies this`claims
      ensures claims.sha256 == sha256
      ensures OthersKept(KSha256, old(claims), claims)
      ensures claims == Apply(old(claims), Sha256(sha256))
    {
      claims := claims.(sha256 := sha256);
    }

    method WithRoomConfig(config: C)
      modifies this`claims
      ensures claims.roomConfig == Some(config)
      ensures OthersKept(KRoomConfig, old(claims), claims)
      ensures claims == Apply(old(claims), RoomConfig(config))
    {
      claims := claims.(roomConfig := Some(config));
    }

    method IntoJwt(w: World<C>, order: seq<string>) returns (r: Result<string, AccessTokenError>)
      requires Enumerates(order, claims.attributes)
      ensures forall k | k in order :: k in claims.attributes
      ensures r == ToJwt(w, apiKey, apiSecret, claims, order)
      ensures r == Err(InvalidKeys) <==> apiKey == "" || apiSecret == ""
      ensures r == Err(InvalidClaims) <==> apiKey != "" && apiSecret != "" && claims.video.roomJoin
                                           && (claims.sub == "" || claims.video.room == "")
    {
      StringMapBack(order, claims.attributes);
      r := ToJwt(w, apiKey, apiSecret, claims, order);
    }
  }

  // ---------------------------------------------------------------- what a chain leaves

  /** A repeated attribute key keeps the value of its last pair. */
  lemma {:induction false} CollectKeepsLast(pairs: seq<(string, string)>, i: nat)
    requires i < |pairs| && forall j | i < j < |pairs| :: pairs[j].0 != pairs[i].0
    ensures pairs[i].0 in Collect(pairs) && Collect(pairs)[pairs[i].0] == pairs[i].1
  {
    if i < |pairs| - 1 {
      CollectKeepsLast(pairs[..|pairs| - 1], i);
    }
  }

  lemma {:induction false} CollectKeys(pairs: seq<(string, string)>, k: string)
    ensures k in Collect(pairs) <==> exists i :: 0 <= i < |pairs| && pairs[i].0 == k
  {
    if pairs != [] {
      var init := pairs[..|pairs| - 1];
      CollectKeys(init, k);
      assert forall i | 0 <= i < |init| :: init[i] == pairs[i];
    }
  }

  function KindOf<C>(call: Call<C>): Kind {
    match call
    case Ttl(_, _) => KTtl
    case Grants(_) => KGrants
    case Sip(_) => KSip
    case Identity(_) => KIdentity
    case DisplayName(_) => KName
    case Metadata(_) => KMetadata
    case Attributes(_) => KAttributes
    case Sha256(_) => KSha256
    case RoomConfig(_) => KRoomConfig
  }

  function LastOf<C>(calls: seq<Call<C>>, k: Kind): Option<Call<C>> {
    if calls == [] then None
    else if KindOf(calls[|calls| - 1]) == k then Some(calls[|calls| - 1])
    else LastOf(calls[..|calls| - 1], k)
  }

  /** What the last call of a kind makes of its field, from any starting point. */
  function ByLastCall<C>(c: Claims<C>, calls: seq<Call<C>>, k: Kind): Claims<C>
    requires CanCallAll(calls)
  {
    LastIsCall(calls, k);
    match LastOf(calls, k)
    case None => c
    case Some(call) => Apply(c, call)
  }

  lemma {:induction false} LastIsCall<C>(calls: seq<Call<C>>, k: Kind)
    requires CanCallAll(calls)
    ensures LastOf(calls, k).Some? ==> CanCall(LastOf(calls, k).value) && KindOf(LastOf(calls, k).value) == k
  {
    if calls != [] {
      LastIsCall(calls[..|calls| - 1], k);
    }
  }

  lemma OneFieldPerCall<C>(a: Claims<C>, b: Claims<C>, call: Call<C>, k: Kind)
    requires CanCall(call)
    ensures KindOf(call) != k ==> SameField(k, Apply(a, call), a)
    ensures KindOf(call) == k ==> SameField(k, Apply(a, call), Apply(b, call))
    ensures Apply(a, call).iss == a.iss && Apply(a, call).nbf == a.nbf
  {
  }

  /** Every field ends as its last call left it, or as it began; issuer and start of validity never move. */
  lemma {:induction false} LastCallWins<C>(c: Claims<C>, calls: seq<Call<C>>, k: Kind)
    requires CanCallAll(calls)
    ensures SameField(k, Build(c, calls), ByLastCall(c, calls, k))
    ensures Build(c, calls).iss == c.iss && Build(c, calls).nbf == c.nbf
  {
    if calls != [] {
      var init, call := calls[..|calls| - 1], calls[|calls| - 1];
      LastCallWins(c, init, k);
      OneFieldPerCall(Build(c, init), c, call, k);
    }
  }

  lemma FieldsDetermine<C>(a: Claims<C>, b: Claims<C>)
    requires a.iss == b.iss && a.nbf == b.nbf && forall k :: SameField(k, a, b)
    ensures a == b
  {
    assert SameField(KTtl, a, b) && SameField(KGrants, a, b) && SameField(KSip, a, b);
    assert SameField(KIdentity, a, b) && SameField(KName, a, b) && SameField(KMetadata, a, b);
    assert SameField(KAttributes, a, b) && SameField(KSha256, a, b) && SameField(KRoomConfig, a, b);
  }

  /** Two chains with the same last call of every kind build the same claims; order across kinds never matters. */
  lemma ChainsAgree<C>(c: Claims<C>, calls1: seq<Call<C>>, calls2: seq<Call<C>>)
    requires CanCallAll(calls1) && CanCallAll(calls2)
    requires forall k :: LastOf(calls1, k) == LastOf(calls2, k)
    ensures Build(c, calls1) == Build(c, calls2)
  {
    LastCallWins(c, calls1, KTtl);
    LastCallWins(c, calls2, KTtl);
    forall k ensures SameField(k, Build(c, calls1), Build(c, calls2)) {
      LastCallWins(c, calls1, k);
      LastCallWins(c, calls2, k);
    }
    FieldsDetermine(Build(c, calls1), Build(c, calls2));
  }

  /** If the clock never runs backwards from the moment of creation, validity never ends before it starts. */
  lemma {:induction false} ValidityIsAnInterval<C>(key: string, start: nat, calls: seq<Call<C>>)
    requires Representable(start + DEFAULT_TTL) && CanCallAll(calls)
    requires forall i | 0 <= i < |calls| && calls[i].Ttl? :: start <= calls[i].now
    ensures Build(Initial(key, start), calls).nbf == Seconds(start) <= Build(Initial(key, start), calls).exp
  {
    if calls != [] {
      ValidityIsAnInterval(key, start, calls[..|calls| - 1]);
    }
  }

  // ---------------------------------------------------------------- issue, then verify

  /**
   For every chain of calls whose token can be issued: a verifier with the same key and secret
   accepts it throughout [nbf, exp], under any policy, and returns exactly the built claims; a
   verifier with another key never accepts it.
   */
  lemma IssueThenVerify<C(!new)>(w: World<C>, key: string, secret: string, start: nat, calls: seq<Call<C>>,
                                 order: seq<string>, c: Claims<C>, jwt: string, policy: Policy, now: nat, other: string)
    requires Lawful(w) && Representable(start + DEFAULT_TTL) && CanCallAll(calls)
    requires c == Build(Initial(key, start), calls)
    requires Enumerates(order, c.attributes) && forall k | k in order :: k in c.attributes
    requires ToJwt(w, key, secret, c, order) == Ok(jwt)
    ensures c.nbf <= now <= c.exp ==> Verify(w, key, secret, policy, now, jwt) == Ok(c)
    ensures other != key ==> Verify(w, other, secret, policy, now, jwt) == Err(Encoding)
    ensures FromUnverified(w, jwt) == Ok(c)
  {
    LastCallWins(Initial(key, start), calls, KTtl);
    IssuedTokenVerifies(w, secret, c, order, key, secret, policy, now);
    IssuedTokenVerifies(w, secret, c, order, other, secret, policy, now);
    IssuedTokenReads(w, secret, c, order);
  }

  /** The digest claim is that of the last `with_sha256` call. */
  lemma LastDigest<C>(c: Claims<C>, calls: seq<Call<C>>, digest: string)
    requires CanCallAll(calls) && LastOf(calls, KSha256) == Some(Sha256(digest))
    ensures Build(c, calls).sha256 == digest
  {
    LastCallWins(c, calls, KSha256);
  }
}
