/**
 Receiving a webhook (livekit-api/src/webhooks.rs:23-62): authorize, compare the body's digest with
 the one in the token, parse.
 */
module Webhook {
  import opened Wrappers
  import opened Base64
  import opened Json
  import opened Claims
  import opened CompactToken
  import opened TokenBuilder

  datatype WebhookError = InvalidAuth(cause: AccessTokenError) | InvalidBase64 | InvalidSignature | InvalidData

  /** What follows authorization; `parse` reads an event from a body. */
  function CheckBody<C, E>(w: World<C>, parse: string -> Option<E>, claims: Claims<C>, body: string)
    : Result<E, WebhookError>
  {
    match DecodePadded(claims.sha256)
    case None => Err(InvalidBase64)
    case Some(claimHash) =>
      if claimHash != w.sha256(body) then Err(InvalidSignature)
      else
        match parse(body)
        case None => Err(InvalidData)
        case Some(event) => Ok(event)
  }

  function Receive<C, E>(w: World<C>, parse: string -> Option<E>, key: string, secret: string, policy: Policy, now: nat,
                         body: string, authToken: string): Result<E, WebhookError>
  {
    match Verify(w, key, secret, policy, now, authToken)
    case Err(e) => Err(InvalidAuth(e))
    case Ok(claims) => CheckBody(w, parse, claims, body)
  }

  /** The digest claim vouches for a body exactly when it is the canonical base64 text of the body's digest. */
  predicate Vouches<C>(w: World<C>, claims: Claims<C>, body: string) {
    claims.sha256 == EncodePadded(w.sha256(body))
  }

  /** The text is no encoding at all. */
  ghost predicate NotBase64(text: string) {
    forall b :: text != EncodePadded(b)
  }

  lemma NotBase64Iff(text: string)
    ensures NotBase64(text) <==> DecodePadded(text).None?
  {
    if DecodePadded(text).Some? {
      PaddedExact(text, DecodePadded(text).value);
    } else {
      forall b ensures text != EncodePadded(b) {
        PaddedExact(text, b);
      }
    }
  }

  /** For authorized claims: first base64, then the digest, then the data. */
  lemma CheckedInOrder<C, E>(w: World<C>, parse: string -> Option<E>, claims: Claims<C>, body: string)
    ensures CheckBody(w, parse, claims, body)
         == if NotBase64(claims.sha256) then Err(InvalidBase64)
            else if !Vouches(w, claims, body) then Err(InvalidSignature)
            else match parse(body) case None => Err(InvalidData) case Some(event) => Ok(event)
  {
    NotBase64Iff(claims.sha256);
    PaddedExact(claims.sha256, w.sha256(body));
  }

  /**
   A body is delivered exactly when the token verifies, its digest claim is the body's digest, and
   the body parses; and then it is delivered as parsed.
   */
  lemma DeliveredIff<C, E>(w: World<C>, parse: string -> Option<E>, key: string, secret: string,
                           policy: Policy, now: nat, body: string, authToken: string, event: E)
    ensures Receive(w, parse, key, secret, policy, now, body, authToken) == Ok(event)
       <==> match Verify(w, key, secret, policy, now, authToken)
            case Err(_) => false
            case Ok(claims) => Vouches(w, claims, body) && parse(body) == Some(event)
  {
    match Verify(w, key, secret, policy, now, authToken) {
      case Err(_) =>
      case Ok(claims) =>
        CheckedInOrder(w, parse, claims, body);
    }
  }

  /** The whole order: authorization with its own error, base64, digest, data. */
  lemma ReceivedInOrder<C, E>(w: World<C>, parse: string -> Option<E>, key: string, secret: string,
                              policy: Policy, now: nat, body: string, authToken: string)
    ensures Receive(w, parse, key, secret, policy, now, body, authToken)
         == match Verify(w, key, secret, policy, now, authToken)
            case Err(e) => Err(InvalidAuth(e))
            case Ok(claims) =>
              if NotBase64(claims.sha256) then Err(InvalidBase64)
              else if claims.sha256 != EncodePadded(w.sha256(body)) then Err(InvalidSignature)
              else match parse(body) case None => Err(InvalidData) case Some(event) => Ok(event)
  {
    match Verify(w, key, secret, policy, now, authToken) {
      case Err(_) =>
      case Ok(claims) =>
        CheckedInOrder(w, parse, claims, body);
    }
  }

  /**
   Round trip: a token built for a body, by any chain of calls whose last digest is the body's,
   delivers exactly what that body parses to while it is valid; for every other body with a different
   digest the same token is refused as a bad signature.
   */
  lemma WebhookRoundTrip<C(!new), E>(w: World<C>, parse: string -> Option<E>, key: string, secret: string, start: nat,
                                     calls: seq<Call<C>>, order: seq<string>, c: Claims<C>, jwt: string,
                                     policy: Policy, now: nat, body: string, received: string)
    requires Lawful(w) && Representable(start + DEFAULT_TTL) && CanCallAll(calls)
    requires c == Build(Initial(key, start), calls) && Enumerates(order, c.attributes)
    requires LastOf(calls, KSha256) == Some(Sha256(EncodePadded(w.sha256(body))))
    requires forall k | k in order :: k in c.attributes
    requires ToJwt(w, key, secret, c, order) == Ok(jwt) && c.nbf <= now <= c.exp
    ensures Receive(w, parse, key, secret, policy, now, received, jwt)
         == if w.sha256(received) != w.sha256(body) then Err(InvalidSignature)
            else match parse(received) case None => Err(InvalidData) case Some(event) => Ok(event)
  {
    IssueThenVerify(w, key, secret, start, calls, order, c, jwt, policy, now, key);
    LastDigest(Initial(key, start), calls, EncodePadded(w.sha256(body)));
    ReceiveVerified(w, parse, key, secret, policy, now, c, jwt, w.sha256(body), received);
  }

  lemma ReceiveVerified<C, E>(w: World<C>, parse: string -> Option<E>, key: string, secret: string,
                              policy: Policy, now: nat, c: Claims<C>, jwt: string, digest: seq<Byte>, received: string)
    requires Verify(w, key, secret, policy, now, jwt) == Ok(c) && c.sha256 == EncodePadded(digest)
    ensures Receive(w, parse, key, secret, policy, now, received, jwt)
         == if w.sha256(received) != digest then Err(InvalidSignature)
            else match parse(received) case None => Err(InvalidData) case Some(event) => Ok(event)
  {
    PaddedExact(c.sha256, digest);
  }
}
