/**
 What decoding reads, key by key (livekit-api/src/access_token.rs:43-152): for each claim and each grant, the
 camelCase name under which serde looks for it, the values it takes, and what it is when the name is missing.
 */
module ClaimKeys {
  import opened Wrappers
  import opened Json
  import opened Claims

  // ---------------------------------------------------------------- one key

  predicate BoolAt(fs: seq<Field>, key: string, default: bool, b: bool) {
    Get(fs, key) == One(JBool(b)) || (Get(fs, key).Absent? && b == default)
  }

  predicate StringAt(fs: seq<Field>, key: string, s: string) {
    Get(fs, key) == One(JStr(s)) || (Get(fs, key).Absent? && s == "")
  }

  /** A number in the range of a 64-bit `usize`. */
  predicate UsizeAt(fs: seq<Field>, key: string, n: Usize) {
    Get(fs, key) == One(JNum(n)) || (Get(fs, key).Absent? && n == 0)
  }

  /** The value is an array of exactly these strings. */
  predicate ArrayOf(j: Json, ss: seq<string>) {
    j.JArr? && |j.items| == |ss| && forall i | 0 <= i < |ss| :: j.items[i] == JStr(ss[i])
  }

  predicate StringsAt(fs: seq<Field>, key: string, ss: seq<string>) {
    match Get(fs, key)
    case One(j) => ArrayOf(j, ss)
    case Absent => ss == []
    case Repeated => false
  }

  lemma BoolRow(fs: seq<Field>, key: string, default: bool, b: bool)
    ensures DecodeField(BoolField(key, default), fs) == Some(JBool(b)) <==> BoolAt(fs, key, default, b)
  {
  }

  lemma StringRow(fs: seq<Field>, key: string, s: string)
    ensures DecodeField(StringField(key), fs) == Some(JStr(s)) <==> StringAt(fs, key, s)
  {
  }

  lemma UsizeRow(fs: seq<Field>, key: string, n: Usize)
    ensures DecodeField(UsizeField(key), fs) == Some(JNum(n)) <==> UsizeAt(fs, key, n)
  {
  }

  lemma GetSingle(f: Field)
    ensures Get([f], f.key) == One(f.value)
  {
    assert [f][1..] == [];
  }

  /** Exactly the numbers of a 64-bit `usize` are taken. */
  lemma UsizeBounds(key: string, n: int)
    ensures DecodeField(UsizeField(key), [Field(key, JNum(n))]).Some? <==> 0 <= n <= 18446744073709551615
  {
    GetSingle(Field(key, JNum(n)));
  }

  lemma ArrayOfStrings(j: Json, ss: seq<string>)
    ensures ArrayOf(j, ss) <==> j == Strings(ss)
    ensures j == Strings(ss) ==> IsStrings(j)
  {
    if ArrayOf(j, ss) {
      assert j.items == Strings(ss).items;
    }
  }

  lemma StringsRow(fs: seq<Field>, key: string, ss: seq<string>)
    ensures DecodeField(Spec(key, TStrings, Some(Strings([]))), fs) == Some(Strings(ss)) <==> StringsAt(fs, key, ss)
  {
    match Get(fs, key) {
      case One(j) =>
        ArrayOfStrings(j, ss);
      case Absent =>
        StringsBack(ss);
        StringsBack([]);
      case Repeated =>
    }
  }

  // ---------------------------------------------------------------- video grants

  predicate RoomGrantsAt(fs: seq<Field>, g: VideoGrants) {
    && BoolAt(fs, "roomCreate", false, g.roomCreate)
    && BoolAt(fs, "roomList", false, g.roomList)
    && BoolAt(fs, "roomRecord", false, g.roomRecord)
    && BoolAt(fs, "roomAdmin", false, g.roomAdmin)
    && BoolAt(fs, "roomJoin", false, g.roomJoin)
  }

  predicate PublishGrantsAt(fs: seq<Field>, g: VideoGrants) {
    && StringAt(fs, "room", g.room)
    && StringAt(fs, "destinationRoom", g.destinationRoom)
    && BoolAt(fs, "canPublish", true, g.canPublish)
    && BoolAt(fs, "canSubscribe", true, g.canSubscribe)
    && BoolAt(fs, "canPublishData", true, g.canPublishData)
  }

  predicate OtherGrantsAt(fs: seq<Field>, g: VideoGrants) {
    && StringsAt(fs, "canPublishSources", g.canPublishSources)
    && BoolAt(fs, "canUpdateOwnMetadata", false, g.canUpdateOwnMetadata)
    && BoolAt(fs, "ingressAdmin", false, g.ingressAdmin)
    && BoolAt(fs, "hidden", false, g.hidden)
    && BoolAt(fs, "recorder", false, g.recorder)
  }

  predicate VideoRowAt(fs: seq<Field>, g: VideoGrants, i: nat)
    requires i < 15
  {
    DecodeField(VideoField(i), fs) == Some(VideoValue(g, i))
  }

  lemma BoolRowAt(fs: seq<Field>, g: VideoGrants, i: nat, key: string, default: bool, b: bool)
    requires i < 15 && VideoField(i) == BoolField(key, default) && VideoValue(g, i) == JBool(b)
    ensures VideoRowAt(fs, g, i) <==> BoolAt(fs, key, default, b)
  {
    BoolRow(fs, key, default, b);
  }

  lemma StringRowAt(fs: seq<Field>, g: VideoGrants, i: nat, key: string, s: string)
    requires i < 15 && VideoField(i) == StringField(key) && VideoValue(g, i) == JStr(s)
    ensures VideoRowAt(fs, g, i) <==> StringAt(fs, key, s)
  {
    StringRow(fs, key, s);
  }

  lemma StringsRowAt(fs: seq<Field>, g: VideoGrants, i: nat, key: string, ss: seq<string>)
    requires i < 15 && VideoField(i) == Spec(key, TStrings, Some(Strings([]))) && VideoValue(g, i) == Strings(ss)
    ensures VideoRowAt(fs, g, i) <==> StringsAt(fs, key, ss)
  {
    StringsRow(fs, key, ss);
  }

  /** Five rows of the table from row `i` on. */
  predicate FiveRowsAt(fs: seq<Field>, g: VideoGrants, i: nat)
    requires i <= 10
  {
    && VideoRowAt(fs, g, i) && VideoRowAt(fs, g, i + 1) && VideoRowAt(fs, g, i + 2)
    && VideoRowAt(fs, g, i + 3) && VideoRowAt(fs, g, i + 4)
  }

  lemma RoomRows(fs: seq<Field>, g: VideoGrants)
    ensures RoomGrantsAt(fs, g) <==> FiveRowsAt(fs, g, 0)
  {
    BoolRowAt(fs, g, 0, "roomCreate", false, g.roomCreate);
    BoolRowAt(fs, g, 1, "roomList", false, g.roomList);
    BoolRowAt(fs, g, 2, "roomRecord", false, g.roomRecord);
    BoolRowAt(fs, g, 3, "roomAdmin", false, g.roomAdmin);
    BoolRowAt(fs, g, 4, "roomJoin", false, g.roomJoin);
  }

  lemma PublishRows(fs: seq<Field>, g: VideoGrants)
    ensures PublishGrantsAt(fs, g) <==> FiveRowsAt(fs, g, 5)
  {
    StringRowAt(fs, g, 5, "room", g.room);
    StringRowAt(fs, g, 6, "destinationRoom", g.destinationRoom);
    BoolRowAt(fs, g, 7, "canPublish", true, g.canPublish);
    BoolRowAt(fs, g, 8, "canSubscribe", true, g.canSubscribe);
    BoolRowAt(fs, g, 9, "canPublishData", true, g.canPublishData);
  }

  lemma OtherRows(fs: seq<Field>, g: VideoGrants)
    ensures OtherGrantsAt(fs, g) <==> FiveRowsAt(fs, g, 10)
  {
    StringsRowAt(fs, g, 10, "canPublishSources", g.canPublishSources);
    BoolRowAt(fs, g, 11, "canUpdateOwnMetadata", false, g.canUpdateOwnMetadata);
    BoolRowAt(fs, g, 12, "ingressAdmin", false, g.ingressAdmin);
    BoolRowAt(fs, g, 13, "hidden", false, g.hidden);
    BoolRowAt(fs, g, 14, "recorder", false, g.recorder);
  }

  lemma VideoByRow(fs: seq<Field>, g: VideoGrants)
    ensures DecodeVideo(JObj(fs)) == Some(g) <==> forall i: nat | i < 15 :: VideoRowAt(fs, g, i)
  {
    DecodeFieldsPointwise(VideoSpec(), fs);
    if DecodeVideo(JObj(fs)) == Some(g) {
      var vs := DecodeFields(VideoSpec(), fs).value;
      VideoDecodedAccepted(fs);
      VideoValuesBack(vs);
      assert forall i: nat | i < 15 :: VideoSpec()[i] == VideoField(i) && vs[i] == VideoValue(g, i);
    }
    if forall i: nat | i < 15 :: VideoRowAt(fs, g, i) {
      forall i | 0 <= i < 15 ensures DecodeField(VideoSpec()[i], fs) == Some(VideoValues(g)[i]) {
        assert VideoRowAt(fs, g, i);
      }
      assert DecodeFields(VideoSpec(), fs).value == VideoValues(g);
      VideoOfValues(g);
    }
  }

  lemma FifteenRows(fs: seq<Field>, g: VideoGrants)
    ensures (forall i: nat | i < 15 :: VideoRowAt(fs, g, i))
       <==> FiveRowsAt(fs, g, 0) && FiveRowsAt(fs, g, 5) && FiveRowsAt(fs, g, 10)
  {
    if FiveRowsAt(fs, g, 0) && FiveRowsAt(fs, g, 5) && FiveRowsAt(fs, g, 10) {
      forall i: nat | i < 15 ensures VideoRowAt(fs, g, i) {
      }
    }
  }

  /** Video grants decode to `g` exactly when each of the fifteen keys says so. */
  lemma VideoByKey(fs: seq<Field>, g: VideoGrants)
    ensures DecodeVideo(JObj(fs)) == Some(g)
       <==> RoomGrantsAt(fs, g) && PublishGrantsAt(fs, g) && OtherGrantsAt(fs, g)
  {
    VideoByRow(fs, g);
    FifteenRows(fs, g);
    RoomRows(fs, g);
    PublishRows(fs, g);
    OtherRows(fs, g);
  }

  /** Each of the two SIP keys sets its own field. */
  lemma SipByKey(fs: seq<Field>, g: SipGrants)
    ensures DecodeSip(JObj(fs)) == Some(g)
       <==> Get(fs, "admin") == One(JBool(g.admin)) && Get(fs, "call") == One(JBool(g.call))
  {
    DecodeFieldsPointwise(SIP_SPEC, fs);
    assert SIP_SPEC[0] == Spec("admin", TBool, None) && SIP_SPEC[1] == Spec("call", TBool, None);
  }

  // ---------------------------------------------------------------- claims

  predicate VideoAt(fs: seq<Field>, key: string, g: VideoGrants) {
    match Get(fs, key)
    case One(j) => DecodeVideo(j) == Some(g)
    case Absent => g == DEFAULT_VIDEO
    case Repeated => false
  }

  predicate SipAt(fs: seq<Field>, key: string, g: SipGrants) {
    match Get(fs, key)
    case One(j) => DecodeSip(j) == Some(g)
    case Absent => g == SipGrants(false, false)
    case Repeated => false
  }

  /** An object of strings, whose repeated keys count with their last value. */
  predicate MapAt(fs: seq<Field>, key: string, m: map<string, string>) {
    match Get(fs, key)
    case One(j) => IsStringMap(j) && StringMapOf(j.fields) == m
    case Absent => m == map[]
    case Repeated => false
  }

  /** `null` and a missing key both mean no configuration. */
  predicate ConfigAt<C(==)>(cc: ConfigCodec<C>, fs: seq<Field>, key: string, c: Option<C>) {
    match Get(fs, key)
    case One(j) => if j.JNull? then c == None else c.Some? && cc.decode(j) == c
    case Absent => c == None
    case Repeated => false
  }

  predicate TimesAndNamesAt<C>(fs: seq<Field>, c: Claims<C>) {
    && UsizeAt(fs, "exp", c.exp)
    && StringAt(fs, "iss", c.iss)
    && UsizeAt(fs, "nbf", c.nbf)
    && StringAt(fs, "sub", c.sub)
    && StringAt(fs, "name", c.name)
  }

  predicate GrantsAt<C>(fs: seq<Field>, c: Claims<C>) {
    && VideoAt(fs, "video", c.video)
    && SipAt(fs, "sip", c.sip)
    && StringAt(fs, "sha256", c.sha256)
    && StringAt(fs, "metadata", c.metadata)
  }

  predicate ExtrasAt<C(==)>(cc: ConfigCodec<C>, fs: seq<Field>, c: Claims<C>) {
    && MapAt(fs, "attributes", c.attributes)
    && ConfigAt(cc, fs, "roomConfig", c.roomConfig)
  }

  lemma AnyUsizeRow(fs: seq<Field>, key: string, v: Json)
    requires DecodeField(UsizeField(key), fs) == Some(v)
    ensures UsizeAt(fs, key, UsizeOf(v))
  {
  }

  lemma AnyStringRow(fs: seq<Field>, key: string, v: Json)
    requires DecodeField(StringField(key), fs) == Some(v)
    ensures StringAt(fs, key, StringOf(v))
  {
  }

  lemma VideoRowMeans<C>(cc: ConfigCodec<C>, fs: seq<Field>)
    ensures DecodeField(ClaimField(cc, 5), fs).Some? <==> exists g :: VideoAt(fs, "video", g)
    ensures DecodeField(ClaimField(cc, 5), fs).Some? ==>
              match DecodeVideo(DecodeField(ClaimField(cc, 5), fs).value)
              case Some(g) => VideoAt(fs, "video", g)
              case None => false
  {
    VideoRoundTrip(DEFAULT_VIDEO);
    match Get(fs, "video") {
      case One(j) =>
        VideoClaimField(cc, j);
        if DecodeVideo(j).Some? {
          assert VideoAt(fs, "video", DecodeVideo(j).value);
        }
      case Absent =>
        VideoClaimField(cc, JNull);
        assert VideoAt(fs, "video", DEFAULT_VIDEO);
      case Repeated =>
        VideoClaimField(cc, JNull);
    }
  }

  lemma SipRowMeans<C>(cc: ConfigCodec<C>, fs: seq<Field>)
    ensures DecodeField(ClaimField(cc, 6), fs).Some? <==> exists g :: SipAt(fs, "sip", g)
    ensures DecodeField(ClaimField(cc, 6), fs).Some? ==>
              match DecodeSip(DecodeField(ClaimField(cc, 6), fs).value)
              case Some(g) => SipAt(fs, "sip", g)
              case None => false
  {
    SipRoundTrip(DEFAULT_SIP);
    match Get(fs, "sip") {
      case One(j) =>
        SipClaimField(cc, j);
        if DecodeSip(j).Some? {
          assert SipAt(fs, "sip", DecodeSip(j).value);
        }
      case Absent =>
        SipClaimField(cc, JNull);
        assert SipAt(fs, "sip", DEFAULT_SIP);
      case Repeated =>
        SipClaimField(cc, JNull);
    }
  }

  lemma MapRowMeans<C>(cc: ConfigCodec<C>, fs: seq<Field>)
    ensures DecodeField(ClaimField(cc, 9), fs).Some? <==> exists m :: MapAt(fs, "attributes", m)
    ensures DecodeField(ClaimField(cc, 9), fs).Some? ==>
              MapAt(fs, "attributes", MapOf(DecodeField(ClaimField(cc, 9), fs).value))
  {
    assert ClaimField(cc, 9) == Spec("attributes", TStringMap, Some(JObj([])));
    match Get(fs, "attributes") {
      case One(j) =>
        assert IsStringMap(j) ==> MapAt(fs, "attributes", StringMapOf(j.fields));
      case Absent =>
        assert MapAt(fs, "attributes", map[]);
      case Repeated =>
    }
  }

  /** How row 10 turns what it decoded into a configuration. */
  function ConfigOf<C>(cc: ConfigCodec<C>, v: Json): Option<C> {
    if v.JNull? then None else cc.decode(v)
  }

  lemma ConfigRowMeans<C(!new)>(cc: ConfigCodec<C>, fs: seq<Field>)
    ensures DecodeField(ClaimField(cc, 10), fs).Some? <==> exists c :: ConfigAt(cc, fs, "roomConfig", c)
    ensures DecodeField(ClaimField(cc, 10), fs).Some? ==>
              ConfigAt(cc, fs, "roomConfig", ConfigOf(cc, DecodeField(ClaimField(cc, 10), fs).value))
  {
    assert ClaimField(cc, 10).key == "roomConfig" && ClaimField(cc, 10).default == Some(JNull);
    match Get(fs, "roomConfig") {
      case One(j) =>
        assert Accepts(ClaimField(cc, 10).ty, j) <==> j.JNull? || cc.decode(j).Some?;
        assert j.JNull? || cc.decode(j).Some? ==> ConfigAt(cc, fs, "roomConfig", ConfigOf(cc, j));
      case Absent =>
        assert ConfigAt(cc, fs, "roomConfig", None);
      case Repeated =>
    }
  }

  lemma ClaimRowOf<C>(cc: ConfigCodec<C>, fs: seq<Field>, i: nat)
    requires DecodeClaims(cc, JObj(fs)).Some? && i < 11
    ensures DecodeField(ClaimField(cc, i), fs) == Some(DecodeFields(ClaimsSpec(cc), fs).value[i])
  {
    DecodeFieldsPointwise(ClaimsSpec(cc), fs);
    assert ClaimsSpec(cc)[i] == ClaimField(cc, i);
  }

  lemma DecodedTimesAndNames<C>(cc: ConfigCodec<C>, fs: seq<Field>)
    requires DecodeClaims(cc, JObj(fs)).Some?
    ensures TimesAndNamesAt(fs, DecodeClaims(cc, JObj(fs)).value)
  {
    var vs := DecodeFields(ClaimsSpec(cc), fs).value;
    ClaimRowOf(cc, fs, 0);
    ClaimRowOf(cc, fs, 1);
    ClaimRowOf(cc, fs, 2);
    ClaimRowOf(cc, fs, 3);
    ClaimRowOf(cc, fs, 4);
    AnyUsizeRow(fs, "exp", vs[0]);
    AnyStringRow(fs, "iss", vs[1]);
    AnyUsizeRow(fs, "nbf", vs[2]);
    AnyStringRow(fs, "sub", vs[3]);
    AnyStringRow(fs, "name", vs[4]);
  }

  lemma DecodedVideo<C>(cc: ConfigCodec<C>, fs: seq<Field>)
    requires DecodeClaims(cc, JObj(fs)).Some?
    ensures VideoAt(fs, "video", DecodeClaims(cc, JObj(fs)).value.video)
  {
    ClaimRowOf(cc, fs, 5);
    VideoRowMeans(cc, fs);
  }

  lemma DecodedSipGrants<C>(cc: ConfigCodec<C>, fs: seq<Field>)
    requires DecodeClaims(cc, JObj(fs)).Some?
    ensures SipAt(fs, "sip", DecodeClaims(cc, JObj(fs)).value.sip)
  {
    ClaimRowOf(cc, fs, 6);
    SipRowMeans(cc, fs);
  }

  lemma DecodedGrants<C>(cc: ConfigCodec<C>, fs: seq<Field>)
    requires DecodeClaims(cc, JObj(fs)).Some?
    ensures GrantsAt(fs, DecodeClaims(cc, JObj(fs)).value)
  {
    var vs := DecodeFields(ClaimsSpec(cc), fs).value;
    DecodedVideo(cc, fs);
    DecodedSipGrants(cc, fs);
    ClaimRowOf(cc, fs, 7);
    ClaimRowOf(cc, fs, 8);
    AnyStringRow(fs, "sha256", vs[7]);
    AnyStringRow(fs, "metadata", vs[8]);
  }

  lemma DecodedExtras<C(!new)>(cc: ConfigCodec<C>, fs: seq<Field>)
    requires DecodeClaims(cc, JObj(fs)).Some?
    ensures ExtrasAt(cc, fs, DecodeClaims(cc, JObj(fs)).value)
  {
    ClaimRowOf(cc, fs, 9);
    ClaimRowOf(cc, fs, 10);
    MapRowMeans(cc, fs);
    ConfigRowMeans(cc, fs);
  }

  lemma RowDecodes<C(!new)>(cc: ConfigCodec<C>, fs: seq<Field>, c: Claims<C>, i: nat)
    requires TimesAndNamesAt(fs, c) && GrantsAt(fs, c) && ExtrasAt(cc, fs, c) && i < 11
    ensures DecodeField(ClaimField(cc, i), fs).Some?
  {
    if i == 0 {
      UsizeRow(fs, "exp", c.exp);
    } else if i == 1 {
      StringRow(fs, "iss", c.iss);
    } else if i == 2 {
      UsizeRow(fs, "nbf", c.nbf);
    } else if i == 3 {
      StringRow(fs, "sub", c.sub);
    } else if i == 4 {
      StringRow(fs, "name", c.name);
    } else if i == 5 {
      VideoRowMeans(cc, fs);
    } else if i == 6 {
      SipRowMeans(cc, fs);
    } else if i == 7 {
      StringRow(fs, "sha256", c.sha256);
    } else if i == 8 {
      StringRow(fs, "metadata", c.metadata);
    } else if i == 9 {
      MapRowMeans(cc, fs);
    } else {
      ConfigRowMeans(cc, fs);
    }
  }

  lemma KeysDetermine<C>(cc: ConfigCodec<C>, fs: seq<Field>, a: Claims<C>, b: Claims<C>)
    requires TimesAndNamesAt(fs, a) && GrantsAt(fs, a) && ExtrasAt(cc, fs, a)
    requires TimesAndNamesAt(fs, b) && GrantsAt(fs, b) && ExtrasAt(cc, fs, b)
    ensures a == b
  {
  }

  /**
   An object decodes to these claims exactly when each of the eleven keys says so. In particular a missing key
   leaves its default, and a repeated key or a value of another type fails the whole.
   */
  lemma ClaimsByKey<C(!new)>(cc: ConfigCodec<C>, fs: seq<Field>, c: Claims<C>)
    ensures DecodeClaims(cc, JObj(fs)) == Some(c)
       <==> TimesAndNamesAt(fs, c) && GrantsAt(fs, c) && ExtrasAt(cc, fs, c)
  {
    if TimesAndNamesAt(fs, c) && GrantsAt(fs, c) && ExtrasAt(cc, fs, c) {
      forall i | 0 <= i < |ClaimsSpec(cc)| ensures DecodeField(ClaimsSpec(cc)[i], fs).Some? {
        RowDecodes(cc, fs, c, i);
      }
      DecodeFieldsPointwise(ClaimsSpec(cc), fs);
    }
    if DecodeClaims(cc, JObj(fs)).Some? {
      var d := DecodeClaims(cc, JObj(fs)).value;
      DecodedTimesAndNames(cc, fs);
      DecodedGrants(cc, fs);
      DecodedExtras(cc, fs);
      if TimesAndNamesAt(fs, c) && GrantsAt(fs, c) && ExtrasAt(cc, fs, c) {
        KeysDetermine(cc, fs, c, d);
      }
    }
  }

  lemma EncodedRow<C>(cc: ConfigCodec<C>, c: Claims<C>, order: seq<string>, i: nat)
    requires i < 11 && forall k | k in order :: k in c.attributes
    ensures Get(EncodeClaims(cc, c, order).fields, ClaimField(cc, i).key) == One(ClaimValue(cc, c, order, i))
  {
    ClaimKeysDistinct(cc);
    GetEncoded(ClaimsSpec(cc), ClaimsValues(cc, c, order), i);
  }

  /** Encoding writes every claim under its key, defaults included. */
  lemma EncodedByKey<C>(cc: ConfigCodec<C>, c: Claims<C>, order: seq<string>)
    requires forall k | k in order :: k in c.attributes
    ensures var fs := EncodeClaims(cc, c, order).fields;
            && Get(fs, "exp") == One(JNum(c.exp)) && Get(fs, "nbf") == One(JNum(c.nbf))
            && Get(fs, "iss") == One(JStr(c.iss)) && Get(fs, "sub") == One(JStr(c.sub))
            && Get(fs, "name") == One(JStr(c.name)) && Get(fs, "sha256") == One(JStr(c.sha256))
            && Get(fs, "metadata") == One(JStr(c.metadata))
            && Get(fs, "video") == One(EncodeVideo(c.video)) && Get(fs, "sip") == One(EncodeSip(c.sip))
            && Get(fs, "attributes") == One(JObj(MapFields(order, c.attributes)))
            && Get(fs, "roomConfig") == One(match c.roomConfig case None => JNull case Some(x) => cc.encode(x))
  {
    EncodedRow(cc, c, order, 0);
    EncodedRow(cc, c, order, 1);
    EncodedRow(cc, c, order, 2);
    EncodedRow(cc, c, order, 3);
    EncodedRow(cc, c, order, 4);
    EncodedRow(cc, c, order, 5);
    EncodedRow(cc, c, order, 6);
    EncodedRow(cc, c, order, 7);
    EncodedRow(cc, c, order, 8);
    EncodedRow(cc, c, order, 9);
    EncodedRow(cc, c, order, 10);
  }
}
