/**
 The claims of an access token and their JSON form, following the serde attributes of
 livekit-api/src/access_token.rs:43-152. The room configuration is opaque: only its JSON codec is known.
 */
module Claims {
  import opened Wrappers
  import opened Json

  datatype VideoGrants = VideoGrants(
    roomCreate: bool,
    roomList: bool,
    roomRecord: bool,
    roomAdmin: bool,
    roomJoin: bool,
    room: string,
    destinationRoom: string,
    canPublish: bool,
    canSubscribe: bool,
    canPublishData: bool,
    canPublishSources: seq<string>,
    canUpdateOwnMetadata: bool,
    ingressAdmin: bool,
    hidden: bool,
    recorder: bool
  )

  /** `VideoGrants::default()`. */
  const DEFAULT_VIDEO := VideoGrants(
    false, false, false, false, false, "", "", true, true, true, [], false, false, false, false)

  datatype SipGrants = SipGrants(admin: bool, call: bool)

  const DEFAULT_SIP := SipGrants(false, false)

  type Usize = n: nat | n < 0x1_0000_0000_0000_0000

  datatype Claims<C> = Claims(
    exp: Usize,
    iss: string,
    nbf: Usize,
    sub: string,
    name: string,
    video: VideoGrants,
    sip: SipGrants,
    sha256: string,
    metadata: string,
    attributes: map<string, string>,
    roomConfig: Option<C>
  )

  /** How a room configuration is written and read. */
  datatype ConfigCodec<!C> = ConfigCodec(encode: C -> Json, decode: Json -> Option<C>)

  /** The assumed codec laws: configurations round-trip, and none is written as `null`. */
  ghost predicate LawfulCodec<C(!new)>(cc: ConfigCodec<C>) {
    forall c: C :: cc.decode(cc.encode(c)) == Some(c) && cc.encode(c) != JNull
  }

  // ---------------------------------------------------------------- video grants

  function BoolField(key: string, default: bool): Spec {
    Spec(key, TBool, Some(JBool(default)))
  }

  function StringField(key: string): Spec {
    Spec(key, TString, Some(JStr("")))
  }

  /** Field by field, with `#[serde(default)]` or `#[serde(default = "default_true")]`. */
  function VideoField(i: nat): Spec
    requires i < 15
  {
    match i
    case 0 => BoolField("roomCreate", false)
    case 1 => BoolField("roomList", false)
    case 2 => BoolField("roomRecord", false)
    case 3 => BoolField("roomAdmin", false)
    case 4 => BoolField("roomJoin", false)
    case 5 => StringField("room")
    case 6 => StringField("destinationRoom")
    case 7 => BoolField("canPublish", true)
    case 8 => BoolField("canSubscribe", true)
    case 9 => BoolField("canPublishData", true)
    case 10 => Spec("canPublishSources", TStrings, Some(Strings([])))
    case 11 => BoolField("canUpdateOwnMetadata", false)
    case 12 => BoolField("ingressAdmin", false)
    case 13 => BoolField("hidden", false)
    case _ => BoolField("recorder", false)
  }

  function VideoSpec(): (spec: seq<Spec>)
    ensures |spec| == 15 && forall i | 0 <= i < 15 :: spec[i] == VideoField(i)
  {
    seq(15, i requires 0 <= i < 15 => VideoField(i))
  }

  function VideoValue(g: VideoGrants, i: nat): Json
    requires i < 15
  {
    match i
    case 0 => JBool(g.roomCreate)
    case 1 => JBool(g.roomList)
    case 2 => JBool(g.roomRecord)
    case 3 => JBool(g.roomAdmin)
    case 4 => JBool(g.roomJoin)
    case 5 => JStr(g.room)
    case 6 => JStr(g.destinationRoom)
    case 7 => JBool(g.canPublish)
    case 8 => JBool(g.canSubscribe)
    case 9 => JBool(g.canPublishData)
    case 10 => Strings(g.canPublishSources)
    case 11 => JBool(g.canUpdateOwnMetadata)
    case 12 => JBool(g.ingressAdmin)
    case 13 => JBool(g.hidden)
    case _ => JBool(g.recorder)
  }

  function VideoValues(g: VideoGrants): (vs: seq<Json>)
    ensures |vs| == 15 && forall i | 0 <= i < 15 :: vs[i] == VideoValue(g, i)
  {
    seq(15, i requires 0 <= i < 15 => VideoValue(g, i))
  }

  function BoolOf(j: Json): bool { j.JBool? && j.b }
  function StringOf(j: Json): string { if j.JStr? then j.s else "" }

  function VideoOf(vs: seq<Json>): VideoGrants
    requires |vs| == 15
  {
    VideoGrants(
      BoolOf(vs[0]), BoolOf(vs[1]), BoolOf(vs[2]), BoolOf(vs[3]), BoolOf(vs[4]), StringOf(vs[5]), StringOf(vs[6]),
      BoolOf(vs[7]), BoolOf(vs[8]), BoolOf(vs[9]), if IsStrings(vs[10]) then StringsOf(vs[10]) else [],
      BoolOf(vs[11]), BoolOf(vs[12]), BoolOf(vs[13]), BoolOf(vs[14]))
  }

  lemma VideoValueAccepted(g: VideoGrants, i: nat)
    requires i < 15
    ensures Accepts(VideoField(i).ty, VideoValue(g, i))
  {
  }

  lemma VideoValuesAccepted(g: VideoGrants)
    ensures Accepted(VideoSpec(), VideoValues(g))
  {
    forall i: nat | i < 15 ensures Accepts(VideoSpec()[i].ty, VideoValues(g)[i]) {
      VideoValueAccepted(g, i);
    }
  }

  lemma VideoOfValues(g: VideoGrants)
    ensures VideoOf(VideoValues(g)) == g
  {
    StringsBack(g.canPublishSources);
  }

  /** The row of a video key, told by its length and its fifth character. */
  function VideoRow(k: string): int {
    if |k| == 4 then 5
    else if |k| == 6 then 13
    else if |k| == 8 then (if k[4] == 'L' then 1 else if k[4] == 'J' then 4 else 14)
    else if |k| == 9 then 3
    else if |k| == 10 then (if k[4] == 'C' then 0 else if k[4] == 'R' then 2 else 7)
    else if |k| == 12 then (if k[4] == 'u' then 8 else 12)
    else if |k| == 14 then 9
    else if |k| == 15 then 6
    else if |k| == 17 then 10
    else 11
  }

  lemma VideoKeysDistinct()
    ensures DistinctKeys(VideoSpec())
  {
    forall i: nat | i < 15 ensures VideoRow(VideoField(i).key) == i {
    }
  }

  function EncodeVideo(g: VideoGrants): Json {
    JObj(EncodeFields(VideoSpec(), VideoValues(g)))
  }

  function DecodeVideo(j: Json): Option<VideoGrants> {
    if !j.JObj? then None
    else
      match DecodeFields(VideoSpec(), j.fields)
      case None => None
      case Some(vs) => Some(VideoOf(vs))
  }

  /** Whatever decodes is accepted, provided the defaults are. */
  lemma DecodedAccepted(spec: seq<Spec>, fs: seq<Field>)
    ensures DecodeFields(spec, fs).Some? && DefaultsAccepted(spec) ==> Accepted(spec, DecodeFields(spec, fs).value)
  {
    DecodeFieldsPointwise(spec, fs);
  }

  predicate DefaultsAccepted(spec: seq<Spec>) {
    forall i | 0 <= i < |spec| && spec[i].default.Some? :: Accepts(spec[i].ty, spec[i].default.value)
  }

  lemma VideoDefaultsAccepted()
    ensures DefaultsAccepted(VideoSpec())
  {
    VideoValuesAccepted(DEFAULT_VIDEO);
    VideoDefaultValues();
  }

  /** The serde attributes and the `Default` implementation name the same defaults. */
  lemma VideoDefaultValues()
    ensures forall i | 0 <= i < 15 :: VideoSpec()[i].default == Some(VideoValues(DEFAULT_VIDEO)[i])
  {
    forall i: nat | i < 15 ensures VideoField(i).default == Some(VideoValue(DEFAULT_VIDEO, i)) {
    }
  }

  lemma VideoRoundTrip(g: VideoGrants)
    ensures DecodeVideo(EncodeVideo(g)) == Some(g)
  {
    VideoKeysDistinct();
    VideoValuesAccepted(g);
    VideoOfValues(g);
    FieldsRoundTrip(VideoSpec(), VideoValues(g));
  }

  lemma VideoValueBack(vs: seq<Json>, i: nat)
    requires |vs| == 15 && i < 15 && Accepts(VideoField(i).ty, vs[i])
    ensures VideoValue(VideoOf(vs), i) == vs[i]
  {
    if i == 10 {
      assert Strings(StringsOf(vs[10])).items == vs[10].items;
    }
  }

  lemma VideoValuesBack(vs: seq<Json>)
    requires Accepted(VideoSpec(), vs)
    ensures VideoValues(VideoOf(vs)) == vs
  {
    forall i: nat | i < 15 ensures VideoValues(VideoOf(vs))[i] == vs[i] {
      assert Accepts(VideoSpec()[i].ty, vs[i]);
      VideoValueBack(vs, i);
    }
  }

  lemma VideoDecodesTo(fs: seq<Field>, vs: seq<Json>)
    requires DecodeFields(VideoSpec(), fs) == Some(vs) && Accepted(VideoSpec(), vs)
    ensures DecodeVideo(JObj(fs)).Some? && VideoValues(DecodeVideo(JObj(fs)).value) == vs
  {
    VideoValuesBack(vs);
  }

  lemma VideoDecodedAccepted(fs: seq<Field>)
    requires DecodeFields(VideoSpec(), fs).Some?
    ensures Accepted(VideoSpec(), DecodeFields(VideoSpec(), fs).value)
  {
    VideoDefaultsAccepted();
    DecodedAccepted(VideoSpec(), fs);
  }

  /** Row by row, `a` where the row is present and `b` elsewhere. */
  predicate Overridden(vs: seq<Json>, a: seq<Json>, b: seq<Json>, present: set<int>)
    requires |vs| == |a| == |b|
  {
    forall i | 0 <= i < |vs| :: vs[i] == if i in present then a[i] else b[i]
  }

  /**
   For every subset of present keys, in any order and among any unknown keys, decoding is
   `VideoGrants::default()` overridden by the keys that are present.
   */
  lemma VideoOverridesDefault(fs: seq<Field>, g: VideoGrants, present: set<int>)
    requires SomeOf(VideoSpec(), fs, VideoValues(g), present)
    ensures DecodeVideo(JObj(fs)).Some?
    ensures Overridden(VideoValues(DecodeVideo(JObj(fs)).value), VideoValues(g), VideoValues(DEFAULT_VIDEO), present)
  {
    VideoDefaultValues();
    VideoValuesAccepted(g);
    DefaultsOverridden(VideoSpec(), fs, VideoValues(g), VideoValues(DEFAULT_VIDEO), present);
    VideoDecodedAccepted(fs);
    VideoDecodesTo(fs, DecodeFields(VideoSpec(), fs).value);
  }

  /** An absent or empty object decodes to the default grants. */
  lemma EmptyVideoIsDefault()
    ensures DecodeVideo(JObj([])) == Some(DEFAULT_VIDEO)
  {
    VideoOverridesDefault([], DEFAULT_VIDEO, {});
    var g := DecodeVideo(JObj([])).value;
    assert VideoValues(g) == VideoValues(DEFAULT_VIDEO);
    VideoOfValues(g);
    VideoOfValues(DEFAULT_VIDEO);
  }

  // ---------------------------------------------------------------- SIP grants

  /** Neither field has a serde default, so both keys are required. */
  const SIP_SPEC: seq<Spec> := [Spec("admin", TBool, None), Spec("call", TBool, None)]

  function EncodeSip(g: SipGrants): Json {
    JObj(EncodeFields(SIP_SPEC, [JBool(g.admin), JBool(g.call)]))
  }

  function DecodeSip(j: Json): Option<SipGrants> {
    if !j.JObj? then None
    else
      match DecodeFields(SIP_SPEC, j.fields)
      case None => None
      case Some(vs) => Some(SipGrants(BoolOf(vs[0]), BoolOf(vs[1])))
  }

  lemma SipRoundTrip(g: SipGrants)
    ensures DecodeSip(EncodeSip(g)) == Some(g)
  {
    assert SIP_SPEC[0].key[0] != SIP_SPEC[1].key[0];
    FieldsRoundTrip(SIP_SPEC, [JBool(g.admin), JBool(g.call)]);
  }

  /** Unlike video grants, SIP grants decode only when both keys are present, once, as booleans. */
  lemma SipNeedsBothKeys(fs: seq<Field>)
    ensures DecodeSip(JObj(fs)).Some?
       <==> (exists a, c :: Get(fs, "admin") == One(JBool(a)) && Get(fs, "call") == One(JBool(c)))
  {
    DecodeFieldsPointwise(SIP_SPEC, fs);
    assert SIP_SPEC[0].key == "admin" && SIP_SPEC[1].key == "call";
    if DecodeSip(JObj(fs)).Some? {
      assert DecodeField(SIP_SPEC[0], fs).Some? && DecodeField(SIP_SPEC[1], fs).Some?;
      assert Get(fs, "admin") == One(JBool(Get(fs, "admin").value.b));
      assert Get(fs, "call") == One(JBool(Get(fs, "call").value.b));
    }
  }

  // ---------------------------------------------------------------- claims

  predicate IsVideo(j: Json) { DecodeVideo(j).Some? }
  predicate IsSip(j: Json) { DecodeSip(j).Some? }

  function UsizeField(key: string): Spec {
    Spec(key, TUsize, Some(JNum(0)))
  }

  /** `#[serde(default)]` on the struct: a missing field is taken from `Claims::default()`. */
  function ClaimField<C>(cc: ConfigCodec<C>, i: nat): Spec
    requires i < 11
  {
    match i
    case 0 => UsizeField("exp")
    case 1 => StringField("iss")
    case 2 => UsizeField("nbf")
    case 3 => StringField("sub")
    case 4 => StringField("name")
    case 5 => Spec("video", TNested(IsVideo), Some(EncodeVideo(DEFAULT_VIDEO)))
    case 6 => Spec("sip", TNested(IsSip), Some(EncodeSip(DEFAULT_SIP)))
    case 7 => StringField("sha256")
    case 8 => StringField("metadata")
    case 9 => Spec("attributes", TStringMap, Some(JObj([])))
    case _ => Spec("roomConfig", TNested((j: Json) => j.JNull? || cc.decode(j).Some?), Some(JNull))
  }

  function ClaimsSpec<C>(cc: ConfigCodec<C>): (spec: seq<Spec>)
    ensures |spec| == 11 && forall i | 0 <= i < 11 :: spec[i] == ClaimField(cc, i)
  {
    seq(11, i requires 0 <= i < 11 => ClaimField(cc, i))
  }

  function ConfigValue<C>(cc: ConfigCodec<C>, c: Option<C>): Json {
    match c
    case None => JNull
    case Some(x) => cc.encode(x)
  }

  /** `order` is the order in which the attribute map is iterated. */
  function ClaimValue<C>(cc: ConfigCodec<C>, c: Claims<C>, order: seq<string>, i: nat): Json
    requires i < 11 && forall k | k in order :: k in c.attributes
  {
    match i
    case 0 => JNum(c.exp)
    case 1 => JStr(c.iss)
    case 2 => JNum(c.nbf)
    case 3 => JStr(c.sub)
    case 4 => JStr(c.name)
    case 5 => EncodeVideo(c.video)
    case 6 => EncodeSip(c.sip)
    case 7 => JStr(c.sha256)
    case 8 => JStr(c.metadata)
    case 9 => JObj(MapFields(order, c.attributes))
    case _ => ConfigValue(cc, c.roomConfig)
  }

  function ClaimsValues<C>(cc: ConfigCodec<C>, c: Claims<C>, order: seq<string>): (vs: seq<Json>)
    requires forall k | k in order :: k in c.attributes
    ensures |vs| == 11 && forall i | 0 <= i < 11 :: vs[i] == ClaimValue(cc, c, order, i)
  {
    seq(11, i requires 0 <= i < 11 => ClaimValue(cc, c, order, i))
  }

  function UsizeOf(j: Json): Usize { if IsUsize(j) then j.n else 0 }
  function MapOf(j: Json): map<string, string> { if IsStringMap(j) then StringMapOf(j.fields) else map[] }

  function ClaimsOf<C>(cc: ConfigCodec<C>, vs: seq<Json>): Claims<C>
    requires |vs| == 11
  {
    Claims(
      UsizeOf(vs[0]), StringOf(vs[1]), UsizeOf(vs[2]), StringOf(vs[3]), StringOf(vs[4]),
      (match DecodeVideo(vs[5]) case Some(g) => g case None => DEFAULT_VIDEO),
      (match DecodeSip(vs[6]) case Some(g) => g case None => DEFAULT_SIP),
      StringOf(vs[7]), StringOf(vs[8]), MapOf(vs[9]),
      if vs[10].JNull? then None else cc.decode(vs[10]))
  }

  function EncodeClaims<C>(cc: ConfigCodec<C>, c: Claims<C>, order: seq<string>): Json
    requires forall k | k in order :: k in c.attributes
  {
    JObj(EncodeFields(ClaimsSpec(cc), ClaimsValues(cc, c, order)))
  }

  function DecodeClaims<C>(cc: ConfigCodec<C>, j: Json): Option<Claims<C>> {
    if !j.JObj? then None
    else
      match DecodeFields(ClaimsSpec(cc), j.fields)
      case None => None
      case Some(vs) => Some(ClaimsOf(cc, vs))
  }

  /** The row of a claim key, told by its length and its second character. */
  function ClaimRow(k: string): int {
    if |k| == 3 then
      (if k[1] == 'x' then 0 else if k[1] == 's' then 1 else if k[1] == 'b' then 2 else if k[1] == 'u' then 3 else 6)
    else if |k| == 4 then 4
    else if |k| == 5 then 5
    else if |k| == 6 then 7
    else if |k| == 8 then 8
    else if |k| == 10 then (if k[1] == 't' then 9 else 10)
    else -1
  }

  lemma ClaimRowIs<C>(cc: ConfigCodec<C>, i: nat)
    requires i < 11
    ensures ClaimRow(ClaimField(cc, i).key) == i
  {
    var k := ClaimField(cc, i).key;
    if i < 4 {
      assert |k| == 3;
    } else if i < 9 {
      assert |k| == if i == 6 then 3 else if i == 4 then 4 else if i == 5 then 5 else if i == 7 then 6 else 8;
    } else {
      assert |k| == 10;
    }
  }

  lemma ClaimKeysDistinct<C>(cc: ConfigCodec<C>)
    ensures DistinctKeys(ClaimsSpec(cc))
  {
    forall i: nat | i < 11 ensures ClaimRow(ClaimField(cc, i).key) == i {
      ClaimRowIs(cc, i);
    }
  }

  lemma ConfigRoundTrip<C(!new)>(cc: ConfigCodec<C>, c: Option<C>)
    requires LawfulCodec(cc)
    ensures var v := ConfigValue(cc, c);
            if c.None? then v.JNull? else !v.JNull? && cc.decode(v) == c
  {
  }

  lemma ClaimValueAccepted<C(!new)>(cc: ConfigCodec<C>, c: Claims<C>, order: seq<string>, i: nat)
    requires LawfulCodec(cc) && i < 11 && forall k | k in order :: k in c.attributes
    ensures Accepts(ClaimField(cc, i).ty, ClaimValue(cc, c, order, i))
  {
    if i == 5 {
      VideoRoundTrip(c.video);
    } else if i == 6 {
      SipRoundTrip(c.sip);
    } else if i == 9 {
      StringMapOfFields(order, c.attributes);
    } else if i == 10 {
      ConfigRoundTrip(cc, c.roomConfig);
    }
  }

  lemma ClaimsValuesAccepted<C(!new)>(cc: ConfigCodec<C>, c: Claims<C>, order: seq<string>)
    requires LawfulCodec(cc) && forall k | k in order :: k in c.attributes
    ensures Accepted(ClaimsSpec(cc), ClaimsValues(cc, c, order))
  {
    forall i: nat | i < 11 ensures Accepts(ClaimsSpec(cc)[i].ty, ClaimsValues(cc, c, order)[i]) {
      ClaimValueAccepted(cc, c, order, i);
    }
  }

  lemma ClaimsOfValues<C(!new)>(cc: ConfigCodec<C>, c: Claims<C>, order: seq<string>)
    requires LawfulCodec(cc) && Enumerates(order, c.attributes) && forall k | k in order :: k in c.attributes
    ensures ClaimsOf(cc, ClaimsValues(cc, c, order)) == c
  {
    StringMapBack(order, c.attributes);
    VideoRoundTrip(c.video);
    SipRoundTrip(c.sip);
    ConfigRoundTrip(cc, c.roomConfig);
  }

  /** Encoding any claims, with the attributes in any order, and decoding them is the identity. */
  lemma ClaimsRoundTrip<C(!new)>(cc: ConfigCodec<C>, c: Claims<C>, order: seq<string>)
    requires LawfulCodec(cc) && Enumerates(order, c.attributes)
    ensures forall k | k in order :: k in c.attributes
    ensures DecodeClaims(cc, EncodeClaims(cc, c, order)) == Some(c)
  {
    StringMapBack(order, c.attributes);
    ClaimKeysDistinct(cc);
    ClaimsValuesAccepted(cc, c, order);
    ClaimsOfValues(cc, c, order);
    FieldsRoundTrip(ClaimsSpec(cc), ClaimsValues(cc, c, order));
  }

  /** Claims never depend on keys outside the table. */
  lemma UnknownClaimIgnored<C>(cc: ConfigCodec<C>, a: seq<Field>, f: Field, b: seq<Field>)
    requires forall i | 0 <= i < |ClaimsSpec(cc)| :: ClaimsSpec(cc)[i].key != f.key
    ensures DecodeClaims(cc, JObj(a + [f] + b)) == DecodeClaims(cc, JObj(a + b))
  {
    UnknownKeyIgnored(ClaimsSpec(cc), a, f, b);
  }

  /** The two objects decode alike in every row but `r`. */
  predicate SameRowsBut<C>(cc: ConfigCodec<C>, fs: seq<Field>, gs: seq<Field>, r: nat) {
    forall i | 0 <= i < |ClaimsSpec(cc)| && i != r ::
      DecodeField(ClaimsSpec(cc)[i], gs) == DecodeField(ClaimsSpec(cc)[i], fs)
  }

  /** A field inserted under the key of row `r`, where that key was missing, is seen by that row only. */
  lemma InsertedRow<C>(cc: ConfigCodec<C>, a: seq<Field>, f: Field, b: seq<Field>, r: nat)
    requires r < 11 && f.key == ClaimField(cc, r).key && Get(a + b, f.key).Absent?
    ensures SameRowsBut(cc, a + b, a + [f] + b, r)
    ensures DecodeField(ClaimField(cc, r), a + b) == ClaimField(cc, r).default
    ensures DecodeField(ClaimField(cc, r), a + [f] + b)
         == if Accepts(ClaimField(cc, r).ty, f.value) then Some(f.value) else None
  {
    ClaimKeysDistinct(cc);
    forall i: nat | i < 11 && i != r
      ensures DecodeField(ClaimsSpec(cc)[i], a + [f] + b) == DecodeField(ClaimsSpec(cc)[i], a + b)
    {
      assert ClaimsSpec(cc)[r].key == f.key && ClaimsSpec(cc)[i].key != f.key;
      GetInserted(a, f, b, ClaimsSpec(cc)[i].key);
    }
    GetInsertedKey(a, f, b);
  }

  /** Decoded rows that agree but for the `video` row, where both values mean the same, are the same claims. */
  lemma SameMeaning<C>(cc: ConfigCodec<C>, a: seq<Json>, b: seq<Json>)
    requires |a| == 11 && |b| == 11 && forall i | 0 <= i < 11 && i != 5 :: a[i] == b[i]
    requires DecodeVideo(a[5]) == DecodeVideo(b[5])
    ensures ClaimsOf(cc, a) == ClaimsOf(cc, b)
  {
  }

  lemma SameVideoSameClaims<C>(cc: ConfigCodec<C>, fs: seq<Field>, gs: seq<Field>, v: Json, u: Json)
    requires SameRowsBut(cc, fs, gs, 5) && DecodeVideo(v) == DecodeVideo(u)
    requires DecodeField(ClaimField(cc, 5), fs) == Some(v) && DecodeField(ClaimField(cc, 5), gs) == Some(u)
    ensures DecodeClaims(cc, JObj(gs)) == DecodeClaims(cc, JObj(fs))
  {
    OneRowDiffers(ClaimsSpec(cc), fs, gs, 5);
    if DecodeFields(ClaimsSpec(cc), gs).Some? {
      SameMeaning(cc, DecodeFields(ClaimsSpec(cc), fs).value, DecodeFields(ClaimsSpec(cc), gs).value);
    }
  }

  lemma NestedAccepts(f: Spec, accepts: Json -> bool, j: Json)
    requires f.ty == TNested(accepts)
    ensures Accepts(f.ty, j) <==> accepts(j)
  {
  }

  lemma VideoClaimType<C>(cc: ConfigCodec<C>)
    ensures ClaimField(cc, 5).key == "video" && ClaimField(cc, 5).ty == TNested(IsVideo)
    ensures ClaimField(cc, 5).default == Some(EncodeVideo(DEFAULT_VIDEO))
  {
  }

  lemma VideoClaimField<C>(cc: ConfigCodec<C>, j: Json)
    ensures ClaimField(cc, 5) == Spec("video", TNested(IsVideo), Some(EncodeVideo(DEFAULT_VIDEO)))
    ensures Accepts(ClaimField(cc, 5).ty, j) <==> IsVideo(j)
  {
    VideoClaimType(cc);
    NestedAccepts(ClaimField(cc, 5), IsVideo, j);
  }

  lemma EmptyMeansDefault()
    ensures IsVideo(JObj([])) && DecodeVideo(EncodeVideo(DEFAULT_VIDEO)) == DecodeVideo(JObj([]))
  {
    EmptyVideoIsDefault();
    VideoRoundTrip(DEFAULT_VIDEO);
  }

  /** A missing `video` claim and an empty one, wherever it stands, decode alike. */
  lemma AbsentVideoIsEmptyVideo<C>(cc: ConfigCodec<C>, a: seq<Field>, b: seq<Field>)
    requires Get(a + b, "video").Absent?
    ensures DecodeClaims(cc, JObj(a + [Field("video", JObj([]))] + b)) == DecodeClaims(cc, JObj(a + b))
  {
    var empty := Field("video", JObj([]));
    VideoClaimField(cc, empty.value);
    EmptyMeansDefault();
    InsertedRow(cc, a, empty, b, 5);
    SameVideoSameClaims(cc, a + b, a + [empty] + b, EncodeVideo(DEFAULT_VIDEO), JObj([]));
  }

  lemma SipClaimField<C>(cc: ConfigCodec<C>, j: Json)
    ensures ClaimField(cc, 6) == Spec("sip", TNested(IsSip), Some(EncodeSip(DEFAULT_SIP)))
    ensures Accepts(ClaimField(cc, 6).ty, j) <==> IsSip(j)
  {
  }

  lemma EmptyIsNoSip()
    ensures !IsSip(JObj([])) && DecodeSip(EncodeSip(DEFAULT_SIP)) == Some(DEFAULT_SIP)
  {
    SipNeedsBothKeys([]);
    SipRoundTrip(DEFAULT_SIP);
  }

  lemma DecodedSip<C>(cc: ConfigCodec<C>, fs: seq<Field>, v: Json, g: SipGrants)
    requires DecodeField(ClaimField(cc, 6), fs) == Some(v) && DecodeSip(v) == Some(g)
    ensures DecodeClaims(cc, JObj(fs)).Some? ==> DecodeClaims(cc, JObj(fs)).value.sip == g
  {
    DecodeFieldsPointwise(ClaimsSpec(cc), fs);
    assert ClaimsSpec(cc)[6] == ClaimField(cc, 6);
  }

  /** The same is not true of `sip`: missing it means no grants, but an empty object is rejected wherever it stands. */
  lemma EmptySipIsRejected<C>(cc: ConfigCodec<C>, a: seq<Field>, b: seq<Field>)
    requires Get(a + b, "sip").Absent?
    ensures DecodeClaims(cc, JObj(a + [Field("sip", JObj([]))] + b)).None?
    ensures DecodeClaims(cc, JObj(a + b)).Some? ==> DecodeClaims(cc, JObj(a + b)).value.sip == DEFAULT_SIP
  {
    var empty := Field("sip", JObj([]));
    SipClaimField(cc, empty.value);
    EmptyIsNoSip();
    InsertedRow(cc, a, empty, b, 6);
    OneRowDiffers(ClaimsSpec(cc), a + b, a + [empty] + b, 6);
    DecodedSip(cc, a + b, EncodeSip(DEFAULT_SIP), DEFAULT_SIP);
  }
}
