/** GREASE (RFC 8701), and what individual extensions mean. */
module Extensions {
  import opened Bits
  import opened Results
  import opened Lists
  import opened Readers
  import opened ClientHello

  const EXT_SERVER_NAME: u16 := 0x0000
  const EXT_SUPPORTED_GROUPS: u16 := 0x000a
  const EXT_EC_POINT_FORMATS: u16 := 0x000b
  const EXT_SIG_ALGS: u16 := 0x000d
  const EXT_ALPN: u16 := 0x0010
  const EXT_SUPPORTED_VERSIONS: u16 := 0x002b

  // ----- GREASE -----

  predicate IsGrease(v: u16) {
    var hi, lo := v / 0x100, v % 0x100;
    hi == lo && lo % 0x10 == 0x0a
  }

  predicate NotGrease(v: u16) {
    !IsGrease(v)
  }

  /** The sixteen reserved values, and no others. */
  lemma GreaseValues(v: u16)
    ensures IsGrease(v) <==> exists k :: 0 <= k < 16 && v == 0x1010 * k + 0x0a0a
  {
    if IsGrease(v) {
      var k := v % 0x100 / 0x10;
      assert v == 0x1010 * k + 0x0a0a;
    }
  }

  function Strip(values: seq<u16>): (r: seq<u16>)
    ensures forall v :: v in r <==> v in values && !IsGrease(v)
  {
    Filter(values, NotGrease)
  }

  function Positions(values: seq<u16>): (r: seq<nat>)
    ensures forall i :: i in r <==> 0 <= i < |values| && IsGrease(values[i])
    ensures |r| + |Strip(values)| == |values|
  {
    if values == [] then []
    else
      var last := |values| - 1;
      Positions(values[..last]) + if IsGrease(values[last]) then [last] else []
  }

  // ----- extension bodies -----

  /** The body of the first extension with identifier `id`. */
  function BodyOf(exts: seq<RawExt>, id: u16): (r: Option<Bytes>)
    ensures r.None? ==> forall e :: e in exts ==> e.id != id
    ensures r.Some? ==> exists e :: e in exts && e.id == id && e.body == r.value
  {
    if exts == [] then None
    else if exts[0].id == id then Some(exts[0].body)
    else BodyOf(exts[1..], id)
  }

  function Id(e: RawExt): u16 { e.id }

  function Ids(exts: seq<RawExt>): seq<u16> { Map(exts, Id) }

  predicate HasSni(exts: seq<RawExt>) {
    EXT_SERVER_NAME in Ids(exts)
  }

  /** The items of a body that starts with their total length in `width` octets; none if they do not fit. */
  function Vector(body: Bytes, width: nat): Option<Bytes> {
    if |body| < width then None
    else
      var end := width + BigEndian(body[..width]);
      if end > |body| then None else Some(body[width..end])
  }

  /** The first protocol of an ALPN body, when it is text. */
  function AlpnIn(body: Bytes, isText: Bytes -> bool): Option<Bytes> {
    match Vector(body, 2)
    case None => None
    case Some(list) =>
      match Vector(list, 1)
      case None => None
      case Some(name) => if isText(name) then Some(name) else None
  }

  function FirstAlpn(exts: seq<RawExt>, isText: Bytes -> bool): Option<Bytes> {
    match BodyOf(exts, EXT_ALPN)
    case None => None
    case Some(body) => AlpnIn(body, isText)
  }

  function U16List(body: Option<Bytes>): seq<u16> {
    match body
    case None => []
    case Some(b) =>
      match Vector(b, 2)
      case None => []
      case Some(items) => U16s(items)
  }

  function SigAlgs(exts: seq<RawExt>): seq<u16> {
    U16List(BodyOf(exts, EXT_SIG_ALGS))
  }

  function Groups(exts: seq<RawExt>): seq<u16> {
    U16List(BodyOf(exts, EXT_SUPPORTED_GROUPS))
  }

  function PointFormats(exts: seq<RawExt>): Bytes {
    match BodyOf(exts, EXT_EC_POINT_FORMATS)
    case None => []
    case Some(body) =>
      match Vector(body, 1)
      case None => []
      case Some(items) => items
  }

  function Greatest(values: seq<u16>, default: u16): (r: u16)
    ensures values == [] ==> r == default
    ensures values != [] ==> r in values && forall v :: v in values ==> v <= r
  {
    if values == [] then default
    else if |values| == 1 then values[0]
    else
      var m := Greatest(values[1..], default);
      assert values == [values[0]] + values[1..];
      if m < values[0] then values[0] else m
  }

  /** The highest version in a body, GREASE aside; the legacy field when there is none. */
  function VersionIn(body: Bytes, legacy: u16): u16 {
    match Vector(body, 1)
    case None => legacy
    case Some(items) => Greatest(Strip(U16s(items)), legacy)
  }

  function NegotiatedVersion(exts: seq<RawExt>, legacy: u16): u16 {
    match BodyOf(exts, EXT_SUPPORTED_VERSIONS)
    case None => legacy
    case Some(body) => VersionIn(body, legacy)
  }

  method ReadVector8(body: Bytes) returns (items: Option<Bytes>)
    ensures items == Vector(body, 1)
  {
    var r := new Reader(body, body, 0);
    var len := r.U8();
    if len.Err? {
      return None;
    }
    BigEndianOfFew(body[..1]);
    var taken := r.Take(len.value);
    return if taken.Ok? then Some(taken.value) else None;
  }

  method ReadVector16(body: Bytes) returns (items: Option<Bytes>)
    ensures items == Vector(body, 2)
  {
    var r := new Reader(body, body, 0);
    var len := r.U16();
    if len.Err? {
      return None;
    }
    var taken := r.Take(len.value);
    return if taken.Ok? then Some(taken.value) else None;
  }

  method ReadAlpn(exts: seq<RawExt>, isText: Bytes -> bool) returns (name: Option<Bytes>)
    ensures name == FirstAlpn(exts, isText)
  {
    var body := BodyOf(exts, EXT_ALPN);
    if body.None? {
      return None;
    }
    var list := ReadVector16(body.value);
    if list.None? {
      return None;
    }
    var bytes := ReadVector8(list.value);
    return if bytes.Some? && isText(bytes.value) then bytes else None;
  }

  method ReadU16List(body: Option<Bytes>) returns (values: seq<u16>)
    ensures values == U16List(body)
  {
    if body.None? {
      return [];
    }
    var items := ReadVector16(body.value);
    return if items.Some? then U16s(items.value) else [];
  }

  method ReadSigAlgs(exts: seq<RawExt>) returns (values: seq<u16>)
    ensures values == SigAlgs(exts)
  {
    values := ReadU16List(BodyOf(exts, EXT_SIG_ALGS));
  }

  method ReadGroups(exts: seq<RawExt>) returns (values: seq<u16>)
    ensures values == Groups(exts)
  {
    values := ReadU16List(BodyOf(exts, EXT_SUPPORTED_GROUPS));
  }

  method ReadPointFormats(exts: seq<RawExt>) returns (formats: Bytes)
    ensures formats == PointFormats(exts)
  {
    var body := BodyOf(exts, EXT_EC_POINT_FORMATS);
    if body.None? {
      return [];
    }
    var items := ReadVector8(body.value);
    return if items.Some? then items.value else [];
  }

  method ReadVersion(exts: seq<RawExt>, legacy: u16) returns (version: u16)
    ensures version == NegotiatedVersion(exts, legacy)
  {
    var body := BodyOf(exts, EXT_SUPPORTED_VERSIONS);
    if body.None? {
      return legacy;
    }
    var items := ReadVector8(body.value);
    return if items.Some? then Greatest(Strip(U16s(items.value)), legacy) else legacy;
  }

  // ----- what a walk over the extensions depends on -----

  /** An extension without its place. */
  datatype Field = Field(id: u16, body: Bytes)

  function FieldOf(e: RawExt): Field { Field(e.id, e.body) }

  function FieldId(f: Field): u16 { f.id }

  predicate Meaningful(f: Field) {
    !IsGrease(f.id)
  }

  /** The extensions that are not GREASE, in wire order. */
  function Fields(exts: seq<RawExt>): seq<Field> {
    Filter(Map(exts, FieldOf), Meaningful)
  }

  /** No identifier, GREASE aside, is used with two different bodies. */
  ghost predicate Consistent(exts: seq<RawExt>) {
    forall f, g :: f in Fields(exts) && g in Fields(exts) && f.id == g.id ==> f == g
  }

  lemma FieldsOf(exts: seq<RawExt>, f: Field)
    ensures f in Fields(exts) <==> !IsGrease(f.id) && exists e :: e in exts && FieldOf(e) == f
  {
    var m := Map(exts, FieldOf);
    if f in m {
      var i :| 0 <= i < |m| && m[i] == f;
      assert exts[i] in exts;
    }
    if exists e :: e in exts && FieldOf(e) == f {
      var e :| e in exts && FieldOf(e) == f;
      var i :| 0 <= i < |exts| && exts[i] == e;
      assert m[i] == f;
    }
  }

  lemma {:induction false} StrippedIds(exts: seq<RawExt>)
    ensures Strip(Ids(exts)) == Map(Fields(exts), FieldId)
  {
    if exts != [] {
      var init := exts[..|exts| - 1];
      StrippedIds(init);
      assert Ids(exts)[..|exts| - 1] == Ids(init);
      assert Map(exts, FieldOf)[..|exts| - 1] == Map(init, FieldOf);
    }
  }

  /** With consistent extensions, the body found for an identifier is the one among the fields. */
  lemma {:induction false} BodyAmongFields(exts: seq<RawExt>, id: u16)
    requires Consistent(exts) && !IsGrease(id)
    ensures forall b :: BodyOf(exts, id) == Some(b) <==> Field(id, b) in Fields(exts)
  {
    var found := BodyOf(exts, id);
    forall b
      ensures found == Some(b) <==> Field(id, b) in Fields(exts)
    {
      FieldsOf(exts, Field(id, b));
      if found.Some? {
        FieldsOf(exts, Field(id, found.value));
      }
    }
  }

  /** Consistent extensions and any rearrangement of them, with GREASE added, removed or changed, give the same body for
    * every identifier. */
  lemma {:induction false} SameBody(a: seq<RawExt>, b: seq<RawExt>, id: u16)
    requires Consistent(a) && multiset(Fields(a)) == multiset(Fields(b)) && !IsGrease(id)
    ensures BodyOf(a, id) == BodyOf(b, id)
  {
    assert forall f :: f in Fields(a) <==> f in multiset(Fields(a));
    assert forall f :: f in Fields(b) <==> f in multiset(Fields(b));
    BodyAmongFields(a, id);
    BodyAmongFields(b, id);
    var x, y := BodyOf(a, id), BodyOf(b, id);
    if x.Some? {
      assert Field(id, x.value) in Fields(b);
    } else if y.Some? {
      assert Field(id, y.value) in Fields(a);
    }
  }

  /** What is found for an identifier is among the fields. */
  lemma {:induction false} FoundIsField(exts: seq<RawExt>, id: u16)
    requires !IsGrease(id)
    ensures BodyOf(exts, id).Some? ==> Field(id, BodyOf(exts, id).value) in Fields(exts)
    ensures BodyOf(exts, id).None? ==> forall f :: f in Fields(exts) ==> f.id != id
  {
    if BodyOf(exts, id).Some? {
      FieldsOf(exts, Field(id, BodyOf(exts, id).value));
    } else {
      forall f | f in Fields(exts)
        ensures f.id != id
      {
        FieldsOf(exts, f);
      }
    }
  }
}
