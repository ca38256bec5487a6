/**
 The structures of a PKCS#12 keystore (section 4 of RFC 7292) as the alias code reads and writes
 them (keystore_alias.go), with a round trip for each. Object identifiers are compared by their
 encoded bytes.
 */
module KeystoreFormat {
  import opened Prelude
  import opened Der

  datatype Info = Info(kind: Bytes, content: Option<Raw>)

  datatype Attribute = Attribute(id: Bytes, value: Raw)

  datatype Bag = Bag(id: Bytes, value: Raw, attributes: Option<seq<Attribute>>)

  /** `iterations` is the encoded count; the default, one, is left out of the encoding. */
  datatype Mac = Mac(algorithm: Bytes, params: Option<Raw>, digest: Bytes, salt: Bytes, iterations: Bytes)

  datatype Pfx = Pfx(version: Bytes, authSafe: Info, mac: Option<Mac>)

  const INTEGER: Byte := 2
  const OCTETS: Byte := 4
  const OID: Byte := 6
  const BMP: Byte := 30
  const SEQUENCE: Byte := 48
  const SET: Byte := 49
  const EXPLICIT0: Byte := 160
  const PRIMITIVE0: Byte := 128

  // ---------- Elements ----------

  /** Encoding the element afresh gives the same bytes as emitting it. */
  predicate Sound(r: Raw) {
    r.full == [] || r.full == Encode(r.tag, r.body)
  }

  /** The element as it decodes. */
  function Fresh(r: Raw): Raw { r.(full := Encode(r.tag, r.body)) }

  lemma EmitIsEncode(r: Raw)
    requires Sound(r)
    ensures Emit(r) == Encode(r.tag, r.body) && |Emit(r)| > |r.body|
  {
  }

  /** The body of the first element, which must have the given tag, and what follows it. */
  function TakeAs(s: Bytes, tag: Byte): Option<(Bytes, Bytes)> {
    match Decode(s)
    case None => None
    case Some((r, rest)) => if r.tag == tag then Some((r.body, rest)) else None
  }

  lemma TakeEncoded(tag: Byte, body: Bytes, rest: Bytes)
    requires Fits(tag, body)
    ensures TakeAs(Encode(tag, body) + rest, tag) == Some((body, rest))
    ensures |Encode(tag, body)| > |body| && Encode(tag, body)[0] == tag
  {
    RoundTrip(tag, body, rest);
  }

  /** The first element of a string, whatever its tag, if there is one. */
  function TakeOptional(s: Bytes): Option<(Option<Raw>, Bytes)> {
    if s == [] then Some((None, []))
    else match Decode(s)
      case None => None
      case Some((r, rest)) => Some((Some(r), rest))
  }

  /** An element under an explicit context tag of zero: of that tag, and constructed unless empty. */
  predicate Explicit0(r: Raw) { r.tag == EXPLICIT0 || (r.tag == PRIMITIVE0 && r.body == []) }

  /** The element under an explicit [0], if that is what a string starts with; what starts otherwise is
      left unread. A tag at the very end of the string, with no child, is refused whatever it is. */
  function TakeExplicit(s: Bytes): Option<(Option<Raw>, Bytes)> {
    if s == [] then Some((None, []))
    else match Header(s)
      case None => None
      case Some((n, h)) =>
        if h == |s| then None
        else if s[0] != EXPLICIT0 && !(s[0] == PRIMITIVE0 && n == 0) then Some((None, s))
        else match Decode(s)
          case None => None
          case Some((r, rest)) => Some((Some(r), rest))
  }

  lemma ExplicitRoundTrip(r: Raw, rest: Bytes)
    requires Sound(r) && Explicit0(r) && |r.body| < LIMIT
    ensures TakeExplicit(Emit(r) + rest) == if r.body == [] && rest == [] then None else Some((Some(Fresh(r)), rest))
  {
    EmitIsEncode(r);
    RoundTrip(r.tag, r.body, rest);
    HeaderOfEncoded(r.tag, r.body, rest);
  }

  lemma HeaderOfEncoded(tag: Byte, body: Bytes, rest: Bytes)
    requires Fits(tag, body)
    ensures var s := Encode(tag, body) + rest;
            s != [] && s[0] == tag && Header(s) == Some((|body|, |s| - |body| - |rest|))
  {
    var s := Encode(tag, body) + rest;
    LengthRoundTrip(|body|, body + rest);
    assert s[1..] == EncodeLength(|body|) + (body + rest);
  }

  lemma TakenExplicit(s: Bytes)
    requires TakeExplicit(s).Some? && TakeExplicit(s).value.0.Some?
    ensures var r := TakeExplicit(s).value.0.value; Sound(r) && Explicit0(r) && Fresh(r) == r
  {
    Canonical(s);
  }

  function EmitOptional(r: Option<Raw>): Bytes {
    match r case None => [] case Some(x) => Emit(x)
  }

  function FreshOptional(r: Option<Raw>): Option<Raw> {
    match r case None => None case Some(x) => Some(Fresh(x))
  }

  // ---------- Lists ----------

  function DecodeList<T>(item: Bytes -> Option<(T, Bytes)>, s: Bytes): Option<seq<T>>
    decreases |s|
  {
    if s == [] then Some([])
    else match item(s)
      case None => None
      case Some((x, rest)) =>
        if |rest| >= |s| then None
        else match DecodeList(item, rest)
          case None => None
          case Some(xs) => Some([x] + xs)
  }

  function EncodeList<T>(item: T -> Bytes, xs: seq<T>): Bytes {
    if xs == [] then [] else item(xs[0]) + EncodeList(item, xs[1..])
  }

  predicate All<T>(good: T -> bool, xs: seq<T>) { forall i | 0 <= i < |xs| :: good(xs[i]) }

  /** A list reads back if every item does, and otherwise not at all. */
  lemma {:induction false} ListRoundTrip<T>(enc: T -> Bytes, dec: Bytes -> Option<(T, Bytes)>, norm: T -> T, good: T -> bool, xs: seq<T>)
    requires forall i, rest: Bytes | 0 <= i < |xs| ::
               dec(enc(xs[i]) + rest) == if good(xs[i]) then Some((norm(xs[i]), rest)) else None
    requires forall i | 0 <= i < |xs| :: |enc(xs[i])| > 0
    ensures DecodeList(dec, EncodeList(enc, xs)) == if All(good, xs) then Some(Image(norm, xs)) else None
  {
    if xs != [] {
      forall i, rest: Bytes | 0 <= i < |xs[1..]|
        ensures dec(enc(xs[1..][i]) + rest) == if good(xs[1..][i]) then Some((norm(xs[1..][i]), rest)) else None
        ensures |enc(xs[1..][i])| > 0
      {
        assert xs[1..][i] == xs[i + 1];
      }
      ListRoundTrip(enc, dec, norm, good, xs[1..]);
      AllStep(good, xs);
      assert dec(enc(xs[0]) + EncodeList(enc, xs[1..]))
             == if good(xs[0]) then Some((norm(xs[0]), EncodeList(enc, xs[1..]))) else None;
      assert Image(norm, xs) == [norm(xs[0])] + Image(norm, xs[1..]);
    }
  }

  lemma AllStep<T>(good: T -> bool, xs: seq<T>)
    requires xs != []
    ensures All(good, xs) <==> good(xs[0]) && All(good, xs[1..])
  {
    assert forall i | 0 <= i < |xs| - 1 :: xs[1..][i] == xs[i + 1];
    assert forall i | 0 < i < |xs| :: xs[i] == xs[1..][i - 1];
  }

  lemma {:induction false} ListLonger<T>(enc: T -> Bytes, xs: seq<T>, i: nat)
    requires i < |xs|
    ensures |enc(xs[i])| <= |EncodeList(enc, xs)|
  {
    if i > 0 {
      ListLonger(enc, xs[1..], i - 1);
    }
  }

  // ---------- ContentInfo ----------

  function InfoBody(x: Info): Bytes { Encode(OID, x.kind) + EmitOptional(x.content) }

  function EncodeInfo(x: Info): Bytes { Encode(SEQUENCE, InfoBody(x)) }

  function DecodeInfo(s: Bytes): Option<(Info, Bytes)> {
    match TakeAs(s, SEQUENCE)
    case None => None
    case Some((body, rest)) =>
      match TakeAs(body, OID)
      case None => None
      case Some((kind, more)) =>
        match TakeExplicit(more)
        case None => None
        case Some((content, _)) => Some((Info(kind, content), rest))
  }

  predicate SoundInfo(x: Info) {
    x.content.Some? ==> Sound(x.content.value) && Explicit0(x.content.value)
  }

  /** The content is last, so its tag needs a child. */
  predicate InfoHasChild(x: Info) { x.content.Some? ==> x.content.value.body != [] }

  function FreshInfo(x: Info): Info { x.(content := FreshOptional(x.content)) }

  /** What is written reads back, except that an element without a child does not. */
  lemma InfoRoundTrip(x: Info, rest: Bytes)
    requires SoundInfo(x) && |InfoBody(x)| < LIMIT
    ensures DecodeInfo(EncodeInfo(x) + rest) == if InfoHasChild(x) then Some((FreshInfo(x), rest)) else None
    ensures |EncodeInfo(x)| > |InfoBody(x)|
  {
    hide Encode, TakeAs, TakeExplicit, Sound;
    EncodeLonger(SEQUENCE, InfoBody(x));
    EncodeLonger(OID, x.kind);
    TakeEncoded(SEQUENCE, InfoBody(x), rest);
    TakeEncoded(OID, x.kind, EmitOptional(x.content));
    if x.content.Some? {
      var r := x.content.value;
      EmitIsEncode(r);
      ExplicitRoundTrip(r, []);
      assert Emit(r) + [] == Emit(r);
    } else {
      NothingExplicit();
    }
  }

  lemma NothingExplicit()
    ensures TakeExplicit([]) == Some((None, []))
  {
  }

  /** What decodes is sound and unchanged by decoding again. */
  lemma DecodedInfo(s: Bytes)
    requires DecodeInfo(s).Some?
    ensures var (x, _) := DecodeInfo(s).value; SoundInfo(x) && FreshInfo(x) == x
  {
    var (body, _) := TakeAs(s, SEQUENCE).value;
    var (_, more) := TakeAs(body, OID).value;
    if TakeExplicit(more).value.0.Some? {
      TakenExplicit(more);
    }
  }

  // ---------- Attributes and bags ----------

  function AttributeBody(x: Attribute): Bytes { Encode(OID, x.id) + Emit(x.value) }

  function EncodeAttribute(x: Attribute): Bytes { Encode(SEQUENCE, AttributeBody(x)) }

  function DecodeAttribute(s: Bytes): Option<(Attribute, Bytes)> {
    match TakeAs(s, SEQUENCE)
    case None => None
    case Some((body, rest)) =>
      match TakeAs(body, OID)
      case None => None
      case Some((id, more)) =>
        match Decode(more)
        case None => None
        case Some((value, _)) => Some((Attribute(id, value), rest))
  }

  function FreshAttribute(x: Attribute): Attribute { x.(value := Fresh(x.value)) }

  lemma AttributeRoundTrip(x: Attribute, rest: Bytes)
    requires Sound(x.value) && x.value.tag % 32 != 31 && |AttributeBody(x)| < LIMIT
    ensures DecodeAttribute(EncodeAttribute(x) + rest) == Some((FreshAttribute(x), rest))
    ensures |EncodeAttribute(x)| > |AttributeBody(x)|
  {
    TakeEncoded(SEQUENCE, AttributeBody(x), rest);
    TakeEncoded(OID, x.id, Emit(x.value));
    RoundTrip(x.value.tag, x.value.body, []);
    assert Emit(x.value) + [] == Emit(x.value);
  }

  lemma DecodedAttribute(s: Bytes)
    requires DecodeAttribute(s).Some?
    ensures var (x, _) := DecodeAttribute(s).value; GoodAttribute(x) && FreshAttribute(x) == x
  {
    var (body, _) := TakeAs(s, SEQUENCE).value;
    var (_, more) := TakeAs(body, OID).value;
    Canonical(more);
  }

  predicate GoodAttribute(x: Attribute) { Sound(x.value) && x.value.tag % 32 != 31 }

  /** A SET OF is written with its elements' encodings in dictionary order. */
  function Insert(x: Attribute, xs: seq<Attribute>): (ys: seq<Attribute>)
    ensures multiset(ys) == multiset{x} + multiset(xs)
  {
    if xs == [] then [x]
    else if Before(EncodeAttribute(xs[0]), EncodeAttribute(x)) then
      assert xs == [xs[0]] + xs[1..];
      [xs[0]] + Insert(x, xs[1..])
    else [x] + xs
  }

  /** A SET OF is written in the order of its encodings, whatever order it was read in. */
  function Sorted(xs: seq<Attribute>): (ys: seq<Attribute>)
    ensures multiset(ys) == multiset(xs)
  {
    if xs == [] then []
    else
      assert xs == [xs[0]] + xs[1..];
      Insert(xs[0], Sorted(xs[1..]))
  }

  /** No encoding comes before the one in front of it. */
  predicate InOrder(ys: seq<Attribute>) {
    forall i, j | 0 <= i < |ys| && j == i + 1 < |ys| :: !Before(EncodeAttribute(ys[j]), EncodeAttribute(ys[i]))
  }

  lemma OrderedAfter(x: Attribute, ys: seq<Attribute>)
    requires InOrder(ys) && (ys != [] ==> !Before(EncodeAttribute(ys[0]), EncodeAttribute(x)))
    ensures InOrder([x] + ys)
  {
    hide EncodeAttribute;
    var zs := [x] + ys;
    forall i, j | 0 <= i < |zs| && j == i + 1 < |zs| ensures !Before(EncodeAttribute(zs[j]), EncodeAttribute(zs[i])) {
      assert zs[j] == ys[i] && (i > 0 ==> zs[i] == ys[i - 1]);
    }
  }

  lemma OrderedRest(xs: seq<Attribute>)
    requires xs != [] && InOrder(xs)
    ensures InOrder(xs[1..]) && (|xs| > 1 ==> !Before(EncodeAttribute(xs[1]), EncodeAttribute(xs[0])))
  {
    hide EncodeAttribute;
    var rest := xs[1..];
    forall i, j | 0 <= i < |rest| && j == i + 1 < |rest| ensures !Before(EncodeAttribute(rest[j]), EncodeAttribute(rest[i])) {
      assert rest[j] == xs[j + 1] && rest[i] == xs[i + 1];
    }
  }

  lemma {:induction false} InsertInOrder(x: Attribute, xs: seq<Attribute>)
    requires InOrder(xs)
    ensures InOrder(Insert(x, xs))
    ensures Insert(x, xs)[0] == x || (xs != [] && Insert(x, xs)[0] == xs[0])
  {
    hide EncodeAttribute, InOrder;
    if xs != [] && Before(EncodeAttribute(xs[0]), EncodeAttribute(x)) {
      OrderedRest(xs);
      InsertInOrder(x, xs[1..]);
      BeforeOrders(EncodeAttribute(xs[0]), EncodeAttribute(x), EncodeAttribute(xs[0]));
      OrderedAfter(xs[0], Insert(x, xs[1..]));
    } else {
      OrderedAfter(x, xs);
      assert [x] + [] == [x];
    }
  }

  /** A set is written in order: no encoding comes before the one in front of it. */
  lemma {:induction false} SortedInOrder(xs: seq<Attribute>)
    ensures multiset(Sorted(xs)) == multiset(xs) && InOrder(Sorted(xs))
  {
    hide EncodeAttribute, Insert;
    if xs != [] {
      SortedInOrder(xs[1..]);
      InsertInOrder(xs[0], Sorted(xs[1..]));
    }
  }

  function AttributesBody(xs: seq<Attribute>): Bytes { EncodeList(EncodeAttribute, Sorted(xs)) }

  function BagBody(x: Bag): Bytes {
    Encode(OID, x.id) + Emit(x.value)
    + (match x.attributes case None => [] case Some(xs) => Encode(SET, AttributesBody(xs)))
  }

  function EncodeBag(x: Bag): Bytes { Encode(SEQUENCE, BagBody(x)) }

  function DecodeAttributes(s: Bytes): Option<Option<seq<Attribute>>> {
    if s == [] then Some(None)
    else match Header(s)
      case None => None
      case Some(_) =>
        if s[0] != SET then Some(None)
        else match Decode(s)
          case None => None
          case Some((r, _)) =>
            match DecodeList(DecodeAttribute, r.body)
            case None => None
            case Some(xs) => Some(Some(xs))
  }

  function DecodeBag(s: Bytes): Option<(Bag, Bytes)> {
    match TakeAs(s, SEQUENCE)
    case None => None
    case Some((body, rest)) =>
      match TakeAs(body, OID)
      case None => None
      case Some((id, more)) =>
        match TakeExplicit(more)
        case Some((Some(value), last)) =>
          (match DecodeAttributes(last)
           case None => None
           case Some(attributes) => Some((Bag(id, value, attributes), rest)))
        case _ => None
  }

  predicate GoodBag(x: Bag) {
    && Sound(x.value) && Explicit0(x.value)
    && (x.attributes.Some? ==> forall a | a in x.attributes.value :: GoodAttribute(a))
  }

  /** The value's tag has a child, or at least is not last. */
  predicate BagHasChild(x: Bag) { x.value.body != [] || x.attributes.Some? }

  function FreshBag(x: Bag): Bag {
    Bag(x.id, Fresh(x.value),
        match x.attributes case None => None case Some(xs) => Some(Image(FreshAttribute, Sorted(xs))))
  }

  lemma AttributesRoundTrip(xs: seq<Attribute>)
    requires forall a | a in xs :: GoodAttribute(a)
    requires |AttributesBody(xs)| < LIMIT
    ensures DecodeList(DecodeAttribute, AttributesBody(xs)) == Some(Image(FreshAttribute, Sorted(xs)))
  {
    var ys := Sorted(xs);
    forall i, rest: Bytes | 0 <= i < |ys|
      ensures DecodeAttribute(EncodeAttribute(ys[i]) + rest) == Some((FreshAttribute(ys[i]), rest))
      ensures |EncodeAttribute(ys[i])| > 0
    {
      assert ys[i] in multiset(ys);
      assert ys[i] in xs;
      ListLonger(EncodeAttribute, ys, i);
      AttributeRoundTrip(ys[i], rest);
    }
    ListRoundTrip(EncodeAttribute, DecodeAttribute, FreshAttribute, _ => true, ys);
  }

  /** What is written reads back, its attributes in the order of a set; a value without a child at the
      end does not. */
  lemma BagRoundTrip(x: Bag, rest: Bytes)
    requires GoodBag(x) && |BagBody(x)| < LIMIT
    ensures DecodeBag(EncodeBag(x) + rest) == if BagHasChild(x) then Some((FreshBag(x), rest)) else None
    ensures |EncodeBag(x)| > |BagBody(x)|
  {
    hide Encode, Decode, TakeAs, TakeExplicit, DecodeAttributes, AttributesBody, Emit, Sound;
    EncodeLonger(SEQUENCE, BagBody(x));
    var last: Bytes := match x.attributes case None => [] case Some(xs) => Encode(SET, AttributesBody(xs));
    EmitIsEncode(x.value);
    EncodeLonger(OID, x.id);
    if x.attributes.Some? { EncodeLonger(SET, AttributesBody(x.attributes.value)); }
    TakeEncoded(SEQUENCE, BagBody(x), rest);
    assert BagBody(x) == Encode(OID, x.id) + (Emit(x.value) + last);
    TakeEncoded(OID, x.id, Emit(x.value) + last);
    ExplicitRoundTrip(x.value, last);
    OptionalAttributesRoundTrip(x.attributes);
  }

  lemma OptionalAttributesRoundTrip(attributes: Option<seq<Attribute>>)
    requires attributes.Some? ==> |AttributesBody(attributes.value)| < LIMIT && forall a | a in attributes.value :: GoodAttribute(a)
    ensures DecodeAttributes(match attributes case None => [] case Some(xs) => Encode(SET, AttributesBody(xs)))
            == Some(match attributes case None => None case Some(xs) => Some(Image(FreshAttribute, Sorted(xs))))
  {
    hide Encode, AttributesBody;
    if attributes.Some? {
      var body := AttributesBody(attributes.value);
      RoundTrip(SET, body, []);
      HeaderOfEncoded(SET, body, []);
      assert Encode(SET, body) + [] == Encode(SET, body);
      AttributesRoundTrip(attributes.value);
    }
  }

  lemma {:induction false} DecodedAttributes(s: Bytes)
    requires DecodeList(DecodeAttribute, s).Some?
    ensures forall x | x in DecodeList(DecodeAttribute, s).value :: GoodAttribute(x) && FreshAttribute(x) == x
    decreases |s|
  {
    if s != [] {
      DecodedAttribute(s);
      DecodedAttributes(DecodeAttribute(s).value.1);
    }
  }

  lemma DecodedBag(s: Bytes)
    requires DecodeBag(s).Some?
    ensures var (x, _) := DecodeBag(s).value;
            && GoodBag(x) && Fresh(x.value) == x.value
            && (x.attributes.Some? ==> forall a | a in x.attributes.value :: FreshAttribute(a) == a)
  {
    var (body, _) := TakeAs(s, SEQUENCE).value;
    var (_, more) := TakeAs(body, OID).value;
    TakenExplicit(more);
    var last := TakeExplicit(more).value.1;
    if last != [] && last[0] == SET {
      DecodedAttributes(Decode(last).value.0.body);
    }
  }

  // ---------- MAC and PFX ----------

  /** The encoded content of an INTEGER that fits 64 bits, in its shortest form. */
  predicate IsInteger(b: Bytes) {
    && 1 <= |b| <= 8
    && (|b| > 1 ==> !(b[0] == 0 && b[1] < 128) && !(b[0] == 255 && b[1] >= 128))
  }

  function AlgorithmBody(m: Mac): Bytes { Encode(OID, m.algorithm) + EmitOptional(m.params) }

  function DigestBody(m: Mac): Bytes { Encode(SEQUENCE, AlgorithmBody(m)) + Encode(OCTETS, m.digest) }

  function MacBody(m: Mac): Bytes {
    Encode(SEQUENCE, DigestBody(m)) + Encode(OCTETS, m.salt)
    + (if m.iterations == [1] then [] else Encode(INTEGER, m.iterations))
  }

  function EncodeMac(m: Mac): Bytes { Encode(SEQUENCE, MacBody(m)) }

  function DecodeIterations(s: Bytes): Option<Bytes> {
    if s == [] then Some([1])
    else match Header(s)
      case None => None
      case Some(_) =>
        if s[0] != INTEGER then Some([1])
        else match Decode(s)
          case None => None
          case Some((r, _)) => if IsInteger(r.body) then Some(r.body) else None
  }

  function DecodeDigest(s: Bytes): Option<(Bytes, Option<Raw>, Bytes)> {
    match TakeAs(s, SEQUENCE)
    case None => None
    case Some((algorithm, more)) =>
      match TakeAs(algorithm, OID)
      case None => None
      case Some((oid, params)) =>
        match TakeOptional(params)
        case None => None
        case Some((p, _)) =>
          match TakeAs(more, OCTETS)
          case None => None
          case Some((digest, _)) => Some((oid, p, digest))
  }

  function DecodeMac(s: Bytes): Option<Mac> {
    match TakeAs(s, SEQUENCE)
    case None => None
    case Some((info, more)) =>
      match DecodeDigest(info)
      case None => None
      case Some((oid, params, digest)) =>
        match TakeAs(more, OCTETS)
        case None => None
        case Some((salt, last)) =>
          match DecodeIterations(last)
          case None => None
          case Some(n) => Some(Mac(oid, params, digest, salt, n))
  }

  predicate GoodMac(m: Mac) {
    && IsInteger(m.iterations)
    && (m.params.Some? ==> Sound(m.params.value) && m.params.value.tag % 32 != 31)
  }

  function FreshMac(m: Mac): Mac { m.(params := FreshOptional(m.params)) }

  lemma DigestRoundTrip(m: Mac)
    requires GoodMac(m) && |DigestBody(m)| < LIMIT
    ensures DecodeDigest(DigestBody(m)) == Some((m.algorithm, FreshOptional(m.params), m.digest))
  {
    hide Encode, Decode, TakeAs, Emit;
    EncodeLonger(SEQUENCE, AlgorithmBody(m));
    EncodeLonger(OID, m.algorithm);
    EncodeLonger(OCTETS, m.digest);
    TakeEncoded(SEQUENCE, AlgorithmBody(m), Encode(OCTETS, m.digest));
    TakeEncoded(OID, m.algorithm, EmitOptional(m.params));
    TakeEncoded(OCTETS, m.digest, []);
    assert Encode(OCTETS, m.digest) + [] == Encode(OCTETS, m.digest);
    if m.params.Some? {
      var r := m.params.value;
      EmitIsEncode(r);
      RoundTrip(r.tag, r.body, []);
      assert Emit(r) + [] == Emit(r);
    }
  }

  lemma IterationsRoundTrip(n: Bytes)
    requires IsInteger(n)
    ensures DecodeIterations(if n == [1] then [] else Encode(INTEGER, n)) == Some(n)
  {
    RoundTrip(INTEGER, n, []);
    assert Encode(INTEGER, n) + [] == Encode(INTEGER, n);
  }

  lemma MacRoundTrip(m: Mac)
    requires GoodMac(m) && |MacBody(m)| < LIMIT
    ensures DecodeMac(MacBody(m)) == Some(FreshMac(m))
  {
    hide Encode, Decode, TakeAs, DigestBody, DecodeDigest, DecodeIterations;
    var last := if m.iterations == [1] then [] else Encode(INTEGER, m.iterations);
    assert MacBody(m) == Encode(SEQUENCE, DigestBody(m)) + (Encode(OCTETS, m.salt) + last);
    EncodeLonger(SEQUENCE, DigestBody(m));
    EncodeLonger(OCTETS, m.salt);
    TakeEncoded(SEQUENCE, DigestBody(m), Encode(OCTETS, m.salt) + last);
    TakeEncoded(OCTETS, m.salt, last);
    DigestRoundTrip(m);
    IterationsRoundTrip(m.iterations);
  }

  lemma EncodeLonger(tag: Byte, body: Bytes)
    ensures |Encode(tag, body)| > |body|
  {
  }

  lemma DecodedDigest(s: Bytes)
    requires DecodeDigest(s).Some?
    ensures var (_, params, _) := DecodeDigest(s).value;
            params.Some? ==> Sound(params.value) && params.value.tag % 32 != 31 && Fresh(params.value) == params.value
  {
    var (algorithm, _) := TakeAs(s, SEQUENCE).value;
    var (_, params) := TakeAs(algorithm, OID).value;
    if params != [] {
      Canonical(params);
    }
  }

  lemma DecodedMac(s: Bytes)
    requires DecodeMac(s).Some?
    ensures GoodMac(DecodeMac(s).value) && FreshMac(DecodeMac(s).value) == DecodeMac(s).value
  {
    hide TakeAs, DecodeDigest, Sound, Fresh, IsInteger;
    var (info, more) := TakeAs(s, SEQUENCE).value;
    DecodedDigest(info);
    OneIsAnInteger();
  }

  lemma OneIsAnInteger()
    ensures IsInteger([1])
  {
  }

  function PfxBody(x: Pfx): Bytes {
    Encode(INTEGER, x.version) + EncodeInfo(x.authSafe)
    + (match x.mac case None => [] case Some(m) => EncodeMac(m))
  }

  function EncodePfx(x: Pfx): Bytes { Encode(SEQUENCE, PfxBody(x)) }

  function DecodeOptionalMac(s: Bytes): Option<Option<Mac>> {
    if s == [] then Some(None)
    else match Header(s)
      case None => None
      case Some(_) =>
        if s[0] != SEQUENCE then Some(None)
        else match Decode(s)
          case None => None
          case Some((r, _)) =>
            match DecodeMac(r.body)
            case None => None
            case Some(m) => Some(Some(m))
  }

  function DecodePfx(s: Bytes): Option<(Pfx, Bytes)> {
    match TakeAs(s, SEQUENCE)
    case None => None
    case Some((body, rest)) =>
      match TakeAs(body, INTEGER)
      case None => None
      case Some((version, more)) =>
        if !IsInteger(version) then None
        else match DecodeInfo(more)
          case None => None
          case Some((authSafe, last)) =>
            match DecodeOptionalMac(last)
            case None => None
            case Some(mac) => Some((Pfx(version, authSafe, mac), rest))
  }

  predicate GoodPfx(x: Pfx) {
    IsInteger(x.version) && SoundInfo(x.authSafe) && (x.mac.Some? ==> GoodMac(x.mac.value))
  }

  function FreshPfx(x: Pfx): Pfx {
    Pfx(x.version, FreshInfo(x.authSafe), match x.mac case None => None case Some(m) => Some(FreshMac(m)))
  }

  lemma OptionalMacRoundTrip(mac: Option<Mac>)
    requires mac.Some? ==> GoodMac(mac.value) && |MacBody(mac.value)| < LIMIT
    ensures DecodeOptionalMac(match mac case None => [] case Some(m) => EncodeMac(m))
            == Some(match mac case None => None case Some(m) => Some(FreshMac(m)))
  {
    if mac.Some? {
      var all := EncodeMac(mac.value);
      EncodeLonger(SEQUENCE, MacBody(mac.value));
      RoundTrip(SEQUENCE, MacBody(mac.value), []);
      HeaderOfEncoded(SEQUENCE, MacBody(mac.value), []);
      assert all + [] == all;
      MacRoundTrip(mac.value);
    }
  }

  lemma PfxRoundTrip(x: Pfx)
    requires GoodPfx(x) && |PfxBody(x)| < LIMIT && InfoHasChild(x.authSafe)
    ensures DecodePfx(EncodePfx(x)) == Some((FreshPfx(x), []))
  {
    hide Encode, Decode, TakeAs, DecodeInfo, MacBody, DecodeOptionalMac, InfoBody;
    var last: Bytes := match x.mac case None => [] case Some(m) => EncodeMac(m);
    assert EncodePfx(x) + [] == EncodePfx(x);
    assert PfxBody(x) == Encode(INTEGER, x.version) + (EncodeInfo(x.authSafe) + last);
    EncodeLonger(SEQUENCE, InfoBody(x.authSafe));
    if x.mac.Some? { EncodeLonger(SEQUENCE, MacBody(x.mac.value)); }
    TakeEncoded(SEQUENCE, PfxBody(x), []);
    TakeEncoded(INTEGER, x.version, EncodeInfo(x.authSafe) + last);
    InfoRoundTrip(x.authSafe, last);
    OptionalMacRoundTrip(x.mac);
  }

  lemma DecodedPfx(s: Bytes)
    requires DecodePfx(s).Some?
    ensures var (x, _) := DecodePfx(s).value; GoodPfx(x) && FreshPfx(x) == x
  {
    var (body, _) := TakeAs(s, SEQUENCE).value;
    var (_, more) := TakeAs(body, INTEGER).value;
    DecodedInfo(more);
    var last := DecodeInfo(more).value.1;
    if last != [] && last[0] == SEQUENCE {
      DecodedMac(Decode(last).value.0.body);
    }
  }
}
