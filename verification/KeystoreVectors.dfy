/**
 Known answers: what small pieces of a keystore, and a whole one, are byte for byte (keystore_alias.go).
 */
module KeystoreVectors {
  import opened Prelude
  import opened Der
  import opened KeystoreFormat
  import opened KeystoreNaming
  import opened KeystoreSuccess

  lemma Short(tag: Byte, body: Bytes)
    requires |body| < 128
    ensures Encode(tag, body) == [tag, |body|] + body
  {
    EncodingShape(tag, body);
  }

  lemma ValueVector()
    ensures FriendlyName("a") == Some(Attribute(FRIENDLY_NAME, Raw(SET, [0x1E, 0x02, 0x00, 0x61], [])))
  {
    hide Encode;
    LetterA();
    Short(BMP, [0, 97]);
    assert Encode(BMP, [0, 97]) == [0x1E, 0x02, 0x00, 0x61];
  }

  /** The attribute that names an entry "a". */
  lemma AttributeVector()
    ensures FriendlyName("a").Some?
    ensures EncodeAttribute(FriendlyName("a").value)
            == [0x30, 0x11, 0x06, 0x09, 0x2A, 0x86, 0x48, 0x86, 0xF7, 0x0D, 0x01, 0x09, 0x14] + [0x31, 0x04, 0x1E, 0x02, 0x00, 0x61]
  {
    hide Encode, FriendlyName;
    ValueVector();
    var value: Bytes := [0x1E, 0x02, 0x00, 0x61];
    Short(SET, value);
    Short(OID, FRIENDLY_NAME);
    var body: Bytes := [0x06, 0x09] + FRIENDLY_NAME + ([0x31, 0x04] + value);
    assert AttributeBody(FriendlyName("a").value) == body;
    hide AttributeBody;
    Short(SEQUENCE, body);
  }

  const MAC := Mac(SHA256, Some(Raw(5, [], [])), [7], [8, 9], [8, 0])

  lemma AlgorithmVector()
    ensures AlgorithmBody(MAC) == [0x06, 0x09, 0x60, 0x86, 0x48, 0x01, 0x65, 0x03, 0x04, 0x02, 0x01, 0x05, 0x00]
  {
    hide Encode;
    Short(OID, SHA256);
    Short(5, []);
  }

  /** The MAC data of a SHA-256 digest after 2048 iterations, its parameters NULL. */
  lemma MacVector()
    ensures EncodeMac(MAC)
            == [0x30, 0x1C, 0x30, 0x12, 0x30, 0x0D]
               + [0x06, 0x09, 0x60, 0x86, 0x48, 0x01, 0x65, 0x03, 0x04, 0x02, 0x01, 0x05, 0x00]
               + [0x04, 0x01, 0x07, 0x04, 0x02, 0x08, 0x09, 0x02, 0x02, 0x08, 0x00]
  {
    hide Encode, AlgorithmBody;
    AlgorithmVector();
    MacAround(AlgorithmBody(MAC));
  }

  lemma MacAround(algorithm: Bytes)
    requires algorithm == AlgorithmBody(MAC) && |algorithm| == 13
    ensures EncodeMac(MAC)
            == [0x30, 0x1C, 0x30, 0x12, 0x30, 0x0D] + algorithm + [0x04, 0x01, 0x07, 0x04, 0x02, 0x08, 0x09, 0x02, 0x02, 0x08, 0x00]
  {
    hide Encode, AlgorithmBody;
    Short(SEQUENCE, algorithm);
    Short(OCTETS, [7]);
    var digest: Bytes := [0x30, 0x0D] + algorithm + [0x04, 0x01, 0x07];
    assert DigestBody(MAC) == digest;
    hide DigestBody;
    Short(SEQUENCE, digest);
    Short(OCTETS, [8, 9]);
    Short(INTEGER, [8, 0]);
    var body: Bytes := [0x30, 0x12] + digest + [0x04, 0x02, 0x08, 0x09, 0x02, 0x02, 0x08, 0x00];
    assert MacBody(MAC) == body;
    hide MacBody;
    Short(SEQUENCE, body);
  }

  /** The safe of the keystore of `KeystoreSuccess`, which holds one key entry. */
  const SAFE_BYTES: Bytes :=
    [0x30, 0x24, 0x06, 0x09, 0x2A, 0x86, 0x48, 0x86, 0xF7, 0x0D, 0x01, 0x07, 0x01, 0xA0, 0x17, 0x04, 0x15, 0x30, 0x13]
    + BAG_BYTES

  const BAG_BYTES: Bytes :=
    [0x30, 0x11, 0x06, 0x0B, 0x2A, 0x86, 0x48, 0x86, 0xF7, 0x0D, 0x01, 0x0C, 0x0A, 0x01, 0x01, 0xA0, 0x02, 0x04, 0x00]

  lemma BagVector()
    ensures EncodeList(EncodeBag, [BAG]) == BAG_BYTES
  {
    hide Encode;
    Short(OID, KEY_BAG);
    Short(EXPLICIT0, [OCTETS, 0]);
    var bag: Bytes := [0x06, 0x0B] + KEY_BAG + [0xA0, 0x02, 0x04, 0x00];
    assert BagBody(BAG) == bag;
    Short(SEQUENCE, bag);
    OneIsItsBytes(EncodeBag, BAG);
  }

  lemma SafeVector()
    ensures EncodeInfo(SAFE) == SAFE_BYTES
  {
    hide Encode, EncodeBag, EncodeList;
    BagVector();
    Short(SEQUENCE, BAG_BYTES);
    var bags: Bytes := [0x30, 0x13] + BAG_BYTES;
    assert EncodeBags([BAG]) == bags;
    hide EncodeBags;
    Short(OCTETS, bags);
    var inner: Bytes := [0x04, 0x15] + bags;
    Short(EXPLICIT0, inner);
    Short(OID, DATA);
    var body: Bytes := [0x06, 0x09] + DATA + ([0xA0, 0x17] + inner);
    assert InfoBody(SAFE) == body;
    Short(SEQUENCE, body);
  }

  /** And the whole of that keystore. */
  lemma KeystoreVector()
    ensures EncodePfx(KEYSTORE)
            == [0x30, 0x51, 0x02, 0x01, 0x03,
                0x30, 0x37, 0x06, 0x09, 0x2A, 0x86, 0x48, 0x86, 0xF7, 0x0D, 0x01, 0x07, 0x01, 0xA0, 0x2A, 0x04, 0x28, 0x30, 0x26]
               + SAFE_BYTES
               + [0x30, 0x13, 0x30, 0x0F, 0x30, 0x0B, 0x06, 0x09, 0x60, 0x86, 0x48, 0x01, 0x65, 0x03, 0x04, 0x02, 0x01,
                  0x04, 0x00, 0x04, 0x00]
  {
    hide PfxBody, EncodeInfo, EncodeMac;
    SafeVector();
    PlainMacVector();
    AuthSafeVector(SAFE_BYTES);
    AroundVector(EncodeInfo(KEYSTORE.authSafe), EncodeMac(KEYSTORE.mac.value));
  }

  lemma AroundVector(info: Bytes, mac: Bytes)
    requires info == EncodeInfo(KEYSTORE.authSafe) && mac == EncodeMac(KEYSTORE.mac.value) && |info| == 57 && |mac| == 21
    ensures EncodePfx(KEYSTORE) == [0x30, 0x51, 0x02, 0x01, 0x03] + info + mac
  {
    hide Encode, EncodeInfo, EncodeMac;
    Short(INTEGER, [3]);
    var all: Bytes := [0x02, 0x01, 0x03] + info + mac;
    assert PfxBody(KEYSTORE) == all;
    Short(SEQUENCE, all);
  }

  lemma AuthSafeVector(safe: Bytes)
    requires safe == EncodeInfo(SAFE) && |safe| == 38
    ensures EncodeInfo(KEYSTORE.authSafe)
            == [0x30, 0x37, 0x06, 0x09, 0x2A, 0x86, 0x48, 0x86, 0xF7, 0x0D, 0x01, 0x07, 0x01, 0xA0, 0x2A, 0x04, 0x28, 0x30, 0x26] + safe
  {
    hide Encode, EncodeInfo;
    OneIsItsBytes(EncodeInfo, SAFE);
    Short(SEQUENCE, safe);
    var safes: Bytes := [0x30, 0x26] + safe;
    assert EncodeSafes([SAFE]) == safes;
    hide EncodeSafes;
    Short(OCTETS, safes);
    var inner: Bytes := [0x04, 0x28] + safes;
    Short(EXPLICIT0, inner);
    Short(OID, DATA);
    var body: Bytes := [0x06, 0x09] + DATA + ([0xA0, 0x2A] + inner);
    assert InfoBody(KEYSTORE.authSafe) == body;
    hide InfoBody;
    Short(SEQUENCE, body);
    InfoIs(KEYSTORE.authSafe);
  }

  lemma InfoIs(x: Info)
    ensures EncodeInfo(x) == Encode(SEQUENCE, InfoBody(x))
  {
  }

  lemma PlainMacVector()
    ensures EncodeMac(KEYSTORE.mac.value)
            == [0x30, 0x13, 0x30, 0x0F, 0x30, 0x0B, 0x06, 0x09, 0x60, 0x86, 0x48, 0x01, 0x65, 0x03, 0x04, 0x02, 0x01,
                0x04, 0x00, 0x04, 0x00]
  {
    hide Encode;
    var m := KEYSTORE.mac.value;
    Short(OID, SHA256);
    var algorithm: Bytes := [0x06, 0x09] + SHA256;
    assert AlgorithmBody(m) == algorithm;
    Short(SEQUENCE, algorithm);
    Short(OCTETS, []);
    var digest: Bytes := [0x30, 0x0B] + algorithm + [0x04, 0x00];
    assert DigestBody(m) == digest;
    Short(SEQUENCE, digest);
    var body: Bytes := [0x30, 0x0F] + digest + [0x04, 0x00];
    assert MacBody(m) == body;
    Short(SEQUENCE, body);
  }
}
