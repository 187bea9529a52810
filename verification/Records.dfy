/**
 The record envelope and the sealed body inside it. The JSON header codec, HKDF and AES-256-GCM are
 library code: they appear as function values, with the laws the results need stated beside them.
 */
module Records {
  import opened Base
  import opened Canonical
  import Clock
  import Utf8

  const RECORD_FORMAT_VERSION: u32 := 1
  const KEY_LEN: int := 32
  const NONCE_LEN: int := 12
  const TAG_LEN: int := 16

  /** The label clipysi/v1/cclip in ASCII. */
  const INFO_CCLIP: seq<u8> :=
    [0x63, 0x6C, 0x69, 0x70, 0x79, 0x73, 0x69, 0x2F, 0x76, 0x31, 0x2F, 0x63, 0x63, 0x6C, 0x69, 0x70]

  datatype Header = Header(
    formatVersion: u32,
    recordId: Uuid,
    originDeviceId: Uuid,
    hlc: Clock.Hlc,
    createdAt: i64,
    updatedAt: i64,
    deleted: bool,
    syncHash: Utf8.String)

  datatype Envelope = Envelope(header: Header, body: Option<seq<u8>>)

  // ----- The envelope

  datatype HeaderCodec = HeaderCodec(write: Header -> seq<u8>, read: seq<u8> -> Option<Header>) {
    /** Reading undoes writing. Other bytes may read as the same header. */
    ghost predicate Faithful() {
      forall h :: read(write(h)) == Some(h)
    }
  }

  function EnvelopeBytes(codec: HeaderCodec, e: Envelope): seq<u8> {
    PrefixedBytes(codec.write(e.header)) + (if e.body.Some? then [1] + e.body.value else [0])
  }

  method EncodeEnvelope(codec: HeaderCodec, e: Envelope) returns (out: Vec<u8>)
    ensures fresh(out) && out.items == EnvelopeBytes(codec, e)
  {
    var header := codec.write(e.header);
    out := new Vec<u8>();
    out.Extend(Le32(LengthField(|header|)));
    out.Extend(header);
    match e.body {
      case Some(body) =>
        out.Push(1);
        out.Extend(body);
      case None =>
        out.Push(0);
    }
  }

  function DecodeEnvelope(codec: HeaderCodec, bytes: seq<u8>): Result<Envelope> {
    if |bytes| < 5 then Err(UnsupportedFormat)
    else
      var headerEnd := 4 + FromLe32(bytes[..4]);
      if headerEnd > |bytes| then Err(UnsupportedFormat)
      else
        var header := codec.read(bytes[4..headerEnd]);
        if header.None? || header.value.formatVersion != RECORD_FORMAT_VERSION then Err(UnsupportedFormat)
        else if headerEnd == |bytes| || bytes[headerEnd] > 1 then Err(UnsupportedFormat)
        else
          var body := if bytes[headerEnd] == 0 then None else Some(bytes[headerEnd + 1..]);
          if body.Some? == header.value.deleted then Err(UnsupportedFormat)
          else Ok(Envelope(header.value, body))
  }

  /** A known version, and a body present exactly when the record is not deleted. */
  predicate WellFormed(e: Envelope) {
    e.header.formatVersion == RECORD_FORMAT_VERSION && (e.body.Some? <==> !e.header.deleted)
  }

  /** Whatever the bytes and whatever the header codec, nothing else decodes. */
  lemma DecodedIsWellFormed(codec: HeaderCodec, bytes: seq<u8>)
    ensures DecodeEnvelope(codec, bytes).Ok? ==> WellFormed(DecodeEnvelope(codec, bytes).value)
    ensures DecodeEnvelope(codec, bytes).Err? ==> DecodeEnvelope(codec, bytes) == Err(UnsupportedFormat)
  {
  }

  /** Bytes after an encoded envelope: a live one takes them into its body, a tombstone ignores them, and
      an ill-formed one is refused either way. */
  lemma DecodeEncodedWithExtra(codec: HeaderCodec, e: Envelope, extra: seq<u8>)
    requires codec.Faithful() && FitsLength(codec.write(e.header))
    ensures DecodeEnvelope(codec, EnvelopeBytes(codec, e) + extra)
         == if !WellFormed(e) then Err(UnsupportedFormat)
            else if e.body.Some? then Ok(e.(body := Some(e.body.value + extra)))
            else Ok(e)
  {
    hide Le32, FromLe32;
    var header := codec.write(e.header);
    var tail := (if e.body.Some? then [1] + e.body.value else [0]) + extra;
    var bytes := EnvelopeBytes(codec, e) + extra;
    Le32Inverse(|header|, Le32(|header|));
    assert bytes == Le32(|header|) + header + tail;
    assert bytes[..4] == Le32(|header|);
    assert bytes[4..4 + |header|] == header;
    assert bytes[4 + |header|..] == tail;
    assert bytes[4 + |header|] == tail[0];
    assert e.body.Some? ==> bytes[4 + |header| + 1..] == e.body.value + extra;
  }

  /** The envelope round trip, exactly. */
  lemma EnvelopeRoundTrip(codec: HeaderCodec, e: Envelope)
    requires codec.Faithful() && FitsLength(codec.write(e.header))
    ensures DecodeEnvelope(codec, EnvelopeBytes(codec, e))
         == if WellFormed(e) then Ok(e) else Err(UnsupportedFormat)
  {
    DecodeEncodedWithExtra(codec, e, []);
    assert EnvelopeBytes(codec, e) + [] == EnvelopeBytes(codec, e);
    if e.body.Some? {
      assert e.body.value + [] == e.body.value;
    }
  }

  /** The other direction: re-encoding a decoded envelope gives the same bytes exactly when the header
      bytes are the ones the codec writes and a tombstone has nothing after its flag. */
  lemma ReencodeExactly(codec: HeaderCodec, bytes: seq<u8>, e: Envelope)
    requires DecodeEnvelope(codec, bytes) == Ok(e) && FitsLength(codec.write(e.header))
    ensures var headerEnd := 4 + FromLe32(bytes[..4]);
            EnvelopeBytes(codec, e) == bytes <==>
              bytes[4..headerEnd] == codec.write(e.header) && (e.body.None? ==> |bytes| == headerEnd + 1)
  {
    hide Le32, FromLe32;
    var header := codec.write(e.header);
    var headerEnd := 4 + FromLe32(bytes[..4]);
    Le32Inverse(|header|, bytes[..4]);
    var tail := if e.body.Some? then [1] + e.body.value else [0];
    assert EnvelopeBytes(codec, e) == Le32(|header|) + header + tail;
    if EnvelopeBytes(codec, e) == bytes {
      assert bytes[..4] == Le32(|header|);
      assert bytes[4..headerEnd] == header;
    }
    if bytes[4..headerEnd] == header && (e.body.None? ==> |bytes| == headerEnd + 1) {
      assert bytes == bytes[..4] + bytes[4..headerEnd] + bytes[headerEnd..];
      assert bytes[headerEnd..] == [bytes[headerEnd]] + bytes[headerEnd + 1..];
    }
  }

  /** The bytes of an envelope: the length of the header, header bytes that the codec reads as this header of
      version 1, and then 0 for a deleted record, or 1 and the body for a live one. Nothing is said of what
      follows the 0. */
  predicate EnvelopeLaidOut(codec: HeaderCodec, bytes: seq<u8>, header: seq<u8>, e: Envelope) {
    var rest := After(bytes, |header|);
    && StartsWith(bytes, header)
    && codec.read(header) == Some(e.header)
    && e.header.formatVersion == 1
    && rest != []
    && if e.header.deleted then rest[0] == 0 && e.body == None
       else rest[0] == 1 && e.body == Some(rest[1..])
  }

  /** Whatever header bytes the codec accepts: decoding gives the envelope exactly when the bytes lay it out. */
  lemma DecodesLaidOut(codec: HeaderCodec, bytes: seq<u8>, e: Envelope)
    ensures DecodeEnvelope(codec, bytes) == Ok(e) <==> exists header :: EnvelopeLaidOut(codec, bytes, header, e)
  {
    if |bytes| >= 4 {
      LeadingIsFromLe32(bytes);
      var end := 4 + Leading(bytes);
      if end <= |bytes| {
        var header := bytes[4..end];
        assert After(bytes, |header|) == bytes[end..] && StartsWith(bytes, header);
        if DecodeEnvelope(codec, bytes) == Ok(e) {
          assert EnvelopeLaidOut(codec, bytes, header, e);
        }
      }
    }
    if header :| EnvelopeLaidOut(codec, bytes, header, e) {
      assert header == bytes[4..4 + |header|];
    }
  }

  /** What the encoder writes: a header length that is exact below 2^32, the header, and a flag of 0, or of 1
      before the body. */
  lemma EncodesLaidOut(codec: HeaderCodec, e: Envelope)
    ensures var bytes, header := EnvelopeBytes(codec, e), codec.write(e.header);
            && |bytes| > 4 + |header|
            && Leading(bytes) == |header| % 0x1_0000_0000
            && bytes[4..4 + |header|] == header
            && bytes[4 + |header|..] == (match e.body case None => [0] case Some(body) => [1] + body)
  {
    hide Le32;
    var header := codec.write(e.header);
    LengthsTruncate(header);
  }

  // ----- The sealed body

  /** HKDF expansion and AES-256-GCM. */
  datatype Crypto = Crypto(
    expand: (seq<u8>, seq<u8>) -> seq<u8>,
    encrypt: (seq<u8>, seq<u8>, seq<u8>) -> Option<seq<u8>>,
    decrypt: (seq<u8>, seq<u8>, seq<u8>) -> Option<seq<u8>>)
  {
    /** A subkey is 32 bytes. Authenticated decryption is as in sections 7.1 and 7.2 of NIST SP 800-38D:
        deterministic given the nonce, so it accepts exactly what encryption produces, which is the
        ciphertext and a 16-byte tag. */
    ghost predicate Lawful() {
      && (forall key, info :: |key| == KEY_LEN ==> |expand(key, info)| == KEY_LEN)
      && (forall key, nonce, p, c :: |key| == KEY_LEN && |nonce| == NONCE_LEN ==>
            (encrypt(key, nonce, p) == Some(c) <==> decrypt(key, nonce, c) == Some(p)))
      && (forall key, nonce, p :: |key| == KEY_LEN && |nonce| == NONCE_LEN && encrypt(key, nonce, p).Some? ==>
            |encrypt(key, nonce, p).value| == |p| + TAG_LEN)
    }
  }

  function LocalSeal(crypto: Crypto, key: seq<u8>, nonce: seq<u8>, plaintext: seq<u8>): Result<seq<u8>> {
    if |key| != KEY_LEN || |nonce| != NONCE_LEN then Err(InvalidInput)
    else
      var c := crypto.encrypt(key, nonce, plaintext);
      if c.None? then Err(InvalidInput) else Ok(nonce + c.value)
  }

  function LocalOpen(crypto: Crypto, key: seq<u8>, combined: seq<u8>): Result<seq<u8>> {
    if |key| != KEY_LEN then Err(InvalidInput)
    else if |combined| < NONCE_LEN + TAG_LEN then Err(DecryptFailed)
    else
      var p := crypto.decrypt(key, combined[..NONCE_LEN], combined[NONCE_LEN..]);
      if p.None? then Err(DecryptFailed) else Ok(p.value)
  }

  function Sealed(crypto: Crypto, vaultKey: seq<u8>, nonce: seq<u8>, p: Plaintext): Result<seq<u8>> {
    if |vaultKey| != KEY_LEN then Err(InvalidInput)
    else LocalSeal(crypto, crypto.expand(vaultKey, INFO_CCLIP), nonce, EncodeBody(p))
  }

  function Opened(crypto: Crypto, vaultKey: seq<u8>, body: seq<u8>): Result<Plaintext> {
    if |vaultKey| != KEY_LEN then Err(InvalidInput)
    else
      match LocalOpen(crypto, crypto.expand(vaultKey, INFO_CCLIP), body)
      case Err(error) => Err(error)
      case Ok(plain) => DecodeBody(plain)
  }

  ghost predicate Wiped(a: array<u8>)
    reads a
  {
    forall i :: 0 <= i < a.Length ==> a[i] == 0
  }

  method CopyOf(s: seq<u8>) returns (a: array<u8>)
    ensures fresh(a) && a[..] == s
  {
    a := new u8[|s|](i requires 0 <= i < |s| => s[i]);
  }

  method Zeroize(a: array<u8>)
    modifies a
    ensures Wiped(a)
  {
    for i := 0 to a.Length
      invariant forall j :: 0 <= j < i ==> a[j] == 0
    {
      a[i] := 0;
    }
  }

  /** Wiping a growable buffer also empties it. */
  method ZeroizeVec(v: Vec<u8>)
    modifies v
    ensures v.items == []
  {
    v.items := [];
  }

  /** The part of `seal_record` that holds secrets: given the master key, the subkey and the encoded body in
      the caller's buffers, it leaves all three wiped, whether or not sealing succeeds. */
  method SealAndWipe(crypto: Crypto, master: array<u8>, cclip: array<u8>, nonce: seq<u8>, body: Vec<u8>)
    returns (r: Result<seq<u8>>)
    modifies master, cclip, body
    ensures r == LocalSeal(crypto, old(cclip[..]), nonce, old(body.items))
    ensures Wiped(master) && Wiped(cclip) && body.items == []
  {
    r := LocalSeal(crypto, cclip[..], nonce, body.items);
    ZeroizeVec(body);
    Zeroize(cclip);
    Zeroize(master);
  }

  method SealRecord(crypto: Crypto, vaultKey: seq<u8>, nonce: seq<u8>, p: Plaintext) returns (r: Result<seq<u8>>)
    ensures r == Sealed(crypto, vaultKey, nonce, p)
  {
    if |vaultKey| != KEY_LEN {
      return Err(InvalidInput);
    }
    var master := CopyOf(vaultKey);
    var cclip := CopyOf(crypto.expand(master[..], INFO_CCLIP));
    var body := EncodePlaintext(p);
    r := SealAndWipe(crypto, master, cclip, nonce, body);
  }

  /** The part of `open_record` that holds keys: it leaves the caller's two key buffers wiped, whether or not
      decryption succeeds, before anything is parsed. */
  method OpenAndWipe(crypto: Crypto, master: array<u8>, cclip: array<u8>, body: seq<u8>)
    returns (r: Result<seq<u8>>)
    modifies master, cclip
    ensures r == LocalOpen(crypto, old(cclip[..]), body)
    ensures Wiped(master) && Wiped(cclip)
  {
    r := LocalOpen(crypto, cclip[..], body);
    Zeroize(cclip);
    Zeroize(master);
  }

  method OpenRecord(crypto: Crypto, vaultKey: seq<u8>, body: seq<u8>) returns (r: Result<Plaintext>)
    ensures r == Opened(crypto, vaultKey, body)
  {
    if |vaultKey| != KEY_LEN {
      return Err(InvalidInput);
    }
    var master := CopyOf(vaultKey);
    var cclip := CopyOf(crypto.expand(master[..], INFO_CCLIP));
    var plain := OpenAndWipe(crypto, master, cclip, body);
    if plain.Err? {
      return Err(plain.error);
    }
    r := DecodePlaintext(plain.value);
  }

  lemma EncryptDecrypt(crypto: Crypto, key: seq<u8>, nonce: seq<u8>, p: seq<u8>, c: seq<u8>)
    requires crypto.Lawful() && |key| == KEY_LEN && |nonce| == NONCE_LEN
    ensures crypto.encrypt(key, nonce, p) == Some(c) <==> crypto.decrypt(key, nonce, c) == Some(p)
    ensures crypto.encrypt(key, nonce, p) == Some(c) ==> |c| == |p| + TAG_LEN
  {
  }

  lemma LocalOpenExactly(crypto: Crypto, key: seq<u8>, combined: seq<u8>, plain: seq<u8>)
    requires crypto.Lawful()
    ensures LocalOpen(crypto, key, combined) == Ok(plain) <==>
              |combined| >= NONCE_LEN && LocalSeal(crypto, key, combined[..NONCE_LEN], plain) == Ok(combined)
  {
    hide Crypto.Lawful;
    if |key| == KEY_LEN && |combined| >= NONCE_LEN {
      var nonce, c := combined[..NONCE_LEN], combined[NONCE_LEN..];
      assert combined == nonce + c;
      var sealed := crypto.encrypt(key, nonce, plain);
      EncryptDecrypt(crypto, key, nonce, plain, c);
      if sealed.Some? {
        assert (nonce + sealed.value)[NONCE_LEN..] == sealed.value;
      }
    }
  }

  /** Opening and sealing are inverse: a body opens to `p` exactly when `p` fits the layout and sealing
      `p` under the body's own first twelve bytes gives that body. */
  lemma OpenExactly(crypto: Crypto, vaultKey: seq<u8>, body: seq<u8>, p: Plaintext)
    requires crypto.Lawful()
    ensures Opened(crypto, vaultKey, body) == Ok(p) <==>
              Encodable(p) && |body| >= NONCE_LEN && Sealed(crypto, vaultKey, body[..NONCE_LEN], p) == Ok(body)
  {
    hide EncodeBody, DecodeBody, Encodable, LocalOpen, LocalSeal;
    if |vaultKey| == KEY_LEN {
      var key := crypto.expand(vaultKey, INFO_CCLIP);
      LocalOpenExactly(crypto, key, body, EncodeBody(p));
      DecodeExactly(EncodeBody(p), p);
      var plain := LocalOpen(crypto, key, body);
      if plain.Ok? {
        DecodeExactly(plain.value, p);
      }
    }
  }

  function Ascii(s: string): seq<u8>
    requires forall i :: 0 <= i < |s| ==> s[i] < 128 as char
  {
    seq(|s|, i requires 0 <= i < |s| => s[i] as int)
  }

  /** Sealing answers with the nonce and then the ciphertext of the body under the subkey labelled
      clipysi/v1/cclip; it fails exactly when the key is not 32 bytes, the nonce not 12, or the cipher fails,
      and always with the same error. */
  lemma SealExactly(crypto: Crypto, vaultKey: seq<u8>, nonce: seq<u8>, p: Plaintext)
    requires crypto.Lawful()
    ensures var c := crypto.encrypt(crypto.expand(vaultKey, Ascii("clipysi/v1/cclip")), nonce, EncodeBody(p));
            Sealed(crypto, vaultKey, nonce, p) ==
            if |vaultKey| == 32 && |nonce| == 12 && c.Some? then Ok(nonce + c.value) else Err(InvalidInput)
  {
    assert INFO_CCLIP == Ascii("clipysi/v1/cclip");
  }

  /** The box is `plain` sealed under the vault's subkey and the box's own first twelve bytes. */
  ghost predicate BoxOf(crypto: Crypto, vaultKey: seq<u8>, body: seq<u8>, plain: seq<u8>) {
    && |body| >= 12
    && var c := crypto.encrypt(crypto.expand(vaultKey, Ascii("clipysi/v1/cclip")), body[..12], plain);
       c == Some(body[12..])
  }

  lemma LocalOpenIsBox(crypto: Crypto, vaultKey: seq<u8>, body: seq<u8>, plain: seq<u8>)
    requires crypto.Lawful() && |vaultKey| == 32
    ensures LocalOpen(crypto, crypto.expand(vaultKey, INFO_CCLIP), body) == Ok(plain) <==>
              BoxOf(crypto, vaultKey, body, plain)
  {
    var key := crypto.expand(vaultKey, INFO_CCLIP);
    assert INFO_CCLIP == Ascii("clipysi/v1/cclip") && |key| == KEY_LEN;
    hide Crypto.Lawful;
    if |body| >= 12 {
      EncryptDecrypt(crypto, key, body[..12], plain, body[12..]);
    }
  }

  lemma LocalOpenErrors(crypto: Crypto, vaultKey: seq<u8>, body: seq<u8>)
    requires crypto.Lawful() && |vaultKey| == 32
    ensures var result := LocalOpen(crypto, crypto.expand(vaultKey, INFO_CCLIP), body);
            result.Err? ==> result.error == DecryptFailed
  {
  }

  lemma UndecodedExactly(plain: seq<u8>)
    ensures DecodeBody(plain) == Err(UnsupportedFormat) <==> forall p :: Encodable(p) ==> EncodeBody(p) != plain
    ensures DecodeBody(plain).Err? ==> DecodeBody(plain) == Err(UnsupportedFormat)
  {
    hide DecodeBody, EncodeBody, Encodable;
    forall p
      ensures DecodeBody(plain) == Ok(p) <==> Encodable(p) && EncodeBody(p) == plain
      ensures DecodeBody(plain).Err? ==> DecodeBody(plain) == Err(UnsupportedFormat)
    {
      DecodeExactly(plain, p);
    }
    if DecodeBody(plain).Ok? {
      assert EncodeBody(DecodeBody(plain).value) == plain;
    } else {
      DecodeExactly(plain, Plaintext([], [], None, false, []));
    }
  }

  /** Every answer of opening: a key of the wrong length is an invalid input; a box that nothing seals to
      under that key fails to decrypt; what opens to bytes that
      are no plaintext's encoding has an unsupported format; and there is no other error. */
  lemma OpenFailsExactly(crypto: Crypto, vaultKey: seq<u8>, body: seq<u8>)
    requires crypto.Lawful()
    ensures var r := Opened(crypto, vaultKey, body);
            && (r == Err(InvalidInput) <==> |vaultKey| != 32)
            && (r == Err(DecryptFailed) <==>
                  |vaultKey| == 32 && forall plain :: !BoxOf(crypto, vaultKey, body, plain))
            && (r == Err(UnsupportedFormat) <==>
                  |vaultKey| == 32 && exists plain :: BoxOf(crypto, vaultKey, body, plain)
                                                      && forall p :: Encodable(p) ==> EncodeBody(p) != plain)
            && r != Err(KdfFailed)
  {
    hide DecodeBody, EncodeBody, Encodable, LocalOpen, Crypto.Lawful, BoxOf;
    if |vaultKey| == 32 {
      forall plain
        ensures LocalOpen(crypto, crypto.expand(vaultKey, INFO_CCLIP), body) == Ok(plain) <==>
                  BoxOf(crypto, vaultKey, body, plain)
      {
        LocalOpenIsBox(crypto, vaultKey, body, plain);
      }
      LocalOpenErrors(crypto, vaultKey, body);
      var result := LocalOpen(crypto, crypto.expand(vaultKey, INFO_CCLIP), body);
      if result.Ok? {
        UndecodedExactly(result.value);
      }
    }
  }

  /** `OpenRecord` undoes `SealRecord` on exactly the plaintexts that fit the layout. */
  lemma OpenUndoesSeal(crypto: Crypto, vaultKey: seq<u8>, nonce: seq<u8>, p: Plaintext)
    requires crypto.Lawful()
    ensures var sealed := Sealed(crypto, vaultKey, nonce, p);
            sealed.Ok? ==> (Opened(crypto, vaultKey, sealed.value) == Ok(p) <==> Encodable(p))
  {
    hide EncodeBody, DecodeBody, Encodable;
    var sealed := Sealed(crypto, vaultKey, nonce, p);
    if sealed.Ok? {
      assert sealed.value[..NONCE_LEN] == nonce;
      OpenExactly(crypto, vaultKey, sealed.value, p);
    }
  }
}
