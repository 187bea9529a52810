/** The length-prefixed binary layout of a record's plaintext body: its writer and its parser. */
module Canonical {
  import opened Base
  import Utf8

  const MAX_REPRESENTATIONS: int := 4096

  datatype Representation = Representation(uttype: Utf8.String, data: seq<u8>)

  datatype Plaintext = Plaintext(
    title: Utf8.String,
    primaryType: Utf8.String,
    sourceBundle: Option<Utf8.String>,
    isColorCode: bool,
    representations: seq<Representation>)

  // ----- The layout

  /** A u32, least significant byte first. */
  function Le32(x: u32): (b: seq<u8>)
    ensures |b| == 4
  {
    [x % 0x100, x / 0x100 % 0x100, x / 0x1_0000 % 0x100, x / 0x100_0000]
  }

  function FromLe32(b: seq<u8>): u32
    requires |b| == 4
  {
    var b0: int, b1: int, b2: int, b3: int := b[0], b[1], b[2], b[3];
    b0 + b1 * 0x100 + b2 * 0x1_0000 + b3 * 0x100_0000
  }

  function PrefixedBytes(b: seq<u8>): seq<u8> {
    Le32(LengthField(|b|)) + b
  }

  function EncodeString(s: Utf8.String): seq<u8> {
    PrefixedBytes(Utf8.Encode(s))
  }

  function EncodeBool(b: bool): seq<u8> {
    if b then [1] else [0]
  }

  function EncodeSource(s: Option<Utf8.String>): seq<u8> {
    if s.Some? then [1] + EncodeString(s.value) else [0]
  }

  function EncodeRepresentation(r: Representation): seq<u8> {
    EncodeString(r.uttype) + PrefixedBytes(r.data)
  }

  function EncodeRepresentations(rs: seq<Representation>): seq<u8> {
    if rs == [] then [] else EncodeRepresentation(rs[0]) + EncodeRepresentations(rs[1..])
  }

  function EncodeBody(p: Plaintext): seq<u8> {
    EncodeString(p.title) + EncodeString(p.primaryType) + EncodeSource(p.sourceBundle) + EncodeBool(p.isColorCode)
    + Le32(LengthField(|p.representations|)) + EncodeRepresentations(p.representations)
  }

  // ----- The parser

  /** A parse consumes a prefix and leaves the rest. */
  datatype Parsed<+T> = Fail | Got(value: T, rest: seq<u8>) {
    predicate IsFailure() {
      Fail?
    }

    function PropagateFailure<U>(): Parsed<U>
      requires Fail?
    {
      Fail
    }

    function Extract(): (T, seq<u8>)
      requires Got?
    {
      (value, rest)
    }
  }

  function ParseU8(b: seq<u8>): Parsed<u8> {
    if b == [] then Fail else Got(b[0], b[1..])
  }

  function ParseU32(b: seq<u8>): Parsed<u32> {
    if |b| < 4 then Fail else Got(FromLe32(b[..4]), b[4..])
  }

  function ParseBytes(b: seq<u8>): Parsed<seq<u8>> {
    var (len, b') :- ParseU32(b);
    if |b'| < len then Fail else Got(b'[..len], b'[len..])
  }

  function ParseString(b: seq<u8>): Parsed<Utf8.String> {
    var (bytes, b') :- ParseBytes(b);
    var s := Utf8.Decode(bytes);
    if s.None? then Fail else Got(s.value, b')
  }

  function ParseSource(b: seq<u8>): Parsed<Option<Utf8.String>> {
    var (flag, b') :- ParseU8(b);
    if flag == 0 then Got(None, b')
    else if flag == 1 then
      var (s, b'') :- ParseString(b');
      Got(Some(s), b'')
    else Fail
  }

  function ParseBool(b: seq<u8>): Parsed<bool> {
    var (flag, b') :- ParseU8(b);
    if flag == 0 then Got(false, b') else if flag == 1 then Got(true, b') else Fail
  }

  function ParseRepresentation(b: seq<u8>): Parsed<Representation> {
    var (uttype, b') :- ParseString(b);
    var (data, b'') :- ParseBytes(b');
    Got(Representation(uttype, data), b'')
  }

  function ParseRepresentations(b: seq<u8>, count: nat): (r: Parsed<seq<Representation>>)
    ensures r.Got? ==> |r.value| == count
    decreases count
  {
    if count == 0 then Got([], b)
    else
      var (r, b') :- ParseRepresentation(b);
      var (rs, b'') :- ParseRepresentations(b', count - 1);
      Got([r] + rs, b'')
  }

  /** A body at the front of `b`. */
  function ParseBody(b: seq<u8>): Parsed<Plaintext> {
    var (title, b1) :- ParseString(b);
    var (primaryType, b2) :- ParseString(b1);
    var (source, b3) :- ParseSource(b2);
    var (color, b4) :- ParseBool(b3);
    var (count, b5) :- ParseU32(b4);
    if count > MAX_REPRESENTATIONS then Fail
    else
      var (rs, b6) :- ParseRepresentations(b5, count);
      Got(Plaintext(title, primaryType, source, color, rs), b6)
  }

  function DecodeBody(b: seq<u8>): Result<Plaintext> {
    match ParseBody(b)
    case Fail => Err(UnsupportedFormat)
    case Got(p, rest) => if rest == [] then Ok(p) else Err(UnsupportedFormat)
  }

  // ----- The writer and the reader as the source runs them

  method PutBytes(out: Vec<u8>, bytes: seq<u8>)
    modifies out
    ensures out.items == old(out.items) + PrefixedBytes(bytes)
  {
    out.Extend(Le32(LengthField(|bytes|)));
    out.Extend(bytes);
  }

  method PutRepresentation(out: Vec<u8>, r: Representation)
    modifies out
    ensures out.items == old(out.items) + EncodeRepresentation(r)
  {
    PutBytes(out, Utf8.Encode(r.uttype));
    PutBytes(out, r.data);
  }

  /** The representation loop of `EncodePlaintext`. */
  method PutRepresentations(out: Vec<u8>, rs: seq<Representation>)
    modifies out
    ensures out.items == old(out.items) + EncodeRepresentations(rs)
  {
    hide EncodeRepresentation;
    for i := 0 to |rs|
      invariant out.items + EncodeRepresentations(rs[i..]) == old(out.items) + EncodeRepresentations(rs)
    {
      ghost var before, tail := out.items, EncodeRepresentations(rs[i + 1..]);
      assert rs[i..][1..] == rs[i + 1..];
      PutRepresentation(out, rs[i]);
      assert out.items + tail == before + (EncodeRepresentation(rs[i]) + tail);
    }
  }

  method EncodePlaintext(p: Plaintext) returns (out: Vec<u8>)
    ensures fresh(out) && out.items == EncodeBody(p)
  {
    out := new Vec<u8>();
    PutBytes(out, Utf8.Encode(p.title));
    PutBytes(out, Utf8.Encode(p.primaryType));
    ghost var strings := EncodeString(p.title) + EncodeString(p.primaryType);
    assert out.items == strings;
    match p.sourceBundle {
      case Some(s) =>
        out.Push(1);
        PutBytes(out, Utf8.Encode(s));
      case None =>
        out.Push(0);
    }
    assert out.items == strings + EncodeSource(p.sourceBundle);
    out.Push(if p.isColorCode then 1 else 0);
    out.Extend(Le32(LengthField(|p.representations|)));
    PutRepresentations(out, p.representations);
  }

  class Reader {
    const buf: seq<u8>
    var pos: nat

    ghost predicate Valid()
      reads this
    {
      pos <= |buf|
    }

    ghost function Remaining(): seq<u8>
      requires Valid()
      reads this
    {
      buf[pos..]
    }

    constructor (buf: seq<u8>)
      ensures Valid() && this.buf == buf && Remaining() == buf
    {
      this.buf := buf;
      pos := 0;
    }

    method ReadU8() returns (r: Result<u8>)
      requires Valid()
      modifies this
      ensures Valid()
      ensures match ParseU8(old(Remaining()))
              case Fail => r == Err(UnsupportedFormat)
              case Got(x, rest) => r == Ok(x) && Remaining() == rest
    {
      if pos >= |buf| {
        return Err(UnsupportedFormat);
      }
      r := Ok(buf[pos]);
      pos := pos + 1;
    }

    method ReadU32() returns (r: Result<u32>)
      requires Valid()
      modifies this
      ensures Valid()
      ensures match ParseU32(old(Remaining()))
              case Fail => r == Err(UnsupportedFormat)
              case Got(x, rest) => r == Ok(x) && Remaining() == rest
    {
      var end := pos + 4;
      if end > |buf| {
        return Err(UnsupportedFormat);
      }
      r := Ok(FromLe32(buf[pos..end]));
      pos := end;
    }

    method ReadBytes() returns (r: Result<seq<u8>>)
      requires Valid()
      modifies this
      ensures Valid()
      ensures match ParseBytes(old(Remaining()))
              case Fail => r == Err(UnsupportedFormat)
              case Got(x, rest) => r == Ok(x) && Remaining() == rest
    {
      var len := ReadU32();
      if len.Err? {
        return Err(len.error);
      }
      var end := pos + len.value;
      if end > |buf| {
        return Err(UnsupportedFormat);
      }
      assert buf[pos..][..len.value] == buf[pos..end];
      r := Ok(buf[pos..end]);
      pos := end;
    }

    method ReadString() returns (r: Result<Utf8.String>)
      requires Valid()
      modifies this
      ensures Valid()
      ensures match ParseString(old(Remaining()))
              case Fail => r == Err(UnsupportedFormat)
              case Got(x, rest) => r == Ok(x) && Remaining() == rest
    {
      var bytes := ReadBytes();
      if bytes.Err? {
        return Err(bytes.error);
      }
      var s := Utf8.Decode(bytes.value);
      r := if s.Some? then Ok(s.value) else Err(UnsupportedFormat);
    }

    method ReadSource() returns (r: Result<Option<Utf8.String>>)
      requires Valid()
      modifies this
      ensures Valid()
      ensures match ParseSource(old(Remaining()))
              case Fail => r == Err(UnsupportedFormat)
              case Got(x, rest) => r == Ok(x) && Remaining() == rest
    {
      var flag := ReadU8();
      if flag.Err? {
        return Err(flag.error);
      }
      if flag.value == 0 {
        return Ok(None);
      }
      if flag.value != 1 {
        return Err(UnsupportedFormat);
      }
      var s := ReadString();
      r := if s.Ok? then Ok(Some(s.value)) else Err(s.error);
    }

    method ReadBool() returns (r: Result<bool>)
      requires Valid()
      modifies this
      ensures Valid()
      ensures match ParseBool(old(Remaining()))
              case Fail => r == Err(UnsupportedFormat)
              case Got(x, rest) => r == Ok(x) && Remaining() == rest
    {
      var flag := ReadU8();
      if flag.Err? {
        return Err(flag.error);
      }
      r := if flag.value == 0 then Ok(false) else if flag.value == 1 then Ok(true) else Err(UnsupportedFormat);
    }

    method ReadRepresentation() returns (r: Result<Representation>)
      requires Valid()
      modifies this
      ensures Valid()
      ensures match ParseRepresentation(old(Remaining()))
              case Fail => r == Err(UnsupportedFormat)
              case Got(x, rest) => r == Ok(x) && Remaining() == rest
    {
      var uttype := ReadString();
      if uttype.Err? {
        return Err(uttype.error);
      }
      var data := ReadBytes();
      r := if data.Ok? then Ok(Representation(uttype.value, data.value)) else Err(data.error);
    }

    /** The representation loop of `DecodePlaintext`: it stops at the first malformed one. */
    method ReadRepresentations(count: nat) returns (r: Result<seq<Representation>>)
      requires Valid()
      modifies this
      ensures Valid()
      ensures match ParseRepresentations(old(Remaining()), count)
              case Fail => r == Err(UnsupportedFormat)
              case Got(x, rest) => r == Ok(x) && Remaining() == rest
    {
      hide ParseRepresentation;
      ghost var parsed := ParseRepresentations(Remaining(), count);
      var rs: seq<Representation> := [];
      assert parsed.Got? ==> rs + parsed.value == parsed.value;
      for i := 0 to count
        invariant Valid()
        invariant match ParseRepresentations(Remaining(), count - i)
                  case Fail => parsed == Fail
                  case Got(more, rest) => parsed == Got(rs + more, rest)
      {
        ghost var before := Remaining();
        var rep := ReadRepresentation();
        if rep.Err? {
          return Err(rep.error);
        }
        ghost var more := ParseRepresentations(Remaining(), count - i - 1);
        if more.Got? {
          assert rs + ([rep.value] + more.value) == (rs + [rep.value]) + more.value;
        }
        rs := rs + [rep.value];
      }
      assert rs + [] == rs;
      r := Ok(rs);
    }

    /** The fields of `DecodePlaintext`, in order. */
    method ReadBody() returns (r: Result<Plaintext>)
      requires Valid()
      modifies this
      ensures Valid()
      ensures match ParseBody(old(Remaining()))
              case Fail => r == Err(UnsupportedFormat)
              case Got(x, rest) => r == Ok(x) && Remaining() == rest
    {
      hide ParseString, ParseSource, ParseBool, ParseU32, ParseRepresentations;
      var title := ReadString();
      if title.Err? {
        return Err(title.error);
      }
      var primaryType := ReadString();
      if primaryType.Err? {
        return Err(primaryType.error);
      }
      var source := ReadSource();
      if source.Err? {
        return Err(source.error);
      }
      var color := ReadBool();
      if color.Err? {
        return Err(color.error);
      }
      var count := ReadU32();
      if count.Err? {
        return Err(count.error);
      }
      if count.value > MAX_REPRESENTATIONS {
        return Err(UnsupportedFormat);
      }
      var rs := ReadRepresentations(count.value);
      if rs.Err? {
        return Err(rs.error);
      }
      r := Ok(Plaintext(title.value, primaryType.value, source.value, color.value, rs.value));
    }
  }

  method DecodePlaintext(buf: seq<u8>) returns (r: Result<Plaintext>)
    ensures r == DecodeBody(buf)
  {
    hide ParseBody;
    var reader := new Reader(buf);
    r := reader.ReadBody();
    if r.Ok? && reader.pos != |buf| {
      r := Err(UnsupportedFormat);
    }
  }

  // ----- Layout and parser are inverse

  predicate FitsLength(b: seq<u8>) {
    |b| <= U32_MAX
  }

  predicate FitsString(s: Utf8.String) {
    FitsLength(Utf8.Encode(s))
  }

  predicate FitsRepresentations(rs: seq<Representation>) {
    forall r :: r in rs ==> FitsString(r.uttype) && FitsLength(r.data)
  }

  /** The plaintexts the layout can carry: lengths within u32 and at most 4096 representations. */
  predicate Encodable(p: Plaintext) {
    && FitsString(p.title)
    && FitsString(p.primaryType)
    && (p.sourceBundle.Some? ==> FitsString(p.sourceBundle.value))
    && |p.representations| <= MAX_REPRESENTATIONS
    && FitsRepresentations(p.representations)
  }

  lemma FromLe32OfLe32(x: u32)
    ensures FromLe32(Le32(x)) == x
  {
    assert x / 0x1_0000 == x / 0x100 / 0x100 && x / 0x100_0000 == x / 0x1_0000 / 0x100;
  }

  lemma Le32OfFromLe32(b: seq<u8>)
    requires |b| == 4
    ensures Le32(FromLe32(b)) == b
  {
    var y := FromLe32(b);
    var b0: int, b1: int, b2: int, b3: int := b[0], b[1], b[2], b[3];
    assert y / 0x100 == b1 + b2 * 0x100 + b3 * 0x1_0000;
    assert y / 0x1_0000 == b2 + b3 * 0x100;
    assert y / 0x100_0000 == b3;
  }

  lemma Le32Inverse(x: u32, b: seq<u8>)
    requires |b| == 4
    ensures FromLe32(Le32(x)) == x
    ensures Le32(FromLe32(b)) == b
  {
    FromLe32OfLe32(x);
    Le32OfFromLe32(b);
  }

  lemma U32Exactly(b: seq<u8>, x: u32, rest: seq<u8>)
    ensures ParseU32(b) == Got(x, rest) <==> b == Le32(x) + rest
  {
    hide Le32, FromLe32;
    if |b| >= 4 {
      Le32Inverse(x, b[..4]);
      assert b == b[..4] + b[4..];
    }
    Le32Inverse(x, Le32(x));
  }

  lemma BytesExactly(b: seq<u8>, x: seq<u8>, rest: seq<u8>)
    ensures ParseBytes(b) == Got(x, rest) <==> FitsLength(x) && b == PrefixedBytes(x) + rest
  {
    hide Le32, ParseU32;
    if ParseBytes(b) == Got(x, rest) {
      var u := ParseU32(b);
      U32Exactly(b, u.value, u.rest);
      assert u.rest == x + rest;
      assert b == Le32(u.value) + (x + rest);
    }
    if FitsLength(x) && b == PrefixedBytes(x) + rest {
      U32Exactly(b, |x|, x + rest);
      assert b == Le32(|x|) + (x + rest);
    }
  }

  lemma StringExactly(b: seq<u8>, s: Utf8.String, rest: seq<u8>)
    ensures ParseString(b) == Got(s, rest) <==> FitsString(s) && b == EncodeString(s) + rest
  {
    BytesExactly(b, Utf8.Encode(s), rest);
    Utf8.ValidExactly(Utf8.Encode(s), s);
    var p := ParseBytes(b);
    if p.Got? {
      Utf8.ValidExactly(p.value, s);
    }
  }

  lemma SourceExactly(b: seq<u8>, s: Option<Utf8.String>, rest: seq<u8>)
    ensures ParseSource(b) == Got(s, rest) <==>
              (s.Some? ==> FitsString(s.value)) && b == EncodeSource(s) + rest
  {
    if b != [] {
      assert b == [b[0]] + b[1..];
      if s.Some? {
        StringExactly(b[1..], s.value, rest);
        assert [1] + (EncodeString(s.value) + rest) == EncodeSource(s) + rest;
        if b == EncodeSource(s) + rest {
          assert b[1..] == EncodeString(s.value) + rest;
        }
      } else if b == EncodeSource(s) + rest {
        assert b[1..] == rest;
      }
    }
  }

  lemma RepresentationExactly(b: seq<u8>, r: Representation, rest: seq<u8>)
    ensures ParseRepresentation(b) == Got(r, rest) <==>
              FitsString(r.uttype) && FitsLength(r.data) && b == EncodeRepresentation(r) + rest
  {
    var tail := PrefixedBytes(r.data) + rest;
    assert EncodeRepresentation(r) + rest == EncodeString(r.uttype) + tail;
    StringExactly(b, r.uttype, tail);
    BytesExactly(tail, r.data, rest);
    var p := ParseString(b);
    if p.Got? {
      StringExactly(b, p.value, p.rest);
      BytesExactly(p.rest, r.data, rest);
    }
  }

  lemma {:induction false} RepresentationsExactly(b: seq<u8>, rs: seq<Representation>, rest: seq<u8>)
    ensures ParseRepresentations(b, |rs|) == Got(rs, rest) <==>
              FitsRepresentations(rs) && b == EncodeRepresentations(rs) + rest
    decreases |rs|
  {
    hide ParseRepresentation, EncodeRepresentation, FitsString, FitsLength;
    if rs != [] {
      var tail := EncodeRepresentations(rs[1..]) + rest;
      assert rs == [rs[0]] + rs[1..];
      assert EncodeRepresentations(rs) + rest == EncodeRepresentation(rs[0]) + tail;
      RepresentationExactly(b, rs[0], tail);
      RepresentationsExactly(tail, rs[1..], rest);
      var p := ParseRepresentation(b);
      if p.Got? {
        RepresentationExactly(b, p.value, p.rest);
        RepresentationsExactly(p.rest, rs[1..], rest);
      }
    }
  }

  lemma FlagExactly(b: seq<u8>, flag: bool, rest: seq<u8>)
    ensures ParseBool(b) == Got(flag, rest) <==> b == EncodeBool(flag) + rest
  {
    if b != [] {
      assert b == [b[0]] + b[1..];
      if b == EncodeBool(flag) + rest {
        assert b[1..] == rest;
      }
    }
  }

  lemma EncodedParses(p: Plaintext, rest: seq<u8>)
    requires Encodable(p)
    ensures ParseBody(EncodeBody(p) + rest) == Got(p, rest)
  {
    hide ParseString, ParseSource, ParseBool, ParseU32, ParseRepresentations;
    hide EncodeString, EncodeSource, EncodeBool, Le32, EncodeRepresentations, FitsString;
    var rs := p.representations;
    var t5 := EncodeRepresentations(rs) + rest;
    var t4 := Le32(|rs|) + t5;
    var t3 := EncodeBool(p.isColorCode) + t4;
    var t2 := EncodeSource(p.sourceBundle) + t3;
    var t1 := EncodeString(p.primaryType) + t2;
    var b := EncodeString(p.title) + t1;
    StringExactly(b, p.title, t1);
    StringExactly(t1, p.primaryType, t2);
    SourceExactly(t2, p.sourceBundle, t3);
    FlagExactly(t3, p.isColorCode, t4);
    U32Exactly(t4, |rs|, t5);
    RepresentationsExactly(t5, rs, rest);
    assert EncodeBody(p) + rest == b;
  }

  lemma ParsedIsEncoded(b: seq<u8>)
    ensures var parsed := ParseBody(b);
            parsed.Got? ==> Encodable(parsed.value) && b == EncodeBody(parsed.value) + parsed.rest
  {
    hide ParseString, ParseSource, ParseBool, ParseU32, ParseRepresentations;
    hide EncodeString, EncodeSource, EncodeBool, Le32, EncodeRepresentations, FitsString;
    if ParseBody(b).Got? {
      var title := ParseString(b);
      var primaryType := ParseString(title.rest);
      var source := ParseSource(primaryType.rest);
      var color := ParseBool(source.rest);
      var count := ParseU32(color.rest);
      var rs := ParseRepresentations(count.rest, count.value);
      StringExactly(b, title.value, title.rest);
      StringExactly(title.rest, primaryType.value, primaryType.rest);
      SourceExactly(primaryType.rest, source.value, source.rest);
      FlagExactly(source.rest, color.value, color.rest);
      U32Exactly(color.rest, count.value, count.rest);
      RepresentationsExactly(count.rest, rs.value, rs.rest);
    }
  }

  /** The parser accepts exactly the layout: reading `p` off the front of `b` and leaving `rest` means
      that `p` fits the layout and `b` is its encoding followed by `rest`. */
  lemma BodyExactly(b: seq<u8>, p: Plaintext, rest: seq<u8>)
    ensures ParseBody(b) == Got(p, rest) <==> Encodable(p) && b == EncodeBody(p) + rest
  {
    hide ParseBody, EncodeBody, Encodable;
    ParsedIsEncoded(b);
    if Encodable(p) {
      EncodedParses(p, rest);
    }
  }

  // ----- The body codec is a bijection

  /** Decoding `b` gives `p` exactly when `p` fits the layout and `b` is its encoding. */
  lemma DecodeExactly(b: seq<u8>, p: Plaintext)
    ensures DecodeBody(b) == Ok(p) <==> Encodable(p) && b == EncodeBody(p)
    ensures DecodeBody(b).Err? ==> DecodeBody(b) == Err(UnsupportedFormat)
  {
    hide ParseBody, EncodeBody, Encodable;
    BodyExactly(b, p, []);
    assert EncodeBody(p) + [] == EncodeBody(p);
  }

  /** The round trip succeeds exactly on the plaintexts that fit; `EncodeBody` writes the others too. */
  lemma RoundTripExactly(p: Plaintext)
    ensures DecodeBody(EncodeBody(p)) == Ok(p) <==> Encodable(p)
  {
    DecodeExactly(EncodeBody(p), p);
  }

  /** The encoding is prefix-free, hence injective: no body starts with another body. */
  lemma PrefixFree(p: Plaintext, q: Plaintext)
    requires Encodable(p) && Encodable(q)
    ensures EncodeBody(p) <= EncodeBody(q) ==> p == q
  {
    hide ParseBody, EncodeBody, Encodable;
    var a, b := EncodeBody(p), EncodeBody(q);
    if a <= b {
      assert b == a + b[|a|..];
      assert b == b + [];
      BodyExactly(b, p, b[|a|..]);
      BodyExactly(b, q, []);
    }
  }

  /** Every proper truncation and every proper extension of a valid body is refused. */
  lemma TruncationAndExtensionRefused(p: Plaintext, cut: nat, extra: seq<u8>)
    requires Encodable(p) && cut < |EncodeBody(p)| && extra != []
    ensures DecodeBody(EncodeBody(p)[..cut]) == Err(UnsupportedFormat)
    ensures DecodeBody(EncodeBody(p) + extra) == Err(UnsupportedFormat)
  {
    hide ParseBody, EncodeBody, Encodable;
    var b := EncodeBody(p);
    BodyExactly(b + extra, p, extra);
    var short := DecodeBody(b[..cut]);
    if short.Ok? {
      DecodeExactly(b[..cut], short.value);
      PrefixFree(short.value, p);
    }
  }

  lemma SurplusFails(p: Plaintext)
    requires FitsString(p.title) && FitsString(p.primaryType)
    requires p.sourceBundle.Some? ==> FitsString(p.sourceBundle.value)
    requires MAX_REPRESENTATIONS < |p.representations| <= U32_MAX
    ensures ParseBody(EncodeBody(p)) == Fail
  {
    hide ParseString, ParseSource, ParseBool, ParseU32, ParseRepresentations;
    hide EncodeString, EncodeSource, EncodeBool, Le32, EncodeRepresentations, FitsString;
    var rs := p.representations;
    var t5 := EncodeRepresentations(rs);
    var t4 := Le32(|rs|) + t5;
    var t3 := EncodeBool(p.isColorCode) + t4;
    var t2 := EncodeSource(p.sourceBundle) + t3;
    var t1 := EncodeString(p.primaryType) + t2;
    var b := EncodeString(p.title) + t1;
    StringExactly(b, p.title, t1);
    StringExactly(t1, p.primaryType, t2);
    SourceExactly(t2, p.sourceBundle, t3);
    FlagExactly(t3, p.isColorCode, t4);
    U32Exactly(t4, |rs|, t5);
    assert EncodeBody(p) == b;
  }

  /** The writer emits bodies that the parser refuses: every plaintext whose strings fit and that has too
      many representations, such as one with 4097 empty ones. */
  lemma SurplusRepresentationsRefused(p: Plaintext)
    requires FitsString(p.title) && FitsString(p.primaryType)
    requires p.sourceBundle.Some? ==> FitsString(p.sourceBundle.value)
    requires MAX_REPRESENTATIONS < |p.representations| <= U32_MAX
    ensures DecodeBody(EncodeBody(p)) == Err(UnsupportedFormat)
    ensures var q := Plaintext([], [], None, false, seq(4097, _ => Representation([], [])));
            DecodeBody(EncodeBody(q)) == Err(UnsupportedFormat)
  {
    hide ParseBody, EncodeBody;
    SurplusFails(p);
    var q := Plaintext([], [], None, false, seq(4097, _ => Representation([], [])));
    assert Utf8.Encode([]) == [];
    SurplusFails(q);
  }

  // ----- The layout, byte by byte

  /** The number in the first four bytes, least significant byte first. */
  function Leading(b: seq<u8>): int
    requires |b| >= 4
  {
    b[0] as int + 256 * b[1] as int + 65_536 * b[2] as int + 16_777_216 * b[3] as int
  }

  /** What follows a field of `n` bytes and its length. */
  function After(b: seq<u8>, n: nat): seq<u8> {
    if |b| < 4 + n then [] else b[4 + n..]
  }

  /** `b` starts with the length of `x` and then `x`. */
  predicate StartsWith(b: seq<u8>, x: seq<u8>) {
    |b| >= 4 + |x| && Leading(b) == |x| && b[4..4 + |x|] == x
  }

  /** `b` is the representations: each its type, then its data. */
  predicate RepresentationsLaidOut(b: seq<u8>, rs: seq<Representation>) {
    if rs == [] then b == []
    else
      var uttype, data := Utf8.Encode(rs[0].uttype), rs[0].data;
      var b' := After(b, |uttype|);
      StartsWith(b, uttype) && StartsWith(b', data) && RepresentationsLaidOut(After(b', |data|), rs[1..])
  }

  /** `b` is the colour flag, the number of representations, and the representations. */
  predicate TailLaidOut(b: seq<u8>, p: Plaintext) {
    && |b| >= 5
    && b[0] == (if p.isColorCode then 1 else 0)
    && Leading(b[1..]) == |p.representations| <= 4096
    && RepresentationsLaidOut(b[5..], p.representations)
  }

  /** `b` is a presence flag, the source bundle if there is one, and the rest. */
  predicate SourceLaidOut(b: seq<u8>, p: Plaintext) {
    b != []
    && match p.sourceBundle
       case None => b[0] == 0 && TailLaidOut(b[1..], p)
       case Some(s) =>
         b[0] == 1 && StartsWith(b[1..], Utf8.Encode(s)) && TailLaidOut(After(b[1..], |Utf8.Encode(s)|), p)
  }

  /** `b` is the title, the primary type, and the rest. */
  predicate LaidOut(b: seq<u8>, p: Plaintext) {
    var title, primaryType := Utf8.Encode(p.title), Utf8.Encode(p.primaryType);
    var b1 := After(b, |title|);
    StartsWith(b, title) && StartsWith(b1, primaryType) && SourceLaidOut(After(b1, |primaryType|), p)
  }

  lemma LeadingIsFromLe32(b: seq<u8>)
    requires |b| >= 4
    ensures FromLe32(b[..4]) == Leading(b)
  {
  }

  lemma StartsIsParsed(b: seq<u8>, x: seq<u8>)
    ensures StartsWith(b, x) <==> ParseBytes(b) == Got(x, After(b, |x|))
  {
    if |b| >= 4 {
      LeadingIsFromLe32(b);
      if |b| >= 4 + |x| {
        assert b[4..][..|x|] == b[4..4 + |x|] && b[4..][|x|..] == b[4 + |x|..];
      }
    }
  }

  lemma StartsExactly(b: seq<u8>, x: seq<u8>)
    ensures StartsWith(b, x) <==> FitsLength(x) && b == PrefixedBytes(x) + After(b, |x|)
  {
    hide StartsWith, ParseBytes, PrefixedBytes;
    StartsIsParsed(b, x);
    BytesExactly(b, x, After(b, |x|));
  }

  lemma FieldThenRest(x: seq<u8>, rest: seq<u8>)
    ensures After(PrefixedBytes(x) + rest, |x|) == rest
    ensures StartsWith(PrefixedBytes(x) + rest, x) <==> FitsLength(x)
  {
    assert (PrefixedBytes(x) + rest)[4 + |x|..] == rest;
    StartsExactly(PrefixedBytes(x) + rest, x);
  }

  /** A field laid out in front of `rest`. */
  lemma OneField(b: seq<u8>, x: seq<u8>, rest: seq<u8>)
    ensures StartsWith(b, x) && After(b, |x|) == rest <==> FitsLength(x) && b == PrefixedBytes(x) + rest
  {
    StartsExactly(b, x);
    FieldThenRest(x, rest);
  }

  lemma {:induction false} RepresentationsLaidOutExactly(b: seq<u8>, rs: seq<Representation>)
    ensures RepresentationsLaidOut(b, rs) <==> FitsRepresentations(rs) && b == EncodeRepresentations(rs)
    decreases |rs|
  {
    hide StartsWith, After, PrefixedBytes, FitsLength;
    if rs != [] {
      var uttype, data, tail := Utf8.Encode(rs[0].uttype), rs[0].data, EncodeRepresentations(rs[1..]);
      var b' := After(b, |uttype|);
      assert rs == [rs[0]] + rs[1..];
      RepresentationsLaidOutExactly(After(b', |data|), rs[1..]);
      OneField(b, uttype, b');
      OneField(b', data, tail);
      OneField(b, uttype, PrefixedBytes(data) + tail);
      assert EncodeRepresentations(rs) == PrefixedBytes(uttype) + (PrefixedBytes(data) + tail);
    }
  }

  /** The colour flag, the count and the representations, as `EncodeBody` ends. */
  function EncodeTail(p: Plaintext): seq<u8> {
    EncodeBool(p.isColorCode) + (Le32(LengthField(|p.representations|)) + EncodeRepresentations(p.representations))
  }

  lemma TailLaidOutExactly(b: seq<u8>, p: Plaintext)
    ensures TailLaidOut(b, p) <==>
              |p.representations| <= 4096 && FitsRepresentations(p.representations) && b == EncodeTail(p)
  {
    hide RepresentationsLaidOut, FitsRepresentations, EncodeRepresentations, Le32;
    var rs := p.representations;
    if |b| >= 5 {
      RepresentationsLaidOutExactly(b[5..], rs);
      LeadingIsFromLe32(b[1..]);
      Le32Inverse(LengthField(|rs|), b[1..5]);
      assert b[1..][..4] == b[1..5];
      assert b == [b[0]] + (b[1..5] + b[5..]);
    }
    var e := EncodeTail(p);
    assert e[5..] == EncodeRepresentations(rs) && e[1..5] == Le32(LengthField(|rs|));
  }

  lemma FlaggedField(b: seq<u8>, s: Utf8.String, tail: seq<u8>)
    ensures b != [] && b[0] == 1 && StartsWith(b[1..], Utf8.Encode(s)) && After(b[1..], |Utf8.Encode(s)|) == tail
            <==> FitsString(s) && b == EncodeSource(Some(s)) + tail
  {
    hide StartsWith, After, PrefixedBytes;
    if b != [] {
      OneField(b[1..], Utf8.Encode(s), tail);
      assert b == [b[0]] + b[1..];
    }
    assert [1] + (EncodeString(s) + tail) == EncodeSource(Some(s)) + tail;
    assert (EncodeSource(Some(s)) + tail)[1..] == EncodeString(s) + tail;
  }

  /** What `TailLaidOut` asks of the plaintext. */
  predicate FitsTail(p: Plaintext) {
    |p.representations| <= 4096 && FitsRepresentations(p.representations)
  }

  lemma BodySplits(p: Plaintext)
    ensures EncodeBody(p) == EncodeString(p.title) + (EncodeString(p.primaryType)
                                                      + (EncodeSource(p.sourceBundle) + EncodeTail(p)))
  {
    hide EncodeString, EncodeSource, EncodeBool, Le32, EncodeRepresentations;
  }

  lemma SourceLaidOutExactly(b: seq<u8>, p: Plaintext)
    ensures SourceLaidOut(b, p) <==>
              (p.sourceBundle.Some? ==> FitsString(p.sourceBundle.value)) && FitsTail(p)
              && b == EncodeSource(p.sourceBundle) + EncodeTail(p)
  {
    hide StartsWith, After, TailLaidOut, FitsRepresentations, EncodeString, EncodeTail, FitsString;
    var tail := EncodeTail(p);
    match p.sourceBundle
    case None =>
      assert (EncodeSource(None) + tail)[1..] == tail;
      if b != [] {
        TailLaidOutExactly(b[1..], p);
        assert b == [b[0]] + b[1..];
      }
    case Some(s) =>
      FlaggedField(b, s, tail);
      TailLaidOutExactly(tail, p);
      if b != [] {
        TailLaidOutExactly(After(b[1..], |Utf8.Encode(s)|), p);
      }
  }

  /** The bytes are laid out as documented exactly when they are the encoding and the plaintext fits. */
  lemma LaidOutExactly(b: seq<u8>, p: Plaintext)
    ensures LaidOut(b, p) <==> Encodable(p) && b == EncodeBody(p)
  {
    hide StartsWith, After, SourceLaidOut, FitsRepresentations, EncodeSource, EncodeTail, PrefixedBytes, FitsLength;
    var title, primaryType := Utf8.Encode(p.title), Utf8.Encode(p.primaryType);
    var rest := EncodeSource(p.sourceBundle) + EncodeTail(p);
    var b1 := After(b, |title|);
    OneField(b, title, b1);
    OneField(b1, primaryType, rest);
    OneField(b, title, PrefixedBytes(primaryType) + rest);
    SourceLaidOutExactly(After(b1, |primaryType|), p);
    SourceLaidOutExactly(rest, p);
    assert PrefixedBytes(title) + (PrefixedBytes(primaryType) + rest) == EncodeBody(p) by {
      BodySplits(p);
    }
  }

  /** The decoder answers with `p` exactly on the bytes that lay it out as documented: title, primary type,
      source bundle behind a 0 or 1, colour flag, at most 4096 representations; lengths little-endian. */
  lemma DecodesLayout(b: seq<u8>, p: Plaintext)
    ensures DecodeBody(b) == Ok(p) <==> LaidOut(b, p)
    ensures Encodable(p) ==> LaidOut(EncodeBody(p), p)
  {
    hide DecodeBody, LaidOut, EncodeBody, Encodable;
    DecodeExactly(b, p);
    LaidOutExactly(b, p);
    LaidOutExactly(EncodeBody(p), p);
  }

  /** The length in front of any bytes, however many, is their number modulo 2^32. */
  lemma LengthsTruncate(x: seq<u8>)
    ensures var b := PrefixedBytes(x);
            |b| == 4 + |x| && Leading(b) == |x| % 0x1_0000_0000 && b[4..] == x
  {
    hide Le32;
    var b := PrefixedBytes(x);
    LeadingIsFromLe32(b);
    assert b[..4] == Le32(LengthField(|x|)) && b[4..] == x;
    Le32Inverse(LengthField(|x|), b[..4]);
  }
}
