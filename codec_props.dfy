/** What the decoder makes of the encoder's output. The encoder writes a map header and bare
    payloads without format tags, so its output is not in general a MessagePack encoding of the
    map; these lemmas pin down exactly which parts the decoder reads back and which it rejects. */
module CodecProperties {
  import opened Bytes
  import opened Decoder
  import opened DecoderProperties
  import opened Encoder

  /** The header is a fixmap for the entry count exactly when the map has fewer than 16 entries;
      from the count mod 128 alone, 0 to 15 read as a fixmap and 16 to 31 as a fixarray. */
  lemma HeaderFormat(n: nat)
    ensures FormatOf(HeaderByte(n)) == Counted(n, MapData) <==> n < 0x10
    ensures n % 0x80 < 0x10 ==> FormatOf(HeaderByte(n)) == Counted(n % 0x80, MapData)
    ensures 0x10 <= n % 0x80 < 0x20 ==> FormatOf(HeaderByte(n)) == Counted(n % 0x80 - 0x10, ArrayData)
  {
    HeaderByteValue(n);
    if n < 0x10 {
      ModOfDecomposition(n, 0x80, 0, n);
    }
  }

  /** The empty map is written as the single byte 0x80 and decodes to the empty map. */
  lemma EmptyMapRoundTrip()
    ensures Encoding([]) == [0x80]
    ensures Decode(Encoding([])) == Ok((Map(map[]), []))
  {
    HeaderByteValue(0);
    AfterFormatByte(0x80, []);
    FixMapForm(0x80, []);
  }

  /** A non-empty map whose header reads as a fixmap does not decode back: its first key's length
      byte, when below 0x80, reads as a positive fixint, which decodeMap rejects as a key. */
  lemma EncodedKeyRejected(entries: seq<(seq<byte>, GoValue)>)
    requires 1 <= |entries| % 0x80 < 0x10
    requires |entries[0].0| % 0x100 < 0x80
    ensures Decode(Encoding(entries)) == Err(NonStringKey(Int(|entries[0].0| % 0x100)))
  {
    var h, n := HeaderByte(|entries|), |entries| % 0x80;
    var body := EntriesBytes(entries);
    HeaderFormat(|entries|);
    AfterFormatByte(h, body);
    FixMapForm(h, body);
    FirstKeyIsFixInt(entries);
    PairsHeadFails(body, n, 1);
    assert DecodeEntries(body, n) == Err(NonStringKey(Int(|entries[0].0| % 0x100)));
  }

  /** The encoded entries start with the first key's length byte, which, below 0x80, decodes as
      a positive fixint. */
  lemma FirstKeyIsFixInt(entries: seq<(seq<byte>, GoValue)>)
    requires 1 <= |entries| && |entries[0].0| % 0x100 < 0x80
    ensures Decode(EntriesBytes(entries)).Ok?
    ensures Decode(EntriesBytes(entries)).value.0 == Int(|entries[0].0| % 0x100)
  {
    var body := EntriesBytes(entries);
    EntriesFront(entries);
    var b := (|entries[0].0| % 0x100) as byte;
    assert body == [b] + body[1..];
    AfterFormatByte(b, body[1..]);
    SingleByteForms(b, body[1..]);
  }

  /** An encoded bool or nil is a MessagePack value in its own right and decodes back. */
  lemma BoolAndNilRoundTrip(v: GoValue, rest: seq<byte>)
    ensures v.GoBool? ==> Decode(ValueBytes(v) + rest) == Ok((Bool(v.b), rest))
    ensures v.GoNil? ==> Decode(ValueBytes(v) + rest) == Ok((Nil, rest))
  {
    if v.GoBool? || v.GoNil? {
      var code := ValueBytes(v)[0];
      assert ValueBytes(v) + rest == [code] + rest;
      AfterFormatByte(code, rest);
      SingleByteForms(code, rest);
    }
  }

  /** The four bytes of an int are exactly an int32 payload: behind the tag 0xd2 they decode to
      int32(i), which is i itself in the int32 range. */
  lemma IntPayload(i: int, rest: seq<byte>)
    ensures Dispatch(0xd2, ValueBytes(GoInt(i)) + rest) == Ok((Int(Signed(i % 0x1_0000_0000, 4)), rest))
    ensures -0x8000_0000 <= i < 0x8000_0000 ==> Dispatch(0xd2, ValueBytes(GoInt(i)) + rest) == Ok((Int(i), rest))
  {
    var bytes := Int32Bytes(i);
    Int32BytesLayout(i);
    IntegerCodes();
    SignedForm(0xd2, 4, bytes + rest);
    assert (bytes + rest)[..4] == bytes && (bytes + rest)[4..] == rest;
  }

  /** The eight bytes of a float64 are exactly a float64 payload: behind the tag 0xcb they decode
      to the same bits. */
  lemma Float64Payload(bits: uint64, rest: seq<byte>)
    ensures Dispatch(0xcb, ValueBytes(GoFloat64(bits)) + rest) == Ok((F64(bits), rest))
  {
    var bytes := ValueBytes(GoFloat64(bits));
    Float64BytesLayout(bits);
    Float64Form(bytes + rest);
    assert (bytes + rest)[..8] == bytes && (bytes + rest)[8..] == rest;
  }

  /** A string is exactly a str8 payload when it is shorter than 256 bytes: behind the tag 0xd9 it
      decodes to the same string. A longer one has its length byte wrapped. */
  lemma StringPayload(s: seq<byte>, rest: seq<byte>)
    requires |s| < 0x100
    ensures Dispatch(0xd9, StringBytes(s) + rest) == Ok((Str(s), rest))
  {
    var bytes := StringBytes(s);
    LengthCodes();
    StrForm(0xd9, 1, bytes + rest);
    assert (bytes + rest)[..1] == [bytes[0]];
    assert BigEndian([bytes[0]]) == |s| by {
      assert [bytes[0]][..0] == [];
    }
    assert (bytes + rest)[1..] == s + rest;
    assert (s + rest)[..|s|] == s && (s + rest)[|s|..] == rest;
  }
}
