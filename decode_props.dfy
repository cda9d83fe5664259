/** What decodeMessagePack does, format by format, and what its array and map loops guarantee. */
module DecoderProperties {
  import opened Bytes
  import opened Decoder

  /** After the format byte, decoding continues on exactly the bytes that follow it. */
  lemma AfterFormatByte(code: byte, body: seq<byte>)
    ensures Decode([code] + body) == Dispatch(code, body)
  {
    assert ([code] + body)[0] == code && ([code] + body)[1..] == body;
  }

  /** Nothing to decode is an error, not a crash. */
  lemma EmptyInputFails()
    ensures Decode([]) == Err(EmptyInput)
  {
  }

  /** The one-byte forms: fixints, nil and the booleans consume exactly the format byte. */
  lemma SingleByteForms(b: byte, rest: seq<byte>)
    ensures b <= 0x7f ==> Dispatch(b, rest) == Ok((Int(b as int), rest))
    ensures b >= 0xe0 ==> Dispatch(b, rest) == Ok((Int(b as int - 0x100), rest))
    ensures b == 0xc0 ==> Dispatch(b, rest) == Ok((Nil, rest))
    ensures b == 0xc2 ==> Dispatch(b, rest) == Ok((Bool(false), rest))
    ensures b == 0xc3 ==> Dispatch(b, rest) == Ok((Bool(true), rest))
  {
  }

  /** A negative fixint is the two's-complement reading of its one byte (Go's int8 conversion). */
  lemma NegativeFixIntIsSigned(b: byte)
    requires b >= 0xe0
    ensures b as int - 0x100 == Signed(b as nat, 1)
    ensures -0x20 <= Signed(b as nat, 1) < 0
  {
  }

  /** The switch on a fixed-width format: too few bytes name the format, otherwise the payload
      is the next Width() bytes. */
  lemma FixedHeads(code: byte, kind: Kind, body: seq<byte>)
    requires FormatOf(code) == Fixed(kind)
    ensures kind.Width() in {1, 2, 4, 8}
    ensures |body| < kind.Width() ==> PayloadHead(code, body) == Bad(Insufficient(code))
    ensures |body| >= kind.Width() ==>
      PayloadHead(code, body) == Scalar(FixedValue(kind, BigEndian(body[..kind.Width()])), body[kind.Width()..])
  {
  }

  /** The format bytes of the floats: float32 is 0xca and float64 is 0xcb. */
  lemma FloatCodes()
    ensures FormatOf(0xca) == Fixed(Float32) && FormatOf(0xcb) == Fixed(Float64)
  {
  }

  /** float32: four bytes of IEEE-754 bits, big-endian, kept as they are. */
  lemma Float32Form(body: seq<byte>)
    ensures Dispatch(0xca, body) ==
      if |body| < 4 then Err(Insufficient(0xca)) else Ok((F32(BigEndian(body[..4]) as uint32), body[4..]))
  {
    FloatCodes();
    FixedHeads(0xca, Float32, body);
  }

  /** float64: eight bytes of IEEE-754 bits, big-endian, kept as they are. */
  lemma Float64Form(body: seq<byte>)
    ensures Dispatch(0xcb, body) ==
      if |body| < 8 then Err(Insufficient(0xcb)) else Ok((F64(BigEndian(body[..8]) as uint64), body[8..]))
  {
    FloatCodes();
    FixedHeads(0xcb, Float64, body);
  }

  /** The format bytes of the fixed-width integers: uint8 to uint64 are 0xcc to 0xcf and int8 to
      int64 are 0xd0 to 0xd3, with payloads of 1, 2, 4 and 8 bytes. */
  lemma IntegerCodes()
    ensures FormatOf(0xcc) == Fixed(Unsigned(1)) && FormatOf(0xcd) == Fixed(Unsigned(2))
    ensures FormatOf(0xce) == Fixed(Unsigned(4)) && FormatOf(0xcf) == Fixed(Unsigned(8))
    ensures FormatOf(0xd0) == Fixed(TwosComplement(1)) && FormatOf(0xd1) == Fixed(TwosComplement(2))
    ensures FormatOf(0xd2) == Fixed(TwosComplement(4)) && FormatOf(0xd3) == Fixed(TwosComplement(8))
  {
  }

  /** uint8 to uint64 (payload width w): too few bytes is an error naming the format; otherwise
      the value is the next w bytes read big-endian and nothing more is used. */
  lemma UnsignedForm(code: byte, w: nat, body: seq<byte>)
    requires FormatOf(code) == Fixed(Unsigned(w))
    ensures Dispatch(code, body) ==
      if |body| < w then Err(Insufficient(code)) else Ok((UInt(BigEndian(body[..w])), body[w..]))
  {
    FixedHeads(code, Unsigned(w), body);
  }

  /** int8 to int64 (payload width w): as the unsigned forms, read as two's complement, so the
      value lies in the w-byte signed range and agrees with the unsigned reading modulo 256^w. */
  lemma SignedForm(code: byte, w: nat, body: seq<byte>)
    requires FormatOf(code) == Fixed(TwosComplement(w))
    ensures 1 <= w
    ensures |body| < w ==> Dispatch(code, body) == Err(Insufficient(code))
    ensures |body| >= w ==>
      var u := BigEndian(body[..w]);
      && Dispatch(code, body) == Ok((Int(Signed(u, w)), body[w..]))
      && -0x80 * Pow256(w - 1) <= Signed(u, w) < 0x80 * Pow256(w - 1)
      && (Signed(u, w) - u) % Pow256(w) == 0
  {
    FixedHeads(code, TwosComplement(w), body);
  }

  /** fixstr: the low five bits are the length; a string longer than the input is an error. */
  lemma FixStrForms(code: byte, body: seq<byte>)
    requires 0xa0 <= code <= 0xbf
    ensures var n := (code - 0xa0) as nat;
      Dispatch(code, body) == if |body| < n then Err(ShortString) else Ok((Str(body[..n]), body[n..]))
  {
  }

  /** The format bytes of the length-prefixed forms: str8, str16 and str32 are 0xd9 to 0xdb,
      array16 and array32 are 0xdc and 0xdd, map16 and map32 are 0xde and 0xdf. */
  lemma LengthCodes()
    ensures FormatOf(0xd9) == Prefixed(1, StrData) && FormatOf(0xda) == Prefixed(2, StrData)
    ensures FormatOf(0xdb) == Prefixed(4, StrData)
    ensures FormatOf(0xdc) == Prefixed(2, ArrayData) && FormatOf(0xdd) == Prefixed(4, ArrayData)
    ensures FormatOf(0xde) == Prefixed(2, MapData) && FormatOf(0xdf) == Prefixed(4, MapData)
  {
  }

  /** str8/16/32 (length field width w): a missing length field and a length beyond the input are
      errors; otherwise the string is exactly the next `length` bytes and the remainder follows
      them. */
  lemma StrForm(code: byte, w: nat, body: seq<byte>)
    requires FormatOf(code) == Prefixed(w, StrData)
    ensures |body| < w ==> Dispatch(code, body) == Err(Insufficient(code))
    ensures |body| >= w ==>
      var n := BigEndian(body[..w]);
      Dispatch(code, body) ==
        if |body| - w < n then Err(ShortString) else Ok((Str(body[w..w + n]), body[w + n..]))
  {
    if |body| >= w {
      var n := BigEndian(body[..w]);
      if |body| - w >= n {
        assert body[w..][..n] == body[w..w + n];
        assert body[w..][n..] == body[w + n..];
      }
    }
  }

  /** fixarray: the low four bits count the elements, decoded from what follows the byte. */
  lemma FixArrayForm(code: byte, body: seq<byte>)
    requires 0x90 <= code <= 0x9f
    ensures Dispatch(code, body) == AsArray(DecodeItems(body, (code - 0x90) as nat))
  {
  }

  /** array16 and array32 (count field width w): a cut-short count is an error naming the
      format; otherwise the count, then the elements. */
  lemma WideArrayForm(code: byte, w: nat, body: seq<byte>)
    requires FormatOf(code) == Prefixed(w, ArrayData)
    ensures Dispatch(code, body) ==
      if |body| < w then Err(Insufficient(code)) else AsArray(DecodeItems(body[w..], BigEndian(body[..w])))
  {
  }

  /** fixmap: the low four bits count the entries, decoded from what follows the byte. */
  lemma FixMapForm(code: byte, body: seq<byte>)
    requires 0x80 <= code <= 0x8f
    ensures Dispatch(code, body) == AsMap(DecodeEntries(body, (code - 0x80) as nat))
  {
  }

  /** map16 and map32 (count field width w): a cut-short count is an error naming the format;
      otherwise the count, then the entries. */
  lemma WideMapForm(code: byte, w: nat, body: seq<byte>)
    requires FormatOf(code) == Prefixed(w, MapData)
    ensures Dispatch(code, body) ==
      if |body| < w then Err(Insufficient(code)) else AsMap(DecodeEntries(body[w..], BigEndian(body[..w])))
  {
  }

  /** The format bytes without a branch in the switch are exactly 0xc1, 0xc4-0xc9 and 0xd4-0xd8. */
  lemma NotSupportedCodes(code: byte)
    ensures FormatOf(code).NotSupported? <==> IsUnsupportedCode(code)
  {
  }

  /** Exactly those format bytes are rejected by the switch itself as unsupported, with an error
      that reports the byte; every other rejection comes from a short input or from an element. */
  lemma UnsupportedFormats(code: byte, body: seq<byte>)
    ensures PayloadHead(code, body).Bad? && PayloadHead(code, body).error.Unsupported?
            <==> IsUnsupportedCode(code)
    ensures IsUnsupportedCode(code) ==> Dispatch(code, body) == Err(Unsupported(code))
  {
    NotSupportedCodes(code);
  }

  /** Dropping a prefix leaves a suffix. */
  lemma DropIsSuffix(s: seq<byte>, k: nat)
    requires k <= |s|
    ensures IsSuffix(s[k..], s)
  {
  }

  /** A string read, or a container announced, leaves a suffix of the bytes after the length. */
  lemma ContainerSuffix(of: Container, length: nat, rest: seq<byte>)
    ensures !ContainerHead(of, length, rest).Bad? ==> IsSuffix(ContainerHead(of, length, rest).rest, rest)
  {
    if of == StrData && length <= |rest| {
      DropIsSuffix(rest, length);
    }
  }

  /** Whatever the switch reads after the format byte, it leaves a suffix of those bytes. */
  lemma PayloadSuffix(code: byte, body: seq<byte>)
    ensures !PayloadHead(code, body).Bad? ==> IsSuffix(PayloadHead(code, body).rest, body)
  {
    match FormatOf(code)
    case Immediate(_) =>
    case Counted(n, of) =>
      ContainerSuffix(of, n, body);
    case Fixed(kind) =>
      if |body| >= kind.Width() {
        DropIsSuffix(body, kind.Width());
      }
    case Prefixed(w, of) =>
      if |body| >= w {
        DropIsSuffix(body, w);
        ContainerSuffix(of, BigEndian(body[..w]), body[w..]);
        if !ContainerHead(of, BigEndian(body[..w]), body[w..]).Bad? {
          SuffixTransitive(ContainerHead(of, BigEndian(body[..w]), body[w..]).rest, body[w..], body);
        }
      }
    case NotSupported =>
  }

  /** Every successful decode returns a proper suffix of its input: at least the format byte is
      consumed, and the remainder is exactly what follows the bytes that were read. */
  lemma {:induction false} DecodeSuffix(data: seq<byte>)
    ensures Decode(data).Ok? ==> IsProperSuffix(Decode(data).value.1, data)
    decreases |data|, 0
  {
    if data != [] && Decode(data).Ok? {
      DispatchSuffix(data[0], data[1..]);
      DropIsSuffix(data, 1);
      SuffixTransitive(Decode(data).value.1, data[1..], data);
    }
  }

  /** What the switch leaves, elements of containers included, is a suffix of the bytes after
      the format byte. */
  lemma {:induction false} DispatchSuffix(code: byte, body: seq<byte>)
    ensures Dispatch(code, body).Ok? ==> IsSuffix(Dispatch(code, body).value.1, body)
    decreases |body|, 3
  {
    PayloadSuffix(code, body);
    match PayloadHead(code, body)
    case Bad(_) =>
    case Scalar(_, _) =>
    case ArrayOf(n, rest) =>
      ItemsSuffix(rest, n);
      if DecodeItems(rest, n).Ok? {
        SuffixTransitive(DecodeItems(rest, n).value.1, rest, body);
      }
    case MapOf(n, rest) =>
      PairsSuffix(rest, n);
      if DecodePairs(rest, n).Ok? {
        SuffixTransitive(DecodePairs(rest, n).value.1, rest, body);
      }
  }

  /** The elements of an array leave a suffix of the bytes they were decoded from. */
  lemma {:induction false} ItemsSuffix(data: seq<byte>, n: nat)
    ensures DecodeItems(data, n).Ok? ==> IsSuffix(DecodeItems(data, n).value.1, data)
    decreases |data|, 1, n
  {
    if n > 0 && DecodeItems(data, n).Ok? {
      var v, rest := FirstItem(data, n);
      DecodeSuffix(data);
      ItemsSuffix(rest, n - 1);
      SuffixTransitive(DecodeItems(data, n).value.1, rest, data);
    }
  }

  /** A decoded array's first element and the elements decoded after it. */
  lemma FirstItem(data: seq<byte>, n: nat) returns (v: Value, rest: seq<byte>)
    requires n > 0 && DecodeItems(data, n).Ok?
    ensures Decode(data) == Ok((v, rest))
    ensures DecodeItems(data, n) == Prepend([v], DecodeItems(rest, n - 1))
  {
    v, rest := Decode(data).value.0, Decode(data).value.1;
  }

  /** The entries of a map leave a suffix of the bytes they were decoded from. */
  lemma {:induction false} PairsSuffix(data: seq<byte>, n: nat)
    ensures DecodePairs(data, n).Ok? ==> IsSuffix(DecodePairs(data, n).value.1, data)
    decreases |data|, 1, n
  {
    if n > 0 && DecodePairs(data, n).Ok? {
      var key, afterKey, v, rest := FirstPair(data, n);
      PairSuffix(data, key, afterKey, v, rest);
      PairsSuffix(rest, n - 1);
      SuffixTransitive(DecodePairs(data, n).value.1, rest, data);
    }
  }

  /** A decoded map's first key and value, and the entries decoded after them. */
  lemma FirstPair(data: seq<byte>, n: nat) returns (key: seq<byte>, afterKey: seq<byte>, v: Value, rest: seq<byte>)
    requires n > 0 && DecodePairs(data, n).Ok?
    ensures Decode(data) == Ok((Str(key), afterKey)) && Decode(afterKey) == Ok((v, rest))
    ensures DecodePairs(data, n) == Prepend([(key, v)], DecodePairs(rest, n - 1))
  {
    var (k, a) := Decode(data).value;
    key, afterKey := k.s, a;
    v, rest := Decode(afterKey).value.0, Decode(afterKey).value.1;
  }

  /** A key and its value leave a proper suffix of the bytes they were decoded from. */
  lemma {:induction false} PairSuffix(data: seq<byte>, key: seq<byte>, afterKey: seq<byte>, v: Value, rest: seq<byte>)
    requires Decode(data) == Ok((Str(key), afterKey)) && Decode(afterKey) == Ok((v, rest))
    ensures IsSuffix(rest, data) && |rest| < |data|
    decreases |data|, 1, 0
  {
    DecodeSuffix(data);
    DecodeSuffix(afterKey);
    SuffixTransitive(rest, afterKey, data);
  }

  /** Decoding a + b elements is decoding a elements and then b more from what they left. */
  lemma {:induction false} DecodeItemsSplit(data: seq<byte>, a: nat, b: nat)
    ensures DecodeItems(data, a + b) ==
      match DecodeItems(data, a)
      case Err(e) => Err(e)
      case Ok((xs, mid)) => Prepend(xs, DecodeItems(mid, b))
    decreases a
  {
    if a == 0 {
      PrependNothing(DecodeItems(data, b));
    } else {
      match Decode(data)
      case Err(e) =>
        ItemsHeadError(data, a + b);
        ItemsHeadError(data, a);
      case Ok((v, rest)) =>
        ItemsUnfold(data, a + b, v, rest);
        ItemsUnfold(data, a, v, rest);
        SameItemsCount(rest, a + b, a - 1 + b);
        DecodeItemsSplit(rest, a - 1, b);
        match DecodeItems(rest, a - 1)
        case Err(e) =>
        case Ok((xs, mid)) =>
          PrependTwice([v], xs, DecodeItems(mid, b));
    }
  }

  /** An array whose first element fails fails with that element's error. */
  lemma ItemsHeadError(data: seq<byte>, n: nat)
    requires n > 0 && Decode(data).Err?
    ensures DecodeItems(data, n) == Err(Decode(data).error)
  {
  }

  /** In a decoded array, element i is decoded from exactly the bytes the first i elements left,
      and the first i elements are those of a decode of i elements. */
  lemma ItemsChain(data: seq<byte>, n: nat, i: nat)
    requires DecodeItems(data, n).Ok? && i < n
    ensures DecodeItems(data, i).Ok? && DecodeItems(data, i + 1).Ok?
    ensures DecodeItems(data, i).value.0 == DecodeItems(data, n).value.0[..i]
    ensures Decode(DecodeItems(data, i).value.1)
            == Ok((DecodeItems(data, n).value.0[i], DecodeItems(data, i + 1).value.1))
  {
    DecodeItemsSplit(data, i, n - i);
    DecodeItemsSplit(data, i, 1);
    var (xs, mid) := DecodeItems(data, i).value;
    var (v, mid') := Decode(mid).value;
    var tail := DecodeItems(mid', n - i - 1);
    assert DecodeItems(mid, n - i) == Prepend([v], tail);
    assert DecodeItems(mid, 1) == Prepend([v], DecodeItems(mid', 0));
    var items := DecodeItems(data, n).value.0;
    assert items == xs + ([v] + tail.value.0);
    assert items[..i] == xs;
    assert items[i] == v;
  }

  /** The first element that fails to decode aborts the array with that element's error. */
  lemma {:induction false} ItemsFirstError(data: seq<byte>, n: nat, i: nat)
    requires i < n && DecodeItems(data, i).Ok? && Decode(DecodeItems(data, i).value.1).Err?
    ensures DecodeItems(data, n) == Err(Decode(DecodeItems(data, i).value.1).error)
  {
    DecodeItemsSplit(data, i, n - i);
  }

  /** What decoding b more map entries makes of a partial result: its error, or its pairs followed
      by the b entries decoded from what it left. */
  function ThenPairs(r: Result<(seq<(seq<byte>, Value)>, seq<byte>)>, b: nat): Result<(seq<(seq<byte>, Value)>, seq<byte>)>
  {
    match r
    case Err(e) => Err(e)
    case Ok((ps, mid)) => Prepend(ps, DecodePairs(mid, b))
  }

  /** Decoding a + b map entries is decoding a entries and then b more from what they left. */
  lemma {:induction false} DecodePairsSplit(data: seq<byte>, a: nat, b: nat)
    ensures DecodePairs(data, a + b) == ThenPairs(DecodePairs(data, a), b)
    decreases a, 1
  {
    if a == 0 {
      PrependNothing(DecodePairs(data, b));
    } else if Decode(data).Err? || !Decode(data).value.0.Str? || Decode(Decode(data).value.1).Err? {
      PairsHeadFails(data, a + b, a);
    } else {
      var key, afterKey := Decode(data).value.0.s, Decode(data).value.1;
      var v, rest := Decode(afterKey).value.0, Decode(afterKey).value.1;
      PairsUnfold(data, a + b, key, afterKey, v, rest);
      PairsUnfold(data, a, key, afterKey, v, rest);
      PairsSplitStep(data, a, b, (key, v), rest);
    }
  }

  /** DecodePairsSplit once the first entry is unfolded: the split moves onto what that entry left. */
  lemma {:induction false} PairsSplitStep(data: seq<byte>, a: nat, b: nat, first: (seq<byte>, Value), rest: seq<byte>)
    requires a > 0
    requires DecodePairs(data, a + b) == Prepend([first], DecodePairs(rest, a + b - 1))
    requires DecodePairs(data, a) == Prepend([first], DecodePairs(rest, a - 1))
    ensures DecodePairs(data, a + b) == ThenPairs(DecodePairs(data, a), b)
    decreases a, 0
  {
    DecodePairsSplit(rest, a - 1, b);
    SamePairsCount(rest, a + b, a - 1 + b);
    PrependThenPairs([first], DecodePairs(rest, a - 1), b);
  }

  /** A leading run of pairs passes through ThenPairs unchanged. */
  lemma PrependThenPairs(front: seq<(seq<byte>, Value)>, r: Result<(seq<(seq<byte>, Value)>, seq<byte>)>, b: nat)
    ensures Prepend(front, ThenPairs(r, b)) == ThenPairs(Prepend(front, r), b)
  {
    if r.Ok? {
      PrependTwice(front, r.value.0, DecodePairs(r.value.1, b));
    }
  }

  /** A map whose first key or value fails, or whose first key is not a string, fails the same
      way whatever its entry count: with the key's error, NonStringKey, or the value's error. */
  lemma PairsHeadFails(data: seq<byte>, a: nat, c: nat)
    requires a > 0 && c > 0
    requires Decode(data).Err? || !Decode(data).value.0.Str? || Decode(Decode(data).value.1).Err?
    ensures DecodePairs(data, a).Err? && DecodePairs(data, a) == DecodePairs(data, c)
    ensures Decode(data).Err? ==> DecodePairs(data, a) == Err(Decode(data).error)
    ensures Decode(data).Ok? && !Decode(data).value.0.Str? ==>
      DecodePairs(data, a) == Err(NonStringKey(Decode(data).value.0))
    ensures Decode(data).Ok? && Decode(data).value.0.Str? ==>
      DecodePairs(data, a) == Err(Decode(Decode(data).value.1).error)
  {
  }

  /** A key that is not a string fails the map, at whichever entry i it comes and whatever follows
      it: its value is never decoded. */
  lemma NonStringKeyAborts(data: seq<byte>, n: nat, i: nat)
    requires i < n && DecodePairs(data, i).Ok?
    requires var key := Decode(DecodePairs(data, i).value.1); key.Ok? && !key.value.0.Str?
    ensures DecodeEntries(data, n) == Err(NonStringKey(Decode(DecodePairs(data, i).value.1).value.0))
  {
    var mid := DecodePairs(data, i).value.1;
    PairsHeadFails(mid, n - i, 1);
    PairsErrorAt(data, n, i, NonStringKey(Decode(mid).value.0));
  }

  /** A key that fails to decode, at whichever entry i, aborts the map with its error. */
  lemma PairsKeyError(data: seq<byte>, n: nat, i: nat)
    requires i < n && DecodePairs(data, i).Ok? && Decode(DecodePairs(data, i).value.1).Err?
    ensures DecodeEntries(data, n) == Err(Decode(DecodePairs(data, i).value.1).error)
  {
    var mid := DecodePairs(data, i).value.1;
    PairsHeadFails(mid, n - i, 1);
    PairsErrorAt(data, n, i, Decode(mid).error);
  }

  /** A value that fails to decode after a string key, at whichever entry i, aborts the map with
      its error. */
  lemma PairsValueError(data: seq<byte>, n: nat, i: nat)
    requires i < n && DecodePairs(data, i).Ok?
    requires var key := Decode(DecodePairs(data, i).value.1);
      key.Ok? && key.value.0.Str? && Decode(key.value.1).Err?
    ensures var key := Decode(DecodePairs(data, i).value.1);
      DecodeEntries(data, n) == Err(Decode(key.value.1).error)
  {
    var mid := DecodePairs(data, i).value.1;
    PairsHeadFails(mid, n - i, 1);
    PairsErrorAt(data, n, i, Decode(Decode(mid).value.1).error);
  }

  /** Entries that fail after the first i decode fail the whole map the same way. */
  lemma PairsErrorAt(data: seq<byte>, n: nat, i: nat, e: Error)
    requires i < n && DecodePairs(data, i).Ok? && DecodePairs(DecodePairs(data, i).value.1, n - i) == Err(e)
    ensures DecodeEntries(data, n) == Err(e)
  {
    DecodePairsSplit(data, i, n - i);
  }

  /** The keys of the map are exactly the keys of the pairs. */
  lemma {:induction false} ToMapKeys(pairs: seq<(seq<byte>, Value)>)
    ensures ToMap(pairs).Keys == set i | 0 <= i < |pairs| :: pairs[i].0
  {
    if pairs != [] {
      ToMapKeys(pairs[..|pairs| - 1]);
      KeysSnoc(pairs);
    }
  }

  /** The keys of a non-empty list of pairs are those of all but the last pair, and the last key. */
  lemma KeysSnoc(pairs: seq<(seq<byte>, Value)>)
    requires pairs != []
    ensures var init := pairs[..|pairs| - 1];
      (set i | 0 <= i < |pairs| :: pairs[i].0) == (set i | 0 <= i < |init| :: init[i].0) + {pairs[|pairs| - 1].0}
  {
    var init := pairs[..|pairs| - 1];
    var last := |pairs| - 1;
    var keys := set i | 0 <= i < |pairs| :: pairs[i].0;
    var front := set i | 0 <= i < |init| :: init[i].0;
    forall k | k in keys
      ensures k in front + {pairs[last].0}
    {
      var i :| 0 <= i < |pairs| && pairs[i].0 == k;
      if i < last { assert init[i] == pairs[i]; }
    }
    forall k | k in front
      ensures k in keys
    {
      var i :| 0 <= i < |init| && init[i].0 == k;
      assert pairs[i] == init[i];
    }
  }

  /** A repeated key keeps the value of its last occurrence. */
  lemma {:induction false} ToMapLastWins(pairs: seq<(seq<byte>, Value)>, i: nat)
    requires i < |pairs|
    requires forall j :: i < j < |pairs| ==> pairs[j].0 != pairs[i].0
    ensures pairs[i].0 in ToMap(pairs) && ToMap(pairs)[pairs[i].0] == pairs[i].1
  {
    if i < |pairs| - 1 {
      var init := pairs[..|pairs| - 1];
      assert init[i] == pairs[i];
      ToMapLastWins(init, i);
    }
  }

  /** A decoded map has at most as many keys as its header announced, one per distinct key. */
  lemma DecodedMapKeys(data: seq<byte>, n: nat)
    requires DecodePairs(data, n).Ok?
    ensures var pairs := DecodePairs(data, n).value.0;
      && DecodeEntries(data, n).Ok?
      && |DecodeEntries(data, n).value.0| <= n
      && DecodeEntries(data, n).value.0.Keys == set i | 0 <= i < |pairs| :: pairs[i].0
  {
    ToMapKeys(DecodePairs(data, n).value.0);
  }

  /** Two of the encodings a MessagePack reader is expected to accept: the array [1, 2]... */
  lemma ArrayExample()
    ensures Decode([0x92, 0x01, 0x02]) == Ok((Arr([Int(1), Int(2)]), []))
  {
    var two: seq<byte> := [0x02];
    var body: seq<byte> := [0x01] + two;
    assert [0x92 as byte] + body == [0x92, 0x01, 0x02];
    AfterFormatByte(0x92, body);
    FixArrayForm(0x92, body);
    AfterFormatByte(0x01, two);
    SingleByteForms(0x01, two);
    AfterFormatByte(0x02, []);
    SingleByteForms(0x02, []);
    assert [0x02 as byte] + [] == two;
    ItemsUnfold(body, 2, Int(1), two);
    SameItemsCount(two, 2, 1);
    ItemsUnfold(two, 1, Int(2), []);
    assert DecodeItems([], 0) == Ok(([], []));
    assert [Int(2)] + [] == [Int(2)] && [Int(1)] + [Int(2)] == [Int(1), Int(2)];
    assert DecodeItems(two, 1) == Ok(([Int(2)], []));
    assert DecodeItems(body, 2) == Ok(([Int(1), Int(2)], []));
  }

  /** ...and the map {"a": true}. */
  lemma MapExample()
    ensures Decode([0x81, 0xa1, 0x61, 0xc3]) == Ok((Map(map[[0x61] := Bool(true)]), []))
  {
    var t: seq<byte> := [0xc3];
    var body: seq<byte> := [0xa1, 0x61] + t;
    assert [0x81 as byte] + body == [0x81, 0xa1, 0x61, 0xc3];
    AfterFormatByte(0x81, body);
    FixMapForm(0x81, body);
    AfterFormatByte(0xa1, [0x61] + t);
    FixStrForms(0xa1, [0x61] + t);
    assert [0xa1 as byte] + ([0x61] + t) == body;
    assert ([0x61] + t)[..1] == [0x61] && ([0x61] + t)[1..] == t;
    AfterFormatByte(0xc3, []);
    SingleByteForms(0xc3, []);
    assert [0xc3 as byte] + [] == t;
    PairsUnfold(body, 1, [0x61], t, Bool(true), []);
    assert ToMap([([0x61], Bool(true))]) == map[[0x61] := Bool(true)];
  }

  datatype Option<T> = None | Some(value: T)

  /** The fixstr branch as the Go code has it: both slices are taken unchecked, so a length past
      the end of the input is a run-time panic (shown as None) instead of an error return. */
  function FixStrAsWritten(body: seq<byte>, length: nat): (r: Option<(seq<byte>, seq<byte>)>)
    ensures r.None? <==> |body| < length
    ensures r.Some? ==> r.value.0 + r.value.1 == body && |r.value.0| == length
  {
    if length <= |body| then
      assert body[..length] + body[length..] == body;
      Some((body[..length], body[length..]))
    else None
  }

  /** On every fixstr input the model and the code as written agree, except exactly where the
      code panics: there the model reports ShortString. */
  lemma FixStrAgreement(code: byte, body: seq<byte>)
    requires 0xa0 <= code <= 0xbf
    ensures var w := FixStrAsWritten(body, (code - 0xa0) as nat);
      w.None? <==> Dispatch(code, body) == Err(ShortString)
    ensures var w := FixStrAsWritten(body, (code - 0xa0) as nat);
      w.Some? ==> Dispatch(code, body) == Ok((Str(w.value.0), w.value.1))
  {
    FixStrForms(code, body);
  }

  /** The one-byte input 0xa1 announces a one-byte string that is not there: as written the
      program panics, while the model reports ShortString like decodeString does. */
  lemma FixStrTruncatedPanics()
    ensures FixStrAsWritten([], 1).None?
    ensures Decode([0xa1]) == Err(ShortString)
  {
    var data: seq<byte> := [0xa1];
    assert data[1..] == [];
  }
}
