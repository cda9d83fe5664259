/** The encoder of cmd/encode.go: a flat string-keyed map is written into a growing byte buffer
    as a header byte, then each key and each value. It is modelled as written, which is not
    MessagePack: strings carry a bare length byte, ints and floats are written without a tag. */
module Encoder {
  import opened Bytes

  /** The dynamic type of a map value, as writeValue's type switch tells them apart. A float64 is
      its IEEE-754 bit pattern; `Other` is every type the switch has no case for. */
  datatype GoValue =
    | GoInt(i: int)
    | GoFloat64(bits: uint64)
    | GoString(s: seq<byte>)
    | GoBool(b: bool)
    | GoNil
    | Other

  /** The bytes.Buffer the encoder appends to. */
  class Buffer {
    var bytes: seq<byte>

    constructor()
      ensures bytes == []
    {
      bytes := [];
    }

    /** Appends `s`; nothing already written changes. */
    method Write(s: seq<byte>)
      modifies this
      ensures bytes == old(bytes) + s
    {
      bytes := bytes + s;
    }
  }

  /** The map header `0x80 | byte(count)`: the count truncated to a byte, or-ed with the top bit. */
  function HeaderByte(count: nat): (h: byte)
    ensures 0x80 <= h
  {
    BitOrTopBit(7, count % 0x100);
    BitOr(0x80, count % 0x100) as byte
  }

  /** Setting the top bit of the truncated count leaves its low seven bits: the header is
      0x80 + count mod 128, so it is never below 0x80 and repeats every 128 entries. */
  lemma HeaderByteValue(count: nat)
    ensures HeaderByte(count) as int == 0x80 + count % 0x80
  {
    var c := count % 0x100;
    assert Pow2(7) == 0x80 by {
      assert Pow2(0) == 1;
    }
    BitOrTopBit(7, c);
    ModOfDecomposition(count, 0x80, 2 * (count / 0x100) + c / 0x80, c % 0x80);
  }

  /** writeString: the length truncated to one byte, then the string's bytes, with no format tag. */
  function StringBytes(s: seq<byte>): (r: seq<byte>)
    ensures |r| == |s| + 1
  {
    [(|s| % 0x100) as byte] + s
  }

  /** The four bytes binary.Write produces for int32(i): the low 32 bits, most significant first. */
  function Int32Bytes(i: int): (r: seq<byte>)
    ensures |r| == 4
  {
    ToBigEndian(i % 0x1_0000_0000, 4)
  }

  /** writeValue: what each dynamic type appends, with no format tag for ints, floats and strings. */
  function ValueBytes(v: GoValue): (r: seq<byte>)
    ensures |r| == ValueSize(v)
  {
    match v
    case GoInt(i) => Int32Bytes(i)
    case GoFloat64(bits) => ToBigEndian(bits as nat, 8)
    case GoString(s) => StringBytes(s)
    case GoBool(b) => if b then [0xc3] else [0xc2]
    case GoNil => [0xc0]
    case Other => []
  }

  /** One map entry: the key as writeString writes it, then the value. */
  function EntryBytes(entry: (seq<byte>, GoValue)): seq<byte>
  {
    StringBytes(entry.0) + ValueBytes(entry.1)
  }

  /** The entries in iteration order, each appended after the ones before it. */
  function EntriesBytes(entries: seq<(seq<byte>, GoValue)>): seq<byte>
  {
    if entries == [] then []
    else EntriesBytes(entries[..|entries| - 1]) + EntryBytes(entries[|entries| - 1])
  }

  /** encodeMessagePack's output for the entries in the order the map is iterated. */
  function Encoding(entries: seq<(seq<byte>, GoValue)>): (r: seq<byte>)
    ensures |r| >= 1 && 0x80 <= r[0]
  {
    [HeaderByte(|entries|)] + EntriesBytes(entries)
  }

  /** The number of bytes writeValue appends, by type. */
  function ValueSize(v: GoValue): nat
  {
    match v
    case GoInt(_) => 4
    case GoFloat64(_) => 8
    case GoString(s) => 1 + |s|
    case GoBool(_) => 1
    case GoNil => 1
    case Other => 0
  }

  /** The size of the entries, counted from the first: 1 + |key| + the value's size each. */
  function EntriesSize(entries: seq<(seq<byte>, GoValue)>): nat
  {
    if entries == [] then 0 else 1 + |entries[0].0| + ValueSize(entries[0].1) + EntriesSize(entries[1..])
  }

  /** Keys of a Go map are distinct. */
  predicate DistinctKeys(entries: seq<(seq<byte>, GoValue)>)
  {
    forall i, j :: 0 <= i < j < |entries| ==> entries[i].0 != entries[j].0
  }

  /** writeString appends exactly 1 + |s| bytes: |s| mod 256, then the bytes of s. */
  lemma StringBytesLayout(s: seq<byte>)
    ensures |StringBytes(s)| == 1 + |s|
    ensures StringBytes(s)[0] as int == |s| % 0x100 && StringBytes(s)[1..] == s
  {
  }

  /** The int bytes are int32(i) in two's complement: read back as a signed 32-bit number they give
      i wrapped into the int32 range, which is i itself when i fits. */
  lemma Int32BytesLayout(i: int)
    ensures |Int32Bytes(i)| == 4
    ensures BigEndian(Int32Bytes(i)) == i % 0x1_0000_0000
    ensures -0x8000_0000 <= Signed(BigEndian(Int32Bytes(i)), 4) < 0x8000_0000
    ensures (Signed(BigEndian(Int32Bytes(i)), 4) - i) % 0x1_0000_0000 == 0
    ensures -0x8000_0000 <= i < 0x8000_0000 ==> Signed(BigEndian(Int32Bytes(i)), 4) == i
  {
    var u := i % 0x1_0000_0000;
    BigEndianOfToBigEndian(u, 4);
    assert Pow256(4) == 0x1_0000_0000 && Pow256(3) == 0x100_0000;
    ModOfDecomposition(u, Pow256(4), 0, u);
    SignedRange(u, 4);
    var d := Signed(u, 4) - u;
    assert (Signed(u, 4) - i) == d + (u - i);
    ModOfDecomposition(u - i, 0x1_0000_0000, -(i / 0x1_0000_0000), 0);
    ModOfDecomposition(d, 0x1_0000_0000, d / 0x1_0000_0000, 0);
    ModOfDecomposition(d + (u - i), 0x1_0000_0000, d / 0x1_0000_0000 - i / 0x1_0000_0000, 0);
    if -0x8000_0000 <= i < 0x8000_0000 {
      SignedOfTruncation(i, 4);
    }
  }

  /** writeValue appends exactly ValueSize(v) bytes: 4 for an int, 8 for a float64, the string
      encoding for a string, one byte for a bool or nil and nothing for any other type. */
  lemma ValueBytesLayout(v: GoValue)
    ensures |ValueBytes(v)| == ValueSize(v)
    ensures v.GoBool? ==> ValueBytes(v) == [if v.b then 0xc3 else 0xc2]
    ensures v.GoNil? ==> ValueBytes(v) == [0xc0]
    ensures v.Other? ==> ValueBytes(v) == []
  {
  }

  /** A float64 is its eight IEEE-754 bytes, most significant first: read back they give the bits. */
  lemma Float64BytesLayout(bits: uint64)
    ensures ValueBytes(GoFloat64(bits)) == ToBigEndian(bits as nat, 8)
    ensures BigEndian(ValueBytes(GoFloat64(bits))) == bits as nat
  {
    BigEndianOfToBigEndian(bits as nat, 8);
    assert Pow256(8) == 0x1_0000_0000_0000_0000;
    ModOfDecomposition(bits as nat, Pow256(8), 0, bits as nat);
  }

  /** Counting the entries from the last one gives the same size as counting from the first. */
  lemma {:induction false} EntriesSizeSnoc(entries: seq<(seq<byte>, GoValue)>)
    requires entries != []
    ensures var last := entries[|entries| - 1];
      EntriesSize(entries) == EntriesSize(entries[..|entries| - 1]) + 1 + |last.0| + ValueSize(last.1)
    decreases |entries|
  {
    if |entries| > 1 {
      var tail := entries[1..];
      EntriesSizeSnoc(tail);
      assert tail[..|tail| - 1] == entries[..|entries| - 1][1..];
      assert tail[|tail| - 1] == entries[|entries| - 1];
    }
  }

  /** The output is 1 + the sum over the entries of 1 + |key| + the value's size. */
  lemma {:induction false} EncodedLength(entries: seq<(seq<byte>, GoValue)>)
    ensures |Encoding(entries)| == 1 + EntriesSize(entries)
    decreases |entries|
  {
    if entries != [] {
      var init := entries[..|entries| - 1];
      EncodedLength(init);
      EntriesSizeSnoc(entries);
      StringBytesLayout(entries[|entries| - 1].0);
      ValueBytesLayout(entries[|entries| - 1].1);
    }
  }

  /** The output starts with the header byte 0x80 + count mod 128, then the entries. */
  lemma EncodingHeader(entries: seq<(seq<byte>, GoValue)>)
    ensures Encoding(entries)[0] as int == 0x80 + |entries| % 0x80
    ensures Encoding(entries)[1..] == EntriesBytes(entries)
  {
    HeaderByteValue(|entries|);
  }

  /** The entries' bytes are each entry's bytes in iteration order: the first i entries are a prefix
      of the output, and entry i follows them. */
  lemma {:induction false} EntriesPrefix(entries: seq<(seq<byte>, GoValue)>, i: nat)
    requires i < |entries|
    ensures EntriesBytes(entries[..i + 1]) == EntriesBytes(entries[..i]) + EntryBytes(entries[i])
  {
    assert entries[..i + 1][..i] == entries[..i];
  }

  lemma ConcatAssociative(a: seq<byte>, b: seq<byte>, c: seq<byte>)
    ensures (a + b) + c == a + (b + c)
  {
  }

  /** Read from the front, the output is the first entry's bytes, then the others'. */
  lemma {:induction false} EntriesFront(entries: seq<(seq<byte>, GoValue)>)
    requires entries != []
    ensures EntriesBytes(entries) == EntryBytes(entries[0]) + EntriesBytes(entries[1..])
    decreases |entries|
  {
    var n := |entries|;
    if n == 1 {
      assert entries[..0] == [] && entries[1..] == [];
    } else {
      var init, tail := entries[..n - 1], entries[1..];
      EntriesFront(init);
      assert init[0] == entries[0];
      assert tail[..n - 2] == init[1..] && tail[n - 2] == entries[n - 1];
      ConcatAssociative(EntryBytes(entries[0]), EntriesBytes(init[1..]), EntryBytes(entries[n - 1]));
    }
  }

  /** writeString: the length byte, then the string. */
  method WriteString(buf: Buffer, str: seq<byte>)
    modifies buf
    ensures buf.bytes == old(buf.bytes) + StringBytes(str)
  {
    buf.Write([(|str| % 0x100) as byte]);
    buf.Write(str);
  }

  /** writeValue: the type switch, appending the bytes for the value's dynamic type. */
  method WriteValue(buf: Buffer, value: GoValue)
    modifies buf
    ensures buf.bytes == old(buf.bytes) + ValueBytes(value)
  {
    match value
    case GoInt(i) =>
      buf.Write(Int32Bytes(i));
    case GoFloat64(bits) =>
      buf.Write(ToBigEndian(bits as nat, 8));
    case GoString(s) =>
      WriteString(buf, s);
    case GoBool(b) =>
      if b {
        buf.Write([0xc3]);
      } else {
        buf.Write([0xc2]);
      }
    case GoNil =>
      buf.Write([0xc0]);
    case Other =>
  }

  /** encodeMessagePack: the header, then every entry in iteration order. */
  method EncodeMessagePack(data: seq<(seq<byte>, GoValue)>) returns (out: seq<byte>)
    requires DistinctKeys(data)
    ensures out == Encoding(data)
  {
    var buf := new Buffer();
    buf.Write([HeaderByte(|data|)]);
    var i := 0;
    while i < |data|
      invariant 0 <= i <= |data|
      invariant buf.bytes == [HeaderByte(|data|)] + EntriesBytes(data[..i])
    {
      ghost var before := buf.bytes;
      var key, value := data[i].0, data[i].1;
      WriteString(buf, key);
      WriteValue(buf, value);
      ConcatAssociative(before, StringBytes(key), ValueBytes(value));
      EntriesPrefix(data, i);
      ConcatAssociative([HeaderByte(|data|)], EntriesBytes(data[..i]), EntryBytes(data[i]));
      i := i + 1;
    }
    assert data[..|data|] == data;
    out := buf.bytes;
  }
}
