/** The MessagePack decoder of cmd/decode.go: one format byte selects the construct, fixed-width
    and length-prefixed fields are read big-endian, and arrays and maps decode their elements
    through the same dispatcher, each from the bytes the previous one left over. */
module Decoder {
  import opened Bytes

  /** A decoded value. Floats are kept as their IEEE-754 bit patterns; map keys are byte strings. */
  datatype Value =
    | Nil
    | Bool(b: bool)
    | Int(i: int)
    | UInt(u: nat)
    | F32(bits32: uint32)
    | F64(bits64: uint64)
    | Str(s: seq<byte>)
    | Arr(items: seq<Value>)
    | Map(m: map<seq<byte>, Value>)

  /** The error returns of the decoder, one per kind of message it produces. */
  datatype Error =
    | EmptyInput               // no format byte at all
    | Insufficient(code: byte) // a fixed-width payload or a length field of `code` is cut short
    | ShortString              // a string's declared length exceeds the remaining bytes
    | Unsupported(code: byte)  // a format byte outside the handled set
    | NonStringKey(key: Value) // a map key that decoded to something other than a string

  datatype Result<T> = Ok(value: T) | Err(error: Error)

  /** What the format byte alone determines: a finished value, or an array or map header
      announcing `count` elements that follow in `rest`. */
  datatype Head =
    | Scalar(value: Value, rest: seq<byte>)
    | ArrayOf(count: nat, rest: seq<byte>)
    | MapOf(count: nat, rest: seq<byte>)
    | Bad(error: Error)

  predicate IsSuffix(rest: seq<byte>, data: seq<byte>)
  {
    |rest| <= |data| && rest == data[|data| - |rest|..]
  }

  predicate IsProperSuffix(rest: seq<byte>, data: seq<byte>)
  {
    IsSuffix(rest, data) && |rest| < |data|
  }

  lemma SuffixTransitive(a: seq<byte>, b: seq<byte>, c: seq<byte>)
    requires IsSuffix(a, b) && IsSuffix(b, c)
    ensures IsSuffix(a, c)
  {
    assert c[|c| - |b|..][|b| - |a|..] == c[|c| - |a|..];
  }

  /** The format bytes the decoder has no branch for. */
  predicate IsUnsupportedCode(code: byte)
  {
    code == 0xc1 || 0xc4 <= code <= 0xc9 || 0xd4 <= code <= 0xd8
  }

  /** How a fixed-width payload is read, and how many bytes it has. */
  datatype Kind = Float32 | Float64 | Unsigned(bytes: nat) | TwosComplement(bytes: nat)
  {
    function Width(): nat
    {
      match this
      case Float32 => 4
      case Float64 => 8
      case Unsigned(w) => w
      case TwosComplement(w) => w
    }
  }

  /** What follows a length: that many string bytes, array elements or map entries. */
  datatype Container = StrData | ArrayData | MapData

  /** The meaning of a format byte, before any following byte is looked at. */
  datatype Format =
    | Immediate(value: Value)                  // the byte is the whole value
    | Counted(count: nat, of: Container)       // the length is in the byte's low bits
    | Fixed(kind: Kind)                        // a fixed-width payload follows
    | Prefixed(width: nat, of: Container)      // a big-endian length field of `width` bytes follows
    | NotSupported

  /** The switch of decodeMessagePack on the format byte. */
  function FormatOf(code: byte): (f: Format)
    ensures f.Fixed? ==> f.kind.Width() in {1, 2, 4, 8}
    ensures f.Fixed? && f.kind.Unsigned? ==> 1 <= f.kind.bytes
    ensures f.Fixed? && f.kind.TwosComplement? ==> 1 <= f.kind.bytes
  {
    if code <= 0x7f then Immediate(Int(code as int))                   // positive fixint
    else if code >= 0xe0 then Immediate(Int(code as int - 0x100))      // negative fixint
    else if code <= 0x8f then Counted((code - 0x80) as nat, MapData)   // fixmap
    else if code <= 0x9f then Counted((code - 0x90) as nat, ArrayData) // fixarray
    else if code <= 0xbf then Counted((code - 0xa0) as nat, StrData)   // fixstr
    else if code == 0xc0 then Immediate(Nil)
    else if code == 0xc2 then Immediate(Bool(false))
    else if code == 0xc3 then Immediate(Bool(true))
    else if code == 0xca then Fixed(Float32)
    else if code == 0xcb then Fixed(Float64)
    else if code == 0xcc then Fixed(Unsigned(1))
    else if code == 0xcd then Fixed(Unsigned(2))
    else if code == 0xce then Fixed(Unsigned(4))
    else if code == 0xcf then Fixed(Unsigned(8))
    else if code == 0xd0 then Fixed(TwosComplement(1))
    else if code == 0xd1 then Fixed(TwosComplement(2))
    else if code == 0xd2 then Fixed(TwosComplement(4))
    else if code == 0xd3 then Fixed(TwosComplement(8))
    else if code == 0xd9 then Prefixed(1, StrData)
    else if code == 0xda then Prefixed(2, StrData)
    else if code == 0xdb then Prefixed(4, StrData)
    else if code == 0xdc then Prefixed(2, ArrayData)
    else if code == 0xdd then Prefixed(4, ArrayData)
    else if code == 0xde then Prefixed(2, MapData)
    else if code == 0xdf then Prefixed(4, MapData)
    else NotSupported
  }

  /** The value a fixed-width payload `u` stands for: raw float bits, an unsigned number,
      or the two's-complement reading. */
  function FixedValue(kind: Kind, u: nat): (v: Value)
    requires kind.Width() in {1, 2, 4, 8} && u < Pow256(kind.Width())
    ensures kind.Float32? <==> v.F32?
    ensures kind.Float64? <==> v.F64?
    ensures kind.Unsigned? <==> v.UInt?
    ensures kind.TwosComplement? <==> v.Int?
    ensures v.F32? ==> v.bits32 as int == u
    ensures v.F64? ==> v.bits64 as int == u
    ensures v.UInt? ==> v.u == u
    ensures v.Int? ==> -0x80 * Pow256(kind.Width() - 1) <= v.i < 0x80 * Pow256(kind.Width() - 1)
    ensures v.Int? ==> (v.i - u) % Pow256(kind.Width()) == 0
  {
    match kind
    case Float32 => F32(u as uint32)
    case Float64 => F64(u as uint64)
    case Unsigned(_) => UInt(u)
    case TwosComplement(w) => SignedRange(u, w); Int(Signed(u, w))
  }

  /** decodeString: the next `length` bytes form the string, or the input is too short. */
  function DecodeString(data: seq<byte>, length: nat): (r: Result<(seq<byte>, seq<byte>)>)
    ensures r.Ok? <==> length <= |data|
    ensures r.Ok? ==> |r.value.0| == length && r.value.0 + r.value.1 == data
    ensures r.Err? ==> r.error == ShortString
  {
    if |data| < length then Err(ShortString)
    else
      assert data[..length] + data[length..] == data;
      Ok((data[..length], data[length..]))
  }

  /** A length and the bytes after it: a string is read at once, an array or a map is announced. */
  function ContainerHead(of: Container, length: nat, rest: seq<byte>): (h: Head)
    ensures !h.Bad? ==> |h.rest| <= |rest|
  {
    match of
    case StrData =>
      (match DecodeString(rest, length)
       case Err(e) => Bad(e)
       case Ok((s, rest')) => Scalar(Str(s), rest'))
    case ArrayData => ArrayOf(length, rest)
    case MapData => MapOf(length, rest)
  }

  /** A fixed-width payload of `kind` after format byte `code`. */
  function FixedHead(code: byte, kind: Kind, body: seq<byte>): (h: Head)
    requires kind.Width() in {1, 2, 4, 8}
    ensures !h.Bad? ==> |h.rest| <= |body|
  {
    var w := kind.Width();
    if |body| < w then Bad(Insufficient(code))
    else Scalar(FixedValue(kind, BigEndian(body[..w])), body[w..])
  }

  /** A `w`-byte length field after format byte `code`, then the string, array or map. */
  function PrefixedHead(code: byte, w: nat, of: Container, body: seq<byte>): (h: Head)
    ensures !h.Bad? ==> |h.rest| <= |body|
  {
    if |body| < w then Bad(Insufficient(code))
    else ContainerHead(of, BigEndian(body[..w]), body[w..])
  }

  /** What follows format byte `code`, as the switch of decodeMessagePack reads it. */
  function PayloadHead(code: byte, body: seq<byte>): (h: Head)
    ensures !h.Bad? ==> |h.rest| <= |body|
  {
    match FormatOf(code)
    case Immediate(v) => Scalar(v, body)
    case Counted(n, of) => ContainerHead(of, n, body)
    case Fixed(kind) => FixedHead(code, kind, body)
    case Prefixed(w, of) => PrefixedHead(code, w, of, body)
    case NotSupported => Bad(Unsupported(code))
  }

  /** Puts `front` before the elements of a successful result; an error passes through. */
  function Prepend<T>(front: seq<T>, r: Result<(seq<T>, seq<byte>)>): (p: Result<(seq<T>, seq<byte>)>)
    ensures p.Ok? <==> r.Ok?
    ensures p.Ok? ==> p.value == (front + r.value.0, r.value.1)
    ensures p.Err? ==> p == Err(r.error)
  {
    match r
    case Err(e) => Err(e)
    case Ok((xs, rest)) => Ok((front + xs, rest))
  }

  /** The map built by inserting the pairs left to right, as decodeMap does. */
  function ToMap(pairs: seq<(seq<byte>, Value)>): (m: map<seq<byte>, Value>)
    ensures |m| <= |pairs|
  {
    if pairs == [] then map[]
    else
      var last := pairs[|pairs| - 1];
      ToMap(pairs[..|pairs| - 1])[last.0 := last.1]
  }

  /** decodeMessagePack: one complete value and the bytes after it. Whatever it does not fail on
      consumes at least the format byte. */
  function Decode(data: seq<byte>): (r: Result<(Value, seq<byte>)>)
    ensures data == [] ==> r == Err(EmptyInput)
    ensures r.Ok? ==> |r.value.1| < |data|
    decreases |data|, 0, 0
  {
    if |data| == 0 then Err(EmptyInput) else Dispatch(data[0], data[1..])
  }

  /** The switch of decodeMessagePack on format byte `code`, `body` being the bytes after it:
      the payload is read, and an array or a map goes on to decode its elements. Every length
      is checked against the input, fixstr's included. */
  function Dispatch(code: byte, body: seq<byte>): (r: Result<(Value, seq<byte>)>)
    ensures r.Ok? ==> |r.value.1| <= |body|
    decreases |body|, 3, 0
  {
    match PayloadHead(code, body)
    case Bad(e) => Err(e)
    case Scalar(v, rest) => Ok((v, rest))
    case ArrayOf(n, rest) => AsArray(DecodeItems(rest, n))
    case MapOf(n, rest) => AsMap(DecodeEntries(rest, n))
  }

  /** An array header's result: the decoded elements wrapped as an array value. */
  function AsArray(r: Result<(seq<Value>, seq<byte>)>): Result<(Value, seq<byte>)>
  {
    match r
    case Err(e) => Err(e)
    case Ok((items, rest)) => Ok((Arr(items), rest))
  }

  /** A map header's result: the decoded map wrapped as a map value. */
  function AsMap(r: Result<(map<seq<byte>, Value>, seq<byte>)>): Result<(Value, seq<byte>)>
  {
    match r
    case Err(e) => Err(e)
    case Ok((m, rest)) => Ok((Map(m), rest))
  }

  /** The elements of an array of `n` elements: decoded left to right, the first error aborts. */
  function DecodeItems(data: seq<byte>, n: nat): (r: Result<(seq<Value>, seq<byte>)>)
    ensures r.Ok? ==> |r.value.0| == n && |r.value.1| <= |data|
    decreases |data|, 1, n
  {
    if n == 0 then Ok(([], data))
    else
      match Decode(data)
      case Err(e) => Err(e)
      case Ok((v, rest)) => Prepend([v], DecodeItems(rest, n - 1))
  }

  /** The key/value pairs of a map of `n` entries, in input order. A key that is not a string
      fails before its value is decoded. */
  function DecodePairs(data: seq<byte>, n: nat): (r: Result<(seq<(seq<byte>, Value)>, seq<byte>)>)
    ensures r.Ok? ==> |r.value.0| == n && |r.value.1| <= |data|
    decreases |data|, 1, n
  {
    if n == 0 then Ok(([], data))
    else
      match Decode(data)
      case Err(e) => Err(e)
      case Ok((key, afterKey)) =>
        if !key.Str? then Err(NonStringKey(key))
        else
          match Decode(afterKey)
          case Err(e) => Err(e)
          case Ok((v, rest)) => Prepend([(key.s, v)], DecodePairs(rest, n - 1))
  }

  /** decodeMap's result: the pairs inserted into a map, so a repeated key keeps its last value. */
  function DecodeEntries(data: seq<byte>, n: nat): (r: Result<(map<seq<byte>, Value>, seq<byte>)>)
    ensures r.Ok? ==> |r.value.0| <= n && |r.value.1| <= |data|
    decreases |data|, 2, 0
  {
    match DecodePairs(data, n)
    case Err(e) => Err(e)
    case Ok((pairs, rest)) => Ok((ToMap(pairs), rest))
  }

  /** decodeMessagePack as the program runs it: the empty check, the switch, and the loops of
      decodeArray and decodeMap for containers. */
  method DecodeMessagePack(data: seq<byte>) returns (r: Result<(Value, seq<byte>)>)
    ensures r == Decode(data)
    decreases |data|, 0
  {
    if |data| == 0 {
      return Err(EmptyInput);
    }
    var code, body := data[0], data[1..];
    match PayloadHead(code, body)
    case Bad(e) =>
      r := Err(e);
    case Scalar(v, rest) =>
      r := Ok((v, rest));
    case ArrayOf(n, rest) =>
      var items := DecodeArray(rest, n);
      r := AsArray(items);
    case MapOf(n, rest) =>
      var entries := DecodeMap(rest, n);
      r := AsMap(entries);
  }

  /** decodeArray: `length` times, decode one element from what is left and append it. */
  method DecodeArray(data: seq<byte>, length: nat) returns (r: Result<(seq<Value>, seq<byte>)>)
    ensures r == DecodeItems(data, length)
    decreases |data|, 1
  {
    var elements: seq<Value> := [];
    var rest := data;
    var remaining := length;
    PrependNothing(DecodeItems(data, length));
    while remaining > 0
      invariant |rest| <= |data|
      invariant DecodeItems(data, length) == Prepend(elements, DecodeItems(rest, remaining))
    {
      var element := DecodeMessagePack(rest);
      if element.Err? {
        return Err(element.error);
      }
      var (v, rest') := element.value;
      ghost var before := remaining;
      remaining := remaining - 1;
      ItemsStep(data, length, before, remaining, elements, rest, v, rest');
      elements := elements + [v];
      rest := rest';
    }
    assert elements + [] == elements;
    r := Ok((elements, rest));
  }

  /** decodeMap: `length` times, decode a key, insist that it is a string, decode its value and
      store it under the key, overwriting an earlier entry with the same key. */
  method DecodeMap(data: seq<byte>, length: nat) returns (r: Result<(map<seq<byte>, Value>, seq<byte>)>)
    ensures r == DecodeEntries(data, length)
    decreases |data|, 1
  {
    var m: map<seq<byte>, Value> := map[];
    ghost var pairs: seq<(seq<byte>, Value)> := [];
    var rest := data;
    var remaining := length;
    PrependNothing(DecodePairs(data, length));
    while remaining > 0
      invariant |rest| <= |data|
      invariant m == ToMap(pairs)
      invariant DecodePairs(data, length) == Prepend(pairs, DecodePairs(rest, remaining))
    {
      var key := DecodeMessagePack(rest);
      if key.Err? {
        return Err(key.error);
      }
      var (k, afterKey) := key.value;
      if !k.Str? {
        return Err(NonStringKey(k));
      }
      var value := DecodeMessagePack(afterKey);
      if value.Err? {
        return Err(value.error);
      }
      var (v, rest') := value.value;
      ghost var before := remaining;
      remaining := remaining - 1;
      PairsStep(data, length, before, remaining, pairs, rest, k.s, afterKey, v, rest');
      ToMapSnoc(pairs, k.s, v);
      m := m[k.s := v];
      pairs := pairs + [(k.s, v)];
      rest := rest';
    }
    assert pairs + [] == pairs;
    r := Ok((m, rest));
  }

  /** One round of decodeArray's loop keeps its invariant; `k` elements were still to come. */
  lemma ItemsStep(data: seq<byte>, n: nat, k: nat, k': nat, front: seq<Value>, rest: seq<byte>, v: Value, rest': seq<byte>)
    requires k == k' + 1 && |rest| <= |data| && Decode(rest) == Ok((v, rest'))
    requires DecodeItems(data, n) == Prepend(front, DecodeItems(rest, k))
    ensures |rest'| <= |data|
    ensures DecodeItems(data, n) == Prepend(front + [v], DecodeItems(rest', k'))
  {
    ItemsUnfold(rest, k, v, rest');
    SameItemsCount(rest', k, k');
    PrependTwice(front, [v], DecodeItems(rest', k'));
  }

  /** One round of decodeMap's loop keeps its invariant: a string key, then its value. */
  lemma PairsStep(data: seq<byte>, n: nat, k: nat, k': nat, front: seq<(seq<byte>, Value)>, rest: seq<byte>,
                  key: seq<byte>, afterKey: seq<byte>, v: Value, rest': seq<byte>)
    requires k == k' + 1 && |rest| <= |data|
    requires Decode(rest) == Ok((Str(key), afterKey)) && Decode(afterKey) == Ok((v, rest'))
    requires DecodePairs(data, n) == Prepend(front, DecodePairs(rest, k))
    ensures |rest'| <= |data|
    ensures DecodePairs(data, n) == Prepend(front + [(key, v)], DecodePairs(rest', k'))
  {
    PairsUnfold(rest, k, key, afterKey, v, rest');
    SamePairsCount(rest', k, k');
    PrependTwice(front, [(key, v)], DecodePairs(rest', k'));
  }

  /** The first element of a non-empty array, then the rest. */
  lemma ItemsUnfold(data: seq<byte>, k: nat, v: Value, rest: seq<byte>)
    requires k > 0 && Decode(data) == Ok((v, rest))
    ensures DecodeItems(data, k) == Prepend([v], DecodeItems(rest, k - 1))
  {
  }

  /** The first pair of a non-empty map, then the rest. */
  lemma PairsUnfold(data: seq<byte>, k: nat, key: seq<byte>, afterKey: seq<byte>, v: Value, rest: seq<byte>)
    requires k > 0 && Decode(data) == Ok((Str(key), afterKey)) && Decode(afterKey) == Ok((v, rest))
    ensures DecodePairs(data, k) == Prepend([(key, v)], DecodePairs(rest, k - 1))
  {
  }

  /** The count left after one element, however it is written, gives the same decoding. */
  lemma SameItemsCount(data: seq<byte>, k: nat, k': nat)
    requires k == k' + 1
    ensures DecodeItems(data, k - 1) == DecodeItems(data, k')
  {
  }

  lemma SamePairsCount(data: seq<byte>, k: nat, k': nat)
    requires k == k' + 1
    ensures DecodePairs(data, k - 1) == DecodePairs(data, k')
  {
  }

  /** Inserting one more pair is a map update. */
  lemma ToMapSnoc(pairs: seq<(seq<byte>, Value)>, k: seq<byte>, v: Value)
    ensures ToMap(pairs + [(k, v)]) == ToMap(pairs)[k := v]
  {
    assert (pairs + [(k, v)])[..|pairs|] == pairs;
  }

  lemma PrependTwice<T>(a: seq<T>, b: seq<T>, r: Result<(seq<T>, seq<byte>)>)
    ensures Prepend(a, Prepend(b, r)) == Prepend(a + b, r)
  {
    if r.Ok? {
      assert a + (b + r.value.0) == (a + b) + r.value.0;
    }
  }

  lemma PrependNothing<T>(r: Result<(seq<T>, seq<byte>)>)
    ensures Prepend([], r) == r
  {
    if r.Ok? {
      assert [] + r.value.0 == r.value.0;
    }
  }
}
