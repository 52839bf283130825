/** The wire format: big-endian `struct` layouts `>H` and `>HI`, and the four
    protocol messages built from them. */
module Codec {

  import opened Results
  import opened Bytes
  import opened Stream

  const TWO16: nat := 0x1_0000
  const TWO32: nat := 0x1_0000_0000

  /** Type codes carried in the first two bytes of every message. */
  const INIT: nat := 1
  const AGREE: nat := 2
  const REQUEST: nat := 3
  const RESPONSE: nat := 4

  /** `struct.pack('>H', v)`: two bytes, most significant first. */
  function PackU16(v: nat): (b: seq<byte>)
    requires v < TWO16
    ensures |b| == 2
  {
    [v / 0x100, v % 0x100]
  }

  /** `struct.unpack('>H', b)[0]`. */
  function UnpackU16(b: seq<byte>): (v: nat)
    requires |b| == 2
    ensures v < TWO16
  {
    b[0] as int * 0x100 + b[1] as int
  }

  /** `struct.pack('>I', v)`: four bytes, most significant first, that is
      the high 16 bits then the low 16 bits, each big-endian. */
  function PackU32(v: nat): (b: seq<byte>)
    requires v < TWO32
    ensures |b| == 4
  {
    assert v / TWO16 < TWO16 by { DivBound(v, TWO16, TWO16); }
    PackU16(v / TWO16) + PackU16(v % TWO16)
  }

  /** `struct.unpack('>I', b)[0]`. */
  function UnpackU32(b: seq<byte>): (v: nat)
    requires |b| == 4
    ensures v < TWO32
  {
    UnpackU16(b[..2]) * TWO16 + UnpackU16(b[2..])
  }

  lemma DivBound(v: nat, d: nat, k: nat)
    requires 0 < d && v < k * d
    ensures v / d < k
  {
  }

  lemma U16RoundTrip(v: nat)
    requires v < TWO16
    ensures UnpackU16(PackU16(v)) == v
  {
  }

  lemma U16Canonical(b: seq<byte>)
    requires |b| == 2
    ensures PackU16(UnpackU16(b)) == b
  {
  }

  lemma U32RoundTrip(v: nat)
    requires v < TWO32
    ensures UnpackU32(PackU32(v)) == v
  {
    DivBound(v, TWO16, TWO16);
    var b := PackU32(v);
    assert b[..2] == PackU16(v / TWO16) && b[2..] == PackU16(v % TWO16);
    U16RoundTrip(v / TWO16);
    U16RoundTrip(v % TWO16);
  }

  lemma U32Canonical(b: seq<byte>)
    requires |b| == 4
    ensures PackU32(UnpackU32(b)) == b
  {
    var hi, lo := UnpackU16(b[..2]), UnpackU16(b[2..]);
    assert (hi * TWO16 + lo) / TWO16 == hi && (hi * TWO16 + lo) % TWO16 == lo;
    U16Canonical(b[..2]);
    U16Canonical(b[2..]);
    assert b[..2] + b[2..] == b;
  }

  /** `struct.pack('>HI', t, v)`: a 2-byte type followed by a 4-byte count or length. */
  function PackHI(t: nat, v: nat): (b: seq<byte>)
    requires t < TWO16 && v < TWO32
    ensures |b| == 6
  {
    PackU16(t) + PackU32(v)
  }

  /** `struct.unpack('>HI', b)`. */
  function UnpackHI(b: seq<byte>): (tv: (nat, nat))
    requires |b| == 6
    ensures tv.0 < TWO16 && tv.1 < TWO32
  {
    (UnpackU16(b[..2]), UnpackU32(b[2..]))
  }

  /** The big-endian layout of `>HI`: the type's high byte then its low
      byte, then the value's four bytes from most to least significant. */
  lemma PackHILayout(t: nat, v: nat)
    requires t < TWO16 && v < TWO32
    ensures PackHI(t, v) == [t / 0x100, t % 0x100,
                             v / 0x100_0000, v / 0x1_0000 % 0x100,
                             v / 0x100 % 0x100, v % 0x100]
  {
    var hi, lo := v / TWO16, v % TWO16;
    var q, r := hi / 0x100, hi % 0x100;
    SplitDiv(v, TWO16, hi, lo);
    SplitDiv(hi, 0x100, q, r);
    SplitDiv(v, 0x100_0000, q, r * TWO16 + lo);
    SplitDiv(lo, 0x100, lo / 0x100, lo % 0x100);
    SplitDiv(v, 0x100, hi * 0x100 + lo / 0x100, lo % 0x100);
    SplitDiv(hi * 0x100 + lo / 0x100, 0x100, hi, lo / 0x100);
  }

  /** Division is determined by any quotient and remainder that rebuild
      the dividend. */
  lemma SplitDiv(v: nat, d: nat, q: nat, r: nat)
    requires 0 < d && r < d && v == q * d + r
    ensures v / d == q && v % d == r
  {
    var q0, r0 := v / d, v % d;
    assert v == q0 * d + r0;
    if q0 < q {
      MulGap(q0, q, d);
    } else if q < q0 {
      MulGap(q, q0, d);
    }
  }

  lemma MulGap(a: nat, b: nat, d: nat)
    requires a < b
    ensures a * d + d <= b * d
  {
    var k: nat := b - a - 1;
    assert b * d == a * d + d + k * d;
  }

  /** Unpacking with `>HI` inverts packing with `>HI`. */
  lemma HIRoundTrip(t: nat, v: nat)
    requires t < TWO16 && v < TWO32
    ensures UnpackHI(PackHI(t, v)) == (t, v)
  {
    var b := PackHI(t, v);
    assert b[..2] == PackU16(t) && b[2..] == PackU32(v);
    U16RoundTrip(t);
    U32RoundTrip(v);
  }

  /** Every 6-byte header is the packing of what it unpacks to. */
  lemma HICanonical(b: seq<byte>)
    requires |b| == 6
    ensures PackHI(UnpackHI(b).0, UnpackHI(b).1) == b
  {
    U16Canonical(b[..2]);
    U32Canonical(b[2..]);
    assert b[..2] + b[2..] == b;
  }

  /** The four messages of the protocol. */
  datatype Message =
    | Init(numBlocks: nat)
    | Agree
    | ReverseRequest(payload: seq<byte>)
    | ReverseResponse(payload: seq<byte>)

  /** Which message a receiver expects in its current protocol state. */
  datatype Kind = InitKind | AgreeKind | RequestKind | ResponseKind

  function KindOf(m: Message): Kind
  {
    match m
    case Init(_) => InitKind
    case Agree => AgreeKind
    case ReverseRequest(_) => RequestKind
    case ReverseResponse(_) => ResponseKind
  }

  function Code(k: Kind): nat
  {
    match k
    case InitKind => INIT
    case AgreeKind => AGREE
    case RequestKind => REQUEST
    case ResponseKind => RESPONSE
  }

  /** Whether the 32-bit count or length field can hold the message's
      value; `struct.pack` raises otherwise. */
  predicate Encodable(m: Message)
  {
    match m
    case Init(n) => n < TWO32
    case Agree => true
    case ReverseRequest(p) => |p| < TWO32
    case ReverseResponse(p) => |p| < TWO32
  }

  /** The number in the 4-byte field of a 6-byte header: the block count
      of an Init, the payload length of a request or response. */
  function Declared(m: Message): nat
  {
    match m
    case Init(n) => n
    case Agree => 0
    case ReverseRequest(p) => |p|
    case ReverseResponse(p) => |p|
  }

  /** The bytes a message puts on the stream: its header, then for a
      request or response exactly as many payload bytes as the header
      declares. */
  function Encode(m: Message): (b: seq<byte>)
    requires Encodable(m)
    ensures m.Agree? ==> b == [0, AGREE]
    ensures !m.Agree? ==> |b| >= 6 && UnpackHI(b[..6]) == (Code(KindOf(m)), Declared(m))
    ensures m.Init? ==> |b| == 6
    ensures m.ReverseRequest? || m.ReverseResponse? ==> b[6..] == m.payload
  {
    match m
    case Init(n) =>
      HIRoundTrip(INIT, n);
      PackHI(INIT, n)
    case Agree => PackU16(AGREE)
    case ReverseRequest(p) =>
      HIRoundTrip(REQUEST, |p|);
      assert (PackHI(REQUEST, |p|) + p)[..6] == PackHI(REQUEST, |p|);
      PackHI(REQUEST, |p|) + p
    case ReverseResponse(p) =>
      HIRoundTrip(RESPONSE, |p|);
      assert (PackHI(RESPONSE, |p|) + p)[..6] == PackHI(RESPONSE, |p|);
      PackHI(RESPONSE, |p|) + p
  }

  /** Why a message could not be read: the stream ended early, or the type
      code is not the one the receiver's state requires. */
  datatype DecodeError = Truncated | WrongType(got: nat)

  /** Reads the message of kind `k` from the front of stream `s`, the way
      both programs do: read the fixed-size header, check the type code,
      then read exactly the declared number of payload bytes. Returns the
      message and the rest of the stream. */
  function Decode(k: Kind, s: seq<byte>): (r: Result<(Message, seq<byte>), DecodeError>)
    ensures r.Ok? ==> KindOf(r.value.0) == k && Encodable(r.value.0)
    ensures r.Ok? ==> Encode(r.value.0) + r.value.1 == s
  {
    if k == AgreeKind then
      match Take(s, 2)
      case Err(_) => Err(Truncated)
      case Ok((header, rest)) =>
        var t := UnpackU16(header);
        if t != AGREE then Err(WrongType(t))
        else
          U16Canonical(header);
          Ok((Agree, rest))
    else
      match Take(s, 6)
      case Err(_) => Err(Truncated)
      case Ok((header, rest)) =>
        var (t, v) := UnpackHI(header);
        HICanonical(header);
        if t != Code(k) then Err(WrongType(t))
        else if k == InitKind then Ok((Init(v), rest))
        else
          match Take(rest, v)
          case Err(_) => Err(Truncated)
          case Ok((payload, rest')) =>
            var m := if k == RequestKind then ReverseRequest(payload) else ReverseResponse(payload);
            assert header + payload + rest' == s;
            Ok((m, rest'))
  }

  /** Decoding a message that was encoded in front of the rest of the stream
      gives back that message and that rest: headers and payloads are never
      split or merged across message boundaries. */
  lemma DecodeEncode(m: Message, rest: seq<byte>)
    requires Encodable(m)
    ensures Decode(KindOf(m), Encode(m) + rest) == Ok((m, rest))
  {
    match m
    case Init(n) =>
      TakeFront(PackHI(INIT, n), rest);
      HIRoundTrip(INIT, n);
    case Agree =>
      TakeFront(PackU16(AGREE), rest);
      U16RoundTrip(AGREE);
    case ReverseRequest(p) =>
      assert Encode(m) + rest == PackHI(REQUEST, |p|) + (p + rest);
      TakeFront(PackHI(REQUEST, |p|), p + rest);
      HIRoundTrip(REQUEST, |p|);
      TakeFront(p, rest);
    case ReverseResponse(p) =>
      assert Encode(m) + rest == PackHI(RESPONSE, |p|) + (p + rest);
      TakeFront(PackHI(RESPONSE, |p|), p + rest);
      HIRoundTrip(RESPONSE, |p|);
      TakeFront(p, rest);
  }

  /** A header carrying a type code other than the expected one is rejected
      before any payload is read, whatever follows it. */
  lemma DecodeWrongType(k: Kind, t: nat, v: nat, rest: seq<byte>)
    requires k != AgreeKind && t < TWO16 && v < TWO32 && t != Code(k)
    ensures Decode(k, PackHI(t, v) + rest) == Err(WrongType(t))
  {
    TakeFront(PackHI(t, v), rest);
    HIRoundTrip(t, v);
  }

  /** An Agree header carrying another type code is rejected. */
  lemma DecodeWrongAgree(t: nat, rest: seq<byte>)
    requires t < TWO16 && t != AGREE
    ensures Decode(AgreeKind, PackU16(t) + rest) == Err(WrongType(t))
  {
    TakeFront(PackU16(t), rest);
    U16RoundTrip(t);
  }

  /** The bytes of a run of messages sent one after another. */
  function EncodeAll(ms: seq<Message>): seq<byte>
    requires forall i :: 0 <= i < |ms| ==> Encodable(ms[i])
  {
    if |ms| == 0 then [] else Encode(ms[0]) + EncodeAll(ms[1..])
  }
}
