/**
 * The wire grammar every handshake structure is built from: big-endian
 * unsigned integers, fixed-size byte strings, length-prefixed opaque vectors
 * and length-prefixed lists of records (the presentation language of section
 * 4 of RFC 5246).
 *
 * A reader takes the bytes at hand and returns the value it read together with
 * the bytes after it (so the number of bytes consumed is the difference in
 * length). A writer is the exact inverse; `Codec` packages the two, and
 * `Sound` states that they are inverse in both directions.
 */
module Wire {
  import opened Wrappers

  type Byte = b: int | 0 <= b < 256

  /** Why bytes were refused. */
  datatype ParseError =
    | Malformed                         // a length runs past the bytes available, or a list is not filled exactly
    | UnknownEnumValue(value: Byte)     // a byte that is not a value of the enumeration read
    | UnknownHandshakeType(value: Byte) // a message type outside the defined set

  /** A value read, and the bytes after it. */
  type Parsed<T> = Result<(T, seq<Byte>), ParseError>

  function Pow256(n: nat): (r: nat)
    ensures r >= 1
  {
    if n == 0 then 1 else 256 * Pow256(n - 1)
  }

  /** Two fields read one after the other: `a` then `b` take the front of `s`, leaving `rest`. */
  lemma Consecutive(s: seq<Byte>, a: seq<Byte>, s1: seq<Byte>, b: seq<Byte>, rest: seq<Byte>)
    requires s == a + s1 && s1 == b + rest
    ensures s == a + b + rest
  {
  }

  // ---------------------------------------------------------------------------
  // Unsigned integers

  /** The big-endian unsigned value of `s`. */
  function DecodeUint(s: seq<Byte>): (r: nat)
    ensures r < Pow256(|s|)
  {
    if s == [] then 0
    else
      var d := DecodeUint(s[..|s| - 1]);
      assert d * 256 <= (Pow256(|s| - 1) - 1) * 256;
      d * 256 + s[|s| - 1]
  }

  /** `x` as `width` big-endian bytes (the low `width` bytes when `x` is too wide). */
  function EncodeUint(x: nat, width: nat): (r: seq<Byte>)
    ensures |r| == width
  {
    if width == 0 then [] else EncodeUint(x / 256, width - 1) + [x % 256]
  }

  lemma {:induction false} DecodeEncodeUint(x: nat, width: nat)
    requires x < Pow256(width)
    ensures DecodeUint(EncodeUint(x, width)) == x
  {
    if width > 0 {
      var e := EncodeUint(x, width);
      assert e[..width - 1] == EncodeUint(x / 256, width - 1);
      assert x / 256 < Pow256(width - 1);
      DecodeEncodeUint(x / 256, width - 1);
    }
  }

  lemma {:induction false} EncodeDecodeUint(s: seq<Byte>)
    ensures EncodeUint(DecodeUint(s), |s|) == s
  {
    if s != [] {
      var p := s[..|s| - 1];
      var d := DecodeUint(s);
      assert d == DecodeUint(p) * 256 + s[|s| - 1];
      assert d / 256 == DecodeUint(p) && d % 256 == s[|s| - 1];
      EncodeDecodeUint(p);
      assert s == p + [s[|s| - 1]];
    }
  }

  /** A `width`-byte big-endian unsigned integer; fails only when fewer bytes remain. */
  function ReadUint(s: seq<Byte>, width: nat): (r: Parsed<nat>)
    ensures r.Failure? <==> |s| < width
    ensures r.Failure? ==> r.error == Malformed
    ensures r.Success? ==> r.value.0 < Pow256(width) && s == EncodeUint(r.value.0, width) + r.value.1
  {
    if |s| < width then Failure(Malformed)
    else
      EncodeDecodeUint(s[..width]);
      assert s == s[..width] + s[width..];
      Success((DecodeUint(s[..width]), s[width..]))
  }

  lemma ReadUintWritten(x: nat, width: nat, rest: seq<Byte>)
    requires x < Pow256(width)
    ensures ReadUint(EncodeUint(x, width) + rest, width) == Success((x, rest))
  {
    var s := EncodeUint(x, width) + rest;
    assert s[..width] == EncodeUint(x, width) && s[width..] == rest;
    DecodeEncodeUint(x, width);
  }

  // ---------------------------------------------------------------------------
  // Fixed-size byte strings and opaque vectors

  /** Exactly `n` raw bytes. */
  function ReadFixed(s: seq<Byte>, n: nat): (r: Parsed<seq<Byte>>)
    ensures r.Success? <==> n <= |s|
    ensures r.Failure? ==> r.error == Malformed
    ensures r.Success? ==> |r.value.0| == n && s == r.value.0 + r.value.1
  {
    if |s| < n then Failure(Malformed)
    else
      assert s == s[..n] + s[n..];
      Success((s[..n], s[n..]))
  }

  lemma ReadFixedWritten(data: seq<Byte>, rest: seq<Byte>)
    ensures ReadFixed(data + rest, |data|) == Success((data, rest))
  {
    assert (data + rest)[..|data|] == data && (data + rest)[|data|..] == rest;
  }

  /** An opaque vector: its length as a `width`-byte integer, then that many bytes. */
  function WriteOpaque(data: seq<Byte>, width: nat): seq<Byte>
  {
    EncodeUint(|data|, width) + data
  }

  function ReadOpaque(s: seq<Byte>, width: nat): (r: Parsed<seq<Byte>>)
    ensures r.Failure? ==> r.error == Malformed
    ensures r.Success? ==> |r.value.0| < Pow256(width) && s == WriteOpaque(r.value.0, width) + r.value.1
  {
    var n :- ReadUint(s, width);
    if |n.1| < n.0 then Failure(Malformed)
    else
      assert n.1 == n.1[..n.0] + n.1[n.0..];
      Success((n.1[..n.0], n.1[n.0..]))
  }

  lemma ReadOpaqueWritten(data: seq<Byte>, width: nat, rest: seq<Byte>)
    requires |data| < Pow256(width)
    ensures ReadOpaque(WriteOpaque(data, width) + rest, width) == Success((data, rest))
  {
    ReadUintWritten(|data|, width, data + rest);
    assert WriteOpaque(data, width) + rest == EncodeUint(|data|, width) + (data + rest);
    assert (data + rest)[..|data|] == data && (data + rest)[|data|..] == rest;
  }

  // ---------------------------------------------------------------------------
  // Codecs: a reader, its writer, and the values the writer accepts

  datatype Codec<!T> = Codec(read: seq<Byte> -> Parsed<T>, write: T -> seq<Byte>, valid: T -> bool)

  /** A successful read consumes at least one byte. */
  ghost predicate Progressing<T(!new)>(c: Codec<T>)
  {
    forall s :: c.read(s).Success? ==> |c.read(s).value.1| < |s|
  }

  /** Reading what was written gives back the value and leaves what followed it. */
  ghost predicate ReadsWhatItWrites<T(!new)>(c: Codec<T>)
  {
    forall x, rest :: c.valid(x) ==> c.read(c.write(x) + rest) == Success((x, rest))
  }

  /** Whatever is read successfully is a valid value whose encoding is exactly the bytes consumed. */
  ghost predicate WritesWhatItReads<T(!new)>(c: Codec<T>)
  {
    forall s :: c.read(s).Success? ==>
      c.valid(c.read(s).value.0) && s == c.write(c.read(s).value.0) + c.read(s).value.1
  }

  ghost predicate Sound<T(!new)>(c: Codec<T>)
  {
    Progressing(c) && ReadsWhatItWrites(c) && WritesWhatItReads(c)
  }

  /** A readable prefix stays readable, with the same value, whatever bytes follow it. */
  lemma ReadExtends<T(!new)>(c: Codec<T>, s: seq<Byte>, more: seq<Byte>)
    requires Sound(c)
    ensures c.read(s).Success? ==> c.read(s + more) == Success((c.read(s).value.0, c.read(s).value.1 + more))
  {
    if c.read(s).Success? {
      var v := c.read(s).value;
      assert s + more == c.write(v.0) + (v.1 + more);
    }
  }

  /** Removing trailing bytes from a valid encoding always makes it unreadable. */
  lemma TruncatedEncodingRejected<T(!new)>(c: Codec<T>, x: T, k: nat)
    requires Sound(c) && c.valid(x) && k < |c.write(x)|
    ensures c.read(c.write(x)[..k]).Failure?
  {
    var w := c.write(x);
    assert c.read(w + []) == Success((x, []));
    assert w + [] == w && w[..k] + w[k..] == w;
    ReadExtends(c, w[..k], w[k..]);
  }

  function UintCodec(width: nat): Codec<nat>
  {
    Codec(s => ReadUint(s, width), x => EncodeUint(x, width), x => x < Pow256(width))
  }

  lemma UintCodecSound(width: nat)
    requires width > 0
    ensures Sound(UintCodec(width))
  {
    var c := UintCodec(width);
    forall x: nat, rest: seq<Byte> | c.valid(x) ensures c.read(c.write(x) + rest) == Success((x, rest)) {
      ReadUintWritten(x, width, rest);
    }
  }

  function OpaqueCodec(width: nat): Codec<seq<Byte>>
  {
    Codec(s => ReadOpaque(s, width), d => WriteOpaque(d, width), d => |d| < Pow256(width))
  }

  lemma OpaqueCodecSound(width: nat)
    requires width > 0
    ensures Sound(OpaqueCodec(width))
  {
    var c := OpaqueCodec(width);
    forall x, rest | c.valid(x) ensures c.read(c.write(x) + rest) == Success((x, rest)) {
      ReadOpaqueWritten(x, width, rest);
    }
  }

  /** A codec is sound once its writer never writes nothing and its reader and writer are inverse. */
  lemma SoundByParts<T(!new)>(c: Codec<T>)
    requires forall x :: c.valid(x) ==> |c.write(x)| > 0
    requires ReadsWhatItWrites(c) && WritesWhatItReads(c)
    ensures Sound(c)
  {
    forall s | c.read(s).Success? ensures |c.read(s).value.1| < |s| {
      assert |c.write(c.read(s).value.0)| > 0;
    }
  }

  // ---------------------------------------------------------------------------
  // One-byte enumerations

  /** `decode` recognises exactly the codes `code` gives, and gives back the value coded. */
  ghost predicate Inverse<T(!new)>(code: T -> Byte, decode: Byte -> Result<T, ParseError>)
  {
    && (forall x :: decode(code(x)) == Success(x))
    && (forall b :: decode(b).Success? ==> code(decode(b).value) == b)
  }

  /** One byte, decoded as a value of an enumeration; an unrecognised byte is the decoder's error. */
  function ReadEnum<T>(s: seq<Byte>, decode: Byte -> Result<T, ParseError>): (r: Parsed<T>)
    ensures |s| == 0 ==> r == Failure(Malformed)
    ensures |s| > 0 ==> r == (if decode(s[0]).Success? then Success((decode(s[0]).value, s[1..])) else Failure(decode(s[0]).error))
  {
    if |s| == 0 then Failure(Malformed)
    else
      var x :- decode(s[0]);
      Success((x, s[1..]))
  }

  function EnumCodec<T>(code: T -> Byte, decode: Byte -> Result<T, ParseError>): Codec<T>
  {
    Codec(s => ReadEnum(s, decode), x => [code(x)], x => true)
  }

  lemma EnumCodecSound<T(!new)>(code: T -> Byte, decode: Byte -> Result<T, ParseError>)
    requires Inverse(code, decode)
    ensures Sound(EnumCodec(code, decode))
  {
    var c := EnumCodec(code, decode);
    forall x, rest | c.valid(x) ensures c.read(c.write(x) + rest) == Success((x, rest)) {
      assert ([code(x)] + rest)[1..] == rest;
    }
    forall s | c.read(s).Success? ensures c.valid(c.read(s).value.0) && s == c.write(c.read(s).value.0) + c.read(s).value.1 {
      assert s == [s[0]] + s[1..];
    }
    SoundByParts(c);
  }

  // ---------------------------------------------------------------------------
  // Lists of records

  /** Records packed back to back, filling `s` exactly. */
  function ReadItems<T(!new)>(s: seq<Byte>, c: Codec<T>): (r: Result<seq<T>, ParseError>)
    requires Progressing(c)
    decreases |s|
  {
    if s == [] then Success([])
    else
      var first :- c.read(s);
      var others :- ReadItems(first.1, c);
      Success([first.0] + others)
  }

  function WriteItems<T(!new)>(xs: seq<T>, c: Codec<T>): seq<Byte>
  {
    if xs == [] then [] else c.write(xs[0]) + WriteItems(xs[1..], c)
  }

  lemma {:induction false} ReadItemsWritten<T(!new)>(xs: seq<T>, c: Codec<T>)
    requires Sound(c)
    requires forall k :: 0 <= k < |xs| ==> c.valid(xs[k])
    ensures ReadItems(WriteItems(xs, c), c) == Success(xs)
  {
    if xs != [] {
      var tail := WriteItems(xs[1..], c);
      assert WriteItems(xs, c) == c.write(xs[0]) + tail;
      assert c.read(c.write(xs[0]) + tail) == Success((xs[0], tail));
      ReadItemsWritten(xs[1..], c);
      assert [xs[0]] + xs[1..] == xs;
    }
  }

  lemma {:induction false} WriteItemsRead<T(!new)>(s: seq<Byte>, c: Codec<T>)
    requires Sound(c)
    requires ReadItems(s, c).Success?
    ensures forall k :: 0 <= k < |ReadItems(s, c).value| ==> c.valid(ReadItems(s, c).value[k])
    ensures WriteItems(ReadItems(s, c).value, c) == s
    decreases |s|
  {
    if s != [] {
      var first := c.read(s).value;
      WriteItemsRead(first.1, c);
      var xs := ReadItems(s, c).value;
      assert xs == [first.0] + ReadItems(first.1, c).value;
      assert xs[1..] == ReadItems(first.1, c).value;
    }
  }

  /** A list vector: the byte length of its records as a `width`-byte integer, then the records. */
  function WriteList<T(!new)>(xs: seq<T>, width: nat, c: Codec<T>): seq<Byte>
  {
    EncodeUint(|WriteItems(xs, c)|, width) + WriteItems(xs, c)
  }

  predicate ValidList<T(!new)>(xs: seq<T>, width: nat, c: Codec<T>)
  {
    (forall k :: 0 <= k < |xs| ==> c.valid(xs[k])) && |WriteItems(xs, c)| < Pow256(width)
  }

  function ReadList<T(!new)>(s: seq<Byte>, width: nat, c: Codec<T>): (r: Parsed<seq<T>>)
    requires Progressing(c)
  {
    var n :- ReadUint(s, width);
    if |n.1| < n.0 then Failure(Malformed)
    else
      var items :- ReadItems(n.1[..n.0], c);
      Success((items, n.1[n.0..]))
  }

  function ListCodec<T(!new)>(width: nat, c: Codec<T>): Codec<seq<T>>
    requires Progressing(c)
  {
    Codec(s => ReadList(s, width, c), xs => WriteList(xs, width, c), xs => ValidList(xs, width, c))
  }

  lemma ReadListWritten<T(!new)>(xs: seq<T>, width: nat, c: Codec<T>, rest: seq<Byte>)
    requires Sound(c) && ValidList(xs, width, c)
    ensures ReadList(WriteList(xs, width, c) + rest, width, c) == Success((xs, rest))
  {
    var items := WriteItems(xs, c);
    ReadUintWritten(|items|, width, items + rest);
    assert WriteList(xs, width, c) + rest == EncodeUint(|items|, width) + (items + rest);
    assert (items + rest)[..|items|] == items && (items + rest)[|items|..] == rest;
    ReadItemsWritten(xs, c);
  }

  lemma WriteListRead<T(!new)>(s: seq<Byte>, width: nat, c: Codec<T>)
    requires Sound(c) && ReadList(s, width, c).Success?
    ensures ValidList(ReadList(s, width, c).value.0, width, c)
    ensures s == WriteList(ReadList(s, width, c).value.0, width, c) + ReadList(s, width, c).value.1
  {
    var n := ReadUint(s, width).value;
    WriteItemsRead(n.1[..n.0], c);
    assert n.1 == n.1[..n.0] + n.1[n.0..];
  }

  lemma ListCodecSound<T(!new)>(width: nat, c: Codec<T>)
    requires width > 0 && Sound(c)
    ensures Sound(ListCodec(width, c))
  {
    var l := ListCodec(width, c);
    forall xs, rest | l.valid(xs) ensures l.read(l.write(xs) + rest) == Success((xs, rest)) {
      ReadListWritten(xs, width, c, rest);
    }
    forall s | l.read(s).Success?
      ensures l.valid(l.read(s).value.0) && s == l.write(l.read(s).value.0) + l.read(s).value.1
    {
      WriteListRead(s, width, c);
    }
  }
}
