/** Fixed-width big-endian byte encodings: Rust's `to_be_bytes` and
    `from_be_bytes` for unsigned words and for two's-complement signed
    integers, and the packed arrays the record constructors build from them. */
module Endian {

  datatype Option<T> = None | Some(value: T)

  /** A `u8`. */
  newtype byte = b: int | 0 <= b < 256

  /** 256^n, the number of distinct values of an n-byte word. */
  function Pow256(n: nat): (r: nat)
    ensures r >= 1
  {
    if n == 0 then 1 else 256 * Pow256(n - 1)
  }

  /** The unsigned value of `s` read most significant byte first. */
  function FromBE(s: seq<byte>): (n: nat)
    ensures n < Pow256(|s|)
  {
    if s == [] then 0 else FromBE(s[..|s| - 1]) * 256 + s[|s| - 1] as int
  }

  /** The `width`-byte big-endian representation of `n`. */
  function ToBE(n: nat, width: nat): (s: seq<byte>)
    requires n < Pow256(width)
    ensures |s| == width
    ensures FromBE(s) == n
  {
    if width == 0 then []
    else
      var s := ToBE(n / 256, width - 1) + [(n % 256) as byte];
      assert s[..|s| - 1] == ToBE(n / 256, width - 1);
      s
  }

  /** Every byte string is the representation of its own value: reading and
      writing big-endian words are inverse bijections. */
  lemma {:induction false} ToBEFromBE(s: seq<byte>)
    ensures ToBE(FromBE(s), |s|) == s
  {
    if s != [] {
      var p := s[..|s| - 1];
      ToBEFromBE(p);
      assert FromBE(s) / 256 == FromBE(p);
      assert FromBE(s) % 256 == s[|s| - 1] as int;
      assert s == p + [s[|s| - 1]];
    }
  }

  /** Two byte strings of one width with one value are the same string. */
  lemma FromBEInjective(a: seq<byte>, b: seq<byte>)
    requires |a| == |b| && FromBE(a) == FromBE(b)
    ensures a == b
  {
    ToBEFromBE(a);
    ToBEFromBE(b);
  }

  /** The value of a word is its leading byte weighted by 256^(width-1) plus
      the value of the remaining bytes. */
  lemma {:induction false} FromBEHead(s: seq<byte>)
    requires s != []
    ensures FromBE(s) == s[0] as int * Pow256(|s| - 1) + FromBE(s[1..])
  {
    if |s| == 1 {
      assert s[..0] == [] && s[1..] == [];
    } else {
      var p := s[..|s| - 1];
      var t := s[1..];
      FromBEHead(p);
      assert p[1..] == t[..|t| - 1];
      assert t[|t| - 1] == s[|s| - 1];
      ShiftByte(s[0] as int, Pow256(|s| - 2), FromBE(p[1..]), s[|s| - 1] as int);
    }
  }

  /** Shifting a word one byte left multiplies its leading weight by 256. */
  lemma ShiftByte(a: int, b: int, c: int, last: int)
    ensures (a * b + c) * 256 + last == a * (256 * b) + (c * 256 + last)
  {
  }

  /** Half the range of an n-byte word: the sign bit's weight. */
  function Half(w: nat): (h: int)
    requires w >= 1
  {
    128 * Pow256(w - 1)
  }

  /** `v` is representable as a `w`-byte two's-complement integer. */
  predicate Fits(v: int, w: nat)
  {
    w >= 1 && -Half(w) <= v < Half(w)
  }

  /** The signed value of a two's-complement word read big-endian
      (`from_be_bytes` of `i32` or `i64`). */
  function DecodeInt(s: seq<byte>): (v: int)
    requires |s| >= 1
    ensures Fits(v, |s|)
  {
    var u := FromBE(s);
    if u >= Half(|s|) then u - Pow256(|s|) else u
  }

  /** The `w`-byte big-endian two's-complement encoding of `v` (`to_be_bytes`
      of `i32` or `i64`): the bytes of `v` reduced modulo 256^w. */
  function EncodeInt(v: int, w: nat): (s: seq<byte>)
    ensures |s| == w
    ensures Fits(v, w) ==> DecodeInt(s) == v
  {
    if Fits(v, w) then ModularDecode(v, w); ToBE(v % Pow256(w), w)
    else ToBE(v % Pow256(w), w)
  }

  /** Reducing a representable `v` modulo 256^w and reading the result as
      two's complement gives `v` back. */
  lemma ModularDecode(v: int, w: nat)
    requires Fits(v, w)
    ensures DecodeInt(ToBE(v % Pow256(w), w)) == v
  {
    var p, h := Pow256(w), Half(w);
    assert p == 2 * h;
    var u := v % p;
    if v >= 0 {
      ModSmall(v, p);
    } else {
      ModWrap(v, p);
    }
    var s := ToBE(u, w);
    assert FromBE(s) == u;
  }

  lemma ModSmall(v: int, p: int)
    requires 0 <= v < p
    ensures v % p == v
  {
  }

  lemma ModWrap(v: int, p: int)
    requires -p <= v < 0
    ensures v % p == v + p
  {
  }

  /** Every `w`-byte word is the encoding of exactly one integer. */
  lemma DecodeEncodeInt(s: seq<byte>)
    requires |s| >= 1
    ensures EncodeInt(DecodeInt(s), |s|) == s
  {
    FromBEInjective(EncodeInt(DecodeInt(s), |s|), s);
  }

  /** Multiplication by a natural number is monotonic. */
  lemma {:induction false} MulMonotone(a: nat, b: nat, p: nat)
    requires a <= b
    ensures a * p <= b * p
    decreases b - a
  {
    if a < b {
      MulMonotone(a, b - 1, p);
      assert b * p == (b - 1) * p + p;
    }
  }

  /** The leading byte's top bit is the sign bit. */
  lemma SignBit(s: seq<byte>)
    requires s != []
    ensures FromBE(s) >= Half(|s|) <==> s[0] >= 128
  {
    FromBEHead(s);
    var p := Pow256(|s| - 1);
    var rest := FromBE(s[1..]);
    assert rest < p;
    if s[0] >= 128 {
      MulMonotone(128, s[0] as nat, p);
    } else {
      MulMonotone(s[0] as nat, 127, p);
    }
  }

  /** An encoding is negative exactly when its leading byte is 0x80 or more. */
  lemma EncodeIntSign(v: int, w: nat)
    requires Fits(v, w)
    ensures v < 0 <==> EncodeInt(v, w)[0] >= 128
  {
    SignBit(EncodeInt(v, w));
  }

  lemma HalfI32()
    ensures Half(4) == 0x8000_0000 && Pow256(4) == 0x1_0000_0000
  {
  }

  lemma HalfI64()
    ensures Half(8) == 0x8000_0000_0000_0000 && Pow256(8) == 0x1_0000_0000_0000_0000
  {
  }

  /** A word of all-ones bytes holds the largest value of its width. */
  lemma {:induction false} AllOnes(s: seq<byte>)
    requires forall k :: 0 <= k < |s| ==> s[k] == 0xFF
    ensures FromBE(s) == Pow256(|s|) - 1
  {
    if s != [] {
      AllOnes(s[..|s| - 1]);
    }
  }

  /** A word of zero bytes holds 0. */
  lemma {:induction false} AllZeros(s: seq<byte>)
    requires forall k :: 0 <= k < |s| ==> s[k] == 0
    ensures FromBE(s) == 0
  {
    if s != [] {
      AllZeros(s[..|s| - 1]);
    }
  }

  /** -1 is all ones in every width used by the records. */
  lemma MinusOneIsAllOnes()
    ensures EncodeInt(-1, 4) == [0xFF, 0xFF, 0xFF, 0xFF]
    ensures EncodeInt(-1, 8) == [0xFF, 0xFF, 0xFF, 0xFF, 0xFF, 0xFF, 0xFF, 0xFF]
  {
    HalfI32();
    HalfI64();
    var s4: seq<byte> := [0xFF, 0xFF, 0xFF, 0xFF];
    var s8: seq<byte> := [0xFF, 0xFF, 0xFF, 0xFF, 0xFF, 0xFF, 0xFF, 0xFF];
    AllOnes(s4);
    AllOnes(s8);
    DecodeEncodeInt(s4);
    DecodeEncodeInt(s8);
  }

  /** The concatenation of the `w`-byte encodings of `xs`, in order. */
  function Pack(xs: seq<int>, w: nat): (s: seq<byte>)
    ensures |s| == w * |xs|
  {
    if xs == [] then []
    else
      assert w * |xs| == w + w * (|xs| - 1);
      EncodeInt(xs[0], w) + Pack(xs[1..], w)
  }

  /** Appending one element appends its encoding: the shape of a loop that
      extends a buffer element by element. */
  lemma {:induction false} PackSnoc(xs: seq<int>, x: int, w: nat)
    ensures Pack(xs + [x], w) == Pack(xs, w) + EncodeInt(x, w)
  {
    if xs != [] {
      assert (xs + [x])[1..] == xs[1..] + [x];
      PackSnoc(xs[1..], x, w);
    }
  }

  /** Packing distributes over concatenation. */
  lemma {:induction false} PackAppend(xs: seq<int>, ys: seq<int>, w: nat)
    ensures Pack(xs + ys, w) == Pack(xs, w) + Pack(ys, w)
  {
    if xs != [] {
      assert (xs + ys)[1..] == xs[1..] + ys;
      PackAppend(xs[1..], ys, w);
    } else {
      assert xs + ys == ys;
    }
  }

  /** Bytes [w*i, w*i + w) of a packed array encode element i. */
  lemma PackChunk(xs: seq<int>, w: nat, i: nat)
    requires i < |xs|
    ensures w * i + w <= |Pack(xs, w)|
    ensures Pack(xs, w)[w * i .. w * i + w] == EncodeInt(xs[i], w)
  {
    var before, after := xs[..i], xs[i + 1..];
    PackAround(before, xs[i], after, w);
    assert before + [xs[i]] + after == xs;
    var a, e, b := Pack(before, w), EncodeInt(xs[i], w), Pack(after, w);
    assert |a| == w * i;
    Middle(a, e, b);
  }

  /** The packing of an array split around one element. */
  lemma PackAround(before: seq<int>, x: int, after: seq<int>, w: nat)
    ensures Pack(before + [x] + after, w) == Pack(before, w) + EncodeInt(x, w) + Pack(after, w)
  {
    PackAppend(before + [x], after, w);
    PackSnoc(before, x, w);
  }

  /** The middle part of a three-way concatenation. */
  lemma Middle<T>(a: seq<T>, e: seq<T>, b: seq<T>)
    ensures |a| + |e| <= |a + e + b|
    ensures (a + e + b)[|a| .. |a| + |e|] == e
  {
  }

  /** Reads consecutive `w`-byte words as two's-complement integers; a
      trailing fragment shorter than `w` is ignored. */
  function Unpack(s: seq<byte>, w: nat): (xs: seq<int>)
    requires w >= 1
    ensures forall i :: 0 <= i < |xs| ==> Fits(xs[i], w)
    decreases |s|
  {
    if |s| < w then [] else [DecodeInt(s[..w])] + Unpack(s[w..], w)
  }

  /** Unpacking a packed array gives the array back. */
  lemma {:induction false} UnpackPack(xs: seq<int>, w: nat)
    requires w >= 1
    requires forall i :: 0 <= i < |xs| ==> Fits(xs[i], w)
    ensures Unpack(Pack(xs, w), w) == xs
  {
    if xs != [] {
      UnpackPack(xs[1..], w);
      var s := Pack(xs, w);
      assert s[..w] == EncodeInt(xs[0], w);
      assert s[w..] == Pack(xs[1..], w);
    }
  }

  /** Packing the words of an `n`-word byte string gives the string back. */
  lemma {:induction false} PackUnpack(s: seq<byte>, w: nat, n: nat)
    requires w >= 1 && |s| == w * n
    ensures Pack(Unpack(s, w), w) == s
  {
    if n > 0 {
      assert |s| == w + w * (n - 1);
      PackUnpack(s[w..], w, n - 1);
      DecodeEncodeInt(s[..w]);
      assert s == s[..w] + s[w..];
    } else {
      assert |s| == 0;
    }
  }
}
