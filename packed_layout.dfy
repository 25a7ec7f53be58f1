/** A packed struct (C `__attribute__((packed))`, Python struct with no alignment): a
    sequence of fixed-width integer fields laid out back to back with no padding, each
    stored little-endian, signed fields in two's complement. */
module PackedLayout {
  import opened Bytes

  /** A field is at least one byte wide. */
  type Width = w: nat | w > 0 witness 1

  /** One integer field: its width in bytes and whether it is two's-complement signed. */
  datatype Scalar = Scalar(width: Width, signed: bool)

  type Layout = seq<Scalar>

  /** 2^(8w - 1): the magnitude bound of a w-byte two's-complement value. */
  function SignBound(w: Width): (h: nat)
    ensures Pow256(w) == 2 * h
  {
    128 * Pow256(w - 1)
  }

  predicate InRange(t: Scalar, v: int)
  {
    if t.signed then 0 - SignBound(t.width) <= v < SignBound(t.width)
    else 0 <= v < Pow256(t.width)
  }

  /** The number of bytes the packed struct occupies: the sum of its field widths. */
  function Size(l: Layout): nat
  {
    if l == [] then 0 else l[0].width + Size(l[1..])
  }

  /** The byte offset of field i: everything before it, with no padding. */
  function Offset(l: Layout, i: nat): nat
    requires i <= |l|
  {
    Size(l[..i])
  }

  /** The two's-complement bit pattern of v, as an unsigned number. */
  function Bits(t: Scalar, v: int): (raw: nat)
    requires InRange(t, v)
    ensures raw < Pow256(t.width)
  {
    if v < 0 then v + Pow256(t.width) else v
  }

  /** The value a bit pattern stands for. */
  function FromBits(t: Scalar, raw: nat): (v: int)
    requires raw < Pow256(t.width)
    ensures InRange(t, v)
  {
    if t.signed && raw >= SignBound(t.width) then raw - Pow256(t.width) else raw
  }

  lemma FromBitsOfBits(t: Scalar, v: int)
    requires InRange(t, v)
    ensures FromBits(t, Bits(t, v)) == v
  {
  }

  lemma BitsOfFromBits(t: Scalar, raw: nat)
    requires raw < Pow256(t.width)
    ensures Bits(t, FromBits(t, raw)) == raw
  {
  }

  function EncodeScalar(t: Scalar, v: int): (bs: seq<byte>)
    requires InRange(t, v)
    ensures |bs| == t.width
  {
    LittleEndian(Bits(t, v), t.width)
  }

  function DecodeScalar(t: Scalar, bs: seq<byte>): (v: int)
    requires |bs| == t.width
    ensures InRange(t, v)
  {
    FromBits(t, FromLittleEndian(bs))
  }

  lemma DecodeScalarOfEncodeScalar(t: Scalar, v: int)
    requires InRange(t, v)
    ensures DecodeScalar(t, EncodeScalar(t, v)) == v
  {
    FromLittleEndianOfLittleEndian(Bits(t, v), t.width);
  }

  lemma EncodeScalarOfDecodeScalar(t: Scalar, bs: seq<byte>)
    requires |bs| == t.width
    ensures EncodeScalar(t, DecodeScalar(t, bs)) == bs
  {
    LittleEndianOfFromLittleEndian(bs);
  }

  /** The values fit the fields they are stored in, one value per field. */
  predicate Fits(l: Layout, vals: seq<int>)
  {
    |vals| == |l| && forall i :: 0 <= i < |l| ==> InRange(l[i], vals[i])
  }

  /** The in-memory bytes of a packed struct holding vals. */
  function Pack(l: Layout, vals: seq<int>): (bs: seq<byte>)
    requires Fits(l, vals)
    ensures |bs| == Size(l)
  {
    if l == [] then [] else EncodeScalar(l[0], vals[0]) + Pack(l[1..], vals[1..])
  }

  /** The field values a packed struct's bytes hold. */
  function Unpack(l: Layout, bs: seq<byte>): (vals: seq<int>)
    requires |bs| == Size(l)
    ensures Fits(l, vals)
  {
    if l == [] then []
    else
      var rest := Unpack(l[1..], bs[l[0].width..]);
      assert forall i :: 1 <= i < |l| ==> l[i] == l[1..][i - 1];
      [DecodeScalar(l[0], bs[..l[0].width])] + rest
  }

  /** The fields after the first hold the values after the first. */
  lemma FitsTail(l: Layout, vals: seq<int>)
    requires Fits(l, vals) && l != []
    ensures Fits(l[1..], vals[1..])
  {
    forall j | 0 <= j < |l[1..]| ensures InRange(l[1..][j], vals[1..][j]) {
      assert l[1..][j] == l[j + 1] && vals[1..][j] == vals[j + 1];
    }
  }

  lemma {:induction false} UnpackOfPack(l: Layout, vals: seq<int>)
    requires Fits(l, vals)
    ensures Unpack(l, Pack(l, vals)) == vals
  {
    if l != [] {
      var bs := Pack(l, vals);
      FitsTail(l, vals);
      assert bs[..l[0].width] == EncodeScalar(l[0], vals[0]);
      assert bs[l[0].width..] == Pack(l[1..], vals[1..]);
      DecodeScalarOfEncodeScalar(l[0], vals[0]);
      UnpackOfPack(l[1..], vals[1..]);
    }
  }

  lemma {:induction false} PackOfUnpack(l: Layout, bs: seq<byte>)
    requires |bs| == Size(l)
    ensures Pack(l, Unpack(l, bs)) == bs
  {
    if l != [] {
      var vals := Unpack(l, bs);
      var w := l[0].width;
      var head := DecodeScalar(l[0], bs[..w]);
      var rest := Unpack(l[1..], bs[w..]);
      assert vals == [head] + rest;
      assert vals[0] == head && vals[1..] == rest;
      FitsTail(l, vals);
      assert Pack(l, vals) == EncodeScalar(l[0], head) + Pack(l[1..], rest);
      EncodeScalarOfDecodeScalar(l[0], bs[..w]);
      PackOfUnpack(l[1..], bs[w..]);
      assert bs == bs[..w] + bs[w..];
    }
  }

  lemma {:induction false} OffsetStep(l: Layout, i: nat)
    requires 0 < i <= |l|
    ensures Offset(l, i) == l[0].width + Offset(l[1..], i - 1)
  {
    assert l[..i][1..] == l[1..][..i - 1];
  }

  /** Field i is a contiguous run of bytes, inside the struct. */
  lemma {:induction false} FieldInside(l: Layout, i: nat)
    requires i < |l|
    ensures Offset(l, i) + l[i].width <= Size(l)
  {
    if i == 0 {
      assert l[..0] == [];
    } else {
      OffsetStep(l, i);
      FieldInside(l[1..], i - 1);
    }
  }

  /** A slice past the first part of a concatenation is a slice of the second part. */
  lemma SliceOfConcat(a: seq<byte>, b: seq<byte>, o: nat, n: nat)
    requires o + n <= |b|
    ensures (a + b)[|a| + o..|a| + o + n] == b[o..o + n]
  {
  }

  /** The first field's encoding opens the packed bytes. */
  lemma PackFirstField(l: Layout, vals: seq<int>)
    requires Fits(l, vals) && l != []
    ensures Offset(l, 0) == 0 && l[0].width <= Size(l)
    ensures Pack(l, vals)[..l[0].width] == EncodeScalar(l[0], vals[0])
  {
    assert l[..0] == [];
    FitsTail(l, vals);
    var head := EncodeScalar(l[0], vals[0]);
    var rest := Pack(l[1..], vals[1..]);
    assert Pack(l, vals) == head + rest;
    assert (head + rest)[..|head|] == head;
  }

  /** Packing puts field i's encoding at Offset(l, i), and nowhere else. */
  lemma {:induction false} PackFieldAt(l: Layout, vals: seq<int>, i: nat)
    requires Fits(l, vals) && i < |l|
    ensures Offset(l, i) + l[i].width <= Size(l)
    ensures Pack(l, vals)[Offset(l, i)..Offset(l, i) + l[i].width] == EncodeScalar(l[i], vals[i])
  {
    if i == 0 {
      PackFirstField(l, vals);
    } else {
      FieldInside(l, i);
      FitsTail(l, vals);
      var head := EncodeScalar(l[0], vals[0]);
      var rest := Pack(l[1..], vals[1..]);
      assert Pack(l, vals) == head + rest;
      OffsetStep(l, i);
      PackFieldAt(l[1..], vals[1..], i - 1);
      assert l[1..][i - 1] == l[i] && vals[1..][i - 1] == vals[i];
      var o := Offset(l[1..], i - 1);
      var fw := l[i].width;
      assert rest[o..o + fw] == EncodeScalar(l[i], vals[i]);
      SliceOfConcat(head, rest, o, fw);
      assert Offset(l, i) == |head| + o;
    }
  }

  /** Unpacking reads field i from exactly the bytes at Offset(l, i). */
  lemma UnpackFieldAt(l: Layout, bs: seq<byte>, i: nat)
    requires |bs| == Size(l) && i < |l|
    ensures Offset(l, i) + l[i].width <= Size(l)
    ensures Unpack(l, bs)[i] == DecodeScalar(l[i], bs[Offset(l, i)..Offset(l, i) + l[i].width])
  {
    var vals := Unpack(l, bs);
    PackOfUnpack(l, bs);
    PackFieldAt(l, vals, i);
    DecodeScalarOfEncodeScalar(l[i], vals[i]);
  }
}
