/** Little-endian packing of records: each field of a format takes a fixed number of bytes. */
module Bytes {

  type byte = x: int | 0 <= x < 256

  function Pow256(w: nat): (p: nat)
    ensures p >= 1
  {
    if w == 0 then 1 else 256 * Pow256(w - 1)
  }

  /** The `w` low bytes of `v`, least significant first. */
  function ToLE(v: nat, w: nat): (bs: seq<byte>)
    ensures |bs| == w
  {
    if w == 0 then [] else [v % 256] + ToLE(v / 256, w - 1)
  }

  function FromLE(bs: seq<byte>): nat {
    if bs == [] then 0 else bs[0] + 256 * FromLE(bs[1..])
  }

  /** The i-th byte is the i-th digit in base 256. */
  lemma {:induction false} ByteIsDigit(v: nat, w: nat, i: nat)
    requires i < w
    ensures ToLE(v, w)[i] == (v / Pow256(i)) % 256
  {
    if i > 0 {
      ByteIsDigit(v / 256, w - 1, i - 1);
      DivideTwice(v, Pow256(i - 1));
    }
  }

  lemma {:induction false} DivideTwice(v: nat, p: nat)
    requires p > 0
    ensures v / 256 / p == v / (256 * p)
  {
    var q, r := v / 256 / p, (v / 256) % p;
    assert v / 256 == p * q + r;
    assert v == 256 * (p * q + r) + v % 256;
    assert 256 * (p * q) == (256 * p) * q;
    QuotientUnique(v, 256 * p, q, 256 * r + v % 256);
  }

  lemma {:induction false} QuotientUnique(v: nat, d: nat, q: nat, r: nat)
    requires d > 0 && v == d * q + r && r < d
    ensures v / d == q
  {
    var k := v / d - q;
    assert d * k == r - v % d;
  }

  lemma {:induction false} FromToLE(v: nat, w: nat)
    requires v < Pow256(w)
    ensures FromLE(ToLE(v, w)) == v
  {
    if w > 0 {
      FromToLE(v / 256, w - 1);
      assert ToLE(v, w)[1..] == ToLE(v / 256, w - 1);
    }
  }

  lemma {:induction false} DivideByte(b: byte, v: nat)
    ensures (b + 256 * v) % 256 == b && (b + 256 * v) / 256 == v
  {
  }

  lemma {:induction false} ToFromLE(bs: seq<byte>)
    ensures FromLE(bs) < Pow256(|bs|)
    ensures ToLE(FromLE(bs), |bs|) == bs
  {
    if bs != [] {
      ToFromLE(bs[1..]);
      DivideByte(bs[0], FromLE(bs[1..]));
      assert bs == [bs[0]] + bs[1..];
    }
  }

  /** Unsigned and two's-complement integers, and raw characters. */
  datatype Field = Unsigned(width: nat) | Signed(width: nat) | Chars(width: nat)

  datatype Value = Int(i: int) | Raw(bs: seq<byte>)

  predicate Fits(f: Field, v: Value) {
    match f
    case Unsigned(w) => v.Int? && 0 <= v.i < Pow256(w)
    case Signed(w) => v.Int? && 0 <= 2 * v.i + Pow256(w) && 2 * v.i < Pow256(w)
    case Chars(w) => v.Raw? && |v.bs| == w
  }

  function PackField(f: Field, v: Value): (bs: seq<byte>)
    requires Fits(f, v)
    ensures |bs| == f.width
  {
    match f
    case Unsigned(w) => ToLE(v.i, w)
    case Signed(w) => ToLE(if v.i < 0 then v.i + Pow256(w) else v.i, w)
    case Chars(w) => v.bs
  }

  function UnpackField(f: Field, bs: seq<byte>): Value
    requires |bs| == f.width
  {
    match f
    case Unsigned(w) => Int(FromLE(bs))
    case Signed(w) =>
      var u := FromLE(bs);
      Int(if 2 * u >= Pow256(w) then u - Pow256(w) else u)
    case Chars(w) => Raw(bs)
  }

  lemma {:induction false} FieldThere(f: Field, v: Value)
    requires Fits(f, v)
    ensures UnpackField(f, PackField(f, v)) == v
  {
    match f
    case Unsigned(w) => FromToLE(v.i, w);
    case Signed(w) => FromToLE(if v.i < 0 then v.i + Pow256(w) else v.i, w);
    case Chars(w) =>
  }

  lemma {:induction false} FieldBack(f: Field, bs: seq<byte>)
    requires |bs| == f.width
    ensures Fits(f, UnpackField(f, bs)) && PackField(f, UnpackField(f, bs)) == bs
  {
    ToFromLE(bs);
  }

  function Size(format: seq<Field>): nat {
    if format == [] then 0 else format[0].width + Size(format[1..])
  }

  predicate AllFit(format: seq<Field>, vs: seq<Value>) {
    |format| == |vs| && forall i :: 0 <= i < |vs| ==> Fits(format[i], vs[i])
  }

  function Pack(format: seq<Field>, vs: seq<Value>): (bs: seq<byte>)
    requires AllFit(format, vs)
    ensures |bs| == Size(format)
  {
    if format == [] then []
    else
      assert AllFit(format[1..], vs[1..]) by {
        assert forall i :: 0 <= i < |vs| - 1 ==> format[1..][i] == format[i + 1] && vs[1..][i] == vs[i + 1];
      }
      PackField(format[0], vs[0]) + Pack(format[1..], vs[1..])
  }

  function Unpack(format: seq<Field>, bs: seq<byte>): (vs: seq<Value>)
    requires |bs| == Size(format)
    ensures |vs| == |format|
  {
    if format == [] then []
    else [UnpackField(format[0], bs[..format[0].width])] + Unpack(format[1..], bs[format[0].width..])
  }

  /** Unpacking what was packed returns the values. */
  lemma {:induction false} UnpackPack(format: seq<Field>, vs: seq<Value>)
    requires AllFit(format, vs)
    ensures Unpack(format, Pack(format, vs)) == vs
  {
    if format != [] {
      assert AllFit(format[1..], vs[1..]) by {
        assert forall i :: 0 <= i < |vs| - 1 ==> format[1..][i] == format[i + 1] && vs[1..][i] == vs[i + 1];
      }
      var head, tail := PackField(format[0], vs[0]), Pack(format[1..], vs[1..]);
      UnpackPack(format[1..], vs[1..]);
      FieldThere(format[0], vs[0]);
      assert (head + tail)[..format[0].width] == head && (head + tail)[format[0].width..] == tail;
      assert vs == [vs[0]] + vs[1..];
    }
  }

  lemma {:induction false} PackCons(format: seq<Field>, v: Value, rest: seq<Value>)
    requires format != [] && Fits(format[0], v) && AllFit(format[1..], rest)
    ensures AllFit(format, [v] + rest) && Pack(format, [v] + rest) == PackField(format[0], v) + Pack(format[1..], rest)
  {
    var vs := [v] + rest;
    assert vs[1..] == rest;
    forall i | 0 <= i < |vs|
      ensures Fits(format[i], vs[i])
    {
      if i > 0 {
        assert Fits(format[1..][i - 1], rest[i - 1]);
      }
    }
  }

  /** Packing what was unpacked returns the bytes. */
  lemma {:induction false} PackUnpack(format: seq<Field>, bs: seq<byte>)
    requires |bs| == Size(format)
    ensures AllFit(format, Unpack(format, bs)) && Pack(format, Unpack(format, bs)) == bs
  {
    if format != [] {
      var f, head, tail := format[0], bs[..format[0].width], bs[format[0].width..];
      var rest := Unpack(format[1..], tail);
      FieldBack(f, head);
      PackUnpack(format[1..], tail);
      PackCons(format, UnpackField(f, head), rest);
      assert head + tail == bs;
    }
  }

  lemma {:induction false} SizeSnoc(format: seq<Field>, k: nat)
    requires k < |format|
    ensures Size(format[..k + 1]) == Size(format[..k]) + format[k].width
    ensures Size(format[..0]) == 0
  {
    var a, b := format[..k + 1], format[..k];
    if k == 0 {
      assert a[1..] == [];
    } else {
      assert a[1..] == format[1..][..k] && b[1..] == format[1..][..k - 1];
      SizeSnoc(format[1..], k - 1);
    }
  }

  lemma {:induction false} SizeSplit(format: seq<Field>, k: nat)
    requires k <= |format|
    ensures Size(format) == Size(format[..k]) + Size(format[k..])
  {
    if k == 0 {
      assert format[k..] == format;
    } else {
      assert format[..k][1..] == format[1..][..k - 1] && format[1..][k - 1..] == format[k..];
      SizeSplit(format[1..], k - 1);
    }
  }

  /** The k-th value is read from the bytes after the widths before it. */
  lemma {:induction false} UnpackAt(format: seq<Field>, bs: seq<byte>, k: nat)
    requires |bs| == Size(format) && k < |format|
    ensures var at, w := Size(format[..k]), format[k].width;
            at + w <= |bs| && Unpack(format, bs)[k] == UnpackField(format[k], bs[at..at + w])
  {
    hide UnpackField;
    var w0, tail := format[0].width, bs[format[0].width..];
    SizeSplit(format, k);
    if k > 0 {
      UnpackAt(format[1..], tail, k - 1);
      assert format[..k][1..] == format[1..][..k - 1];
      var at := Size(format[1..][..k - 1]);
      assert tail[at..at + format[k].width] == bs[w0 + at..w0 + at + format[k].width];
    }
  }

  lemma {:induction false} FitsKind(format: seq<Field>, vs: seq<Value>, i: nat)
    requires AllFit(format, vs) && i < |vs|
    ensures vs[i].Raw? <==> format[i].Chars?
    ensures vs[i].Raw? ==> |vs[i].bs| == format[i].width
  {
    assert Fits(format[i], vs[i]);
  }

  // ----- Where a field stands -----

  function Flatten(chunks: seq<seq<byte>>): seq<byte> {
    if chunks == [] then [] else chunks[0] + Flatten(chunks[1..])
  }

  function Chunks(format: seq<Field>, vs: seq<Value>): (cs: seq<seq<byte>>)
    requires AllFit(format, vs)
    ensures |cs| == |vs|
  {
    seq(|vs|, i requires 0 <= i < |vs| => PackField(format[i], vs[i]))
  }

  lemma {:induction false} FlattenConcat(a: seq<seq<byte>>, b: seq<seq<byte>>)
    ensures Flatten(a + b) == Flatten(a) + Flatten(b)
  {
    if a == [] {
      assert a + b == b;
    } else {
      assert (a + b)[1..] == a[1..] + b;
      FlattenConcat(a[1..], b);
    }
  }

  lemma {:induction false} FlattenAt(cs: seq<seq<byte>>, k: nat)
    requires k < |cs|
    ensures Flatten(cs) == Flatten(cs[..k]) + cs[k] + Flatten(cs[k + 1..])
  {
    assert cs == cs[..k] + cs[k..] && cs[k..][1..] == cs[k + 1..];
    FlattenConcat(cs[..k], cs[k..]);
  }

  lemma {:induction false} PackIsFlatten(format: seq<Field>, vs: seq<Value>)
    requires AllFit(format, vs)
    ensures Pack(format, vs) == Flatten(Chunks(format, vs))
  {
    if format != [] {
      var rest, more := format[1..], vs[1..];
      assert forall i :: 0 <= i < |more| ==> rest[i] == format[i + 1] && more[i] == vs[i + 1];
      PackIsFlatten(rest, more);
      assert Chunks(format, vs)[1..] == Chunks(rest, more);
    }
  }

  lemma {:induction false} PrefixSize(format: seq<Field>, vs: seq<Value>, k: nat)
    requires AllFit(format, vs) && k <= |vs|
    ensures |Flatten(Chunks(format, vs)[..k])| == Size(format[..k])
  {
    assert AllFit(format[..k], vs[..k]);
    PackIsFlatten(format[..k], vs[..k]);
    assert Chunks(format[..k], vs[..k]) == Chunks(format, vs)[..k];
  }

  /** The k-th field stands at the sum of the widths before it, and is all that changes with its
      value. */
  lemma {:induction false} FieldAt(format: seq<Field>, vs: seq<Value>, k: nat, v: Value)
    requires AllFit(format, vs) && k < |vs| && Fits(format[k], v)
    ensures AllFit(format, vs[k := v]) && Fits(format[k], vs[k])
    ensures var bs, at, w := Pack(format, vs), Size(format[..k]), format[k].width;
            && at + w <= |bs| && bs[at..at + w] == PackField(format[k], vs[k])
            && Pack(format, vs[k := v]) == bs[..at] + PackField(format[k], v) + bs[at + w..]
  {
    var us := vs[k := v];
    var cs, ds := Chunks(format, vs), Chunks(format, us);
    PackIsFlatten(format, vs);
    PackIsFlatten(format, us);
    PrefixSize(format, vs, k);
    FlattenAt(cs, k);
    FlattenAt(ds, k);
    assert ds[..k] == cs[..k] && ds[k + 1..] == cs[k + 1..];
    Replace(Flatten(cs[..k]), cs[k], Flatten(cs[k + 1..]));
  }

  lemma {:induction false} Replace(a: seq<byte>, b: seq<byte>, c: seq<byte>)
    ensures (a + b + c)[|a|..|a| + |b|] == b
    ensures (a + b + c)[..|a|] == a && (a + b + c)[|a| + |b|..] == c
  {
  }
}
