/** The 80-byte frame: the packed record the engine writes, and the Python reader and writer. */
module FrameCodec {

  import opened Bytes
  import opened Wrappers

  const SYMBOL_MAX: nat := 8
  const FRAME_SIZE: nat := 80

  /** Unicode's replacement character. */
  const REPLACEMENT: char := '\U{FFFD}'

  /** A decoded frame. The four features are the bit patterns of their binary64 values. */
  datatype Frame = Frame(version: int, windowCount: int, ts: int, symbol: string, ofi: int, realizedVol: int,
                         midPrice: int, totalVolume: int, caseId: int, wireTs: int, computeTs: int)

  datatype CodecError = WrongSize | NotAscii | OutOfRange

  /** The layout "<HHIq8sddddQqq": a binary64 field travels as its 64-bit pattern. */
  const LAYOUT: seq<Field> :=
    [Unsigned(2), Unsigned(2), Unsigned(4), Signed(8), Chars(8), Unsigned(8),
     Unsigned(8), Unsigned(8), Unsigned(8), Unsigned(8), Signed(8), Signed(8)]

  lemma {:induction false} LayoutSize()
    ensures Size(LAYOUT) == FRAME_SIZE
  {
    SizeOfTail(LAYOUT, 0);
  }

  /** Counting from the end keeps each unfolding small. */
  lemma {:induction false} SizeOfTail(format: seq<Field>, i: nat)
    requires i <= |format|
    ensures Size(format[i..]) == SizeFrom(format, i)
    ensures i == 0 ==> Size(format) == SizeFrom(format, 0)
    decreases |format| - i
  {
    assert format[0..] == format;
    if i < |format| {
      SizeOfTail(format, i + 1);
      assert format[i..][1..] == format[i + 1..];
    }
  }

  function SizeFrom(format: seq<Field>, i: nat): nat
    requires i <= |format|
    decreases |format| - i
  {
    if i == |format| then 0 else format[i].width + SizeFrom(format, i + 1)
  }

  // ----- Symbols -----

  function StripNul(bs: seq<byte>): (s: seq<byte>)
    ensures s <= bs
  {
    if bs != [] && bs[|bs| - 1] == 0 then StripNul(bs[..|bs| - 1]) else bs
  }

  /** At most eight bytes, padded with NULs to eight. */
  function Padded(bs: seq<byte>): (s: seq<byte>)
    ensures |s| == SYMBOL_MAX
  {
    var head := if |bs| <= SYMBOL_MAX then bs else bs[..SYMBOL_MAX];
    head + seq(SYMBOL_MAX - |head|, _ => 0)
  }

  predicate AsciiBytes(bs: seq<byte>) {
    forall i :: 0 <= i < |bs| ==> bs[i] < 128
  }

  predicate AsciiString(s: string) {
    forall i :: 0 <= i < |s| ==> s[i] as int < 128
  }

  function DecodeAscii(bs: seq<byte>): (s: string)
    ensures |s| == |bs|
  {
    seq(|bs|, i requires 0 <= i < |bs| => if bs[i] < 128 then bs[i] as char else REPLACEMENT)
  }

  function EncodeAscii(s: string): (bs: seq<byte>)
    requires AsciiString(s)
    ensures |bs| == |s|
  {
    seq(|s|, i requires 0 <= i < |s| => s[i] as int)
  }

  lemma {:induction false} DecodeEncode(s: string)
    requires AsciiString(s)
    ensures DecodeAscii(EncodeAscii(s)) == s
  {
  }

  lemma {:induction false} EncodeDecode(bs: seq<byte>)
    ensures AsciiString(DecodeAscii(bs)) <==> AsciiBytes(bs)
    ensures AsciiBytes(bs) ==> EncodeAscii(DecodeAscii(bs)) == bs
  {
    if !AsciiBytes(bs) {
      var i :| 0 <= i < |bs| && bs[i] >= 128;
      assert DecodeAscii(bs)[i] == REPLACEMENT;
    }
  }

  /** Stripping removes exactly the trailing NULs, and padding restores them. */
  lemma {:induction false} StripMeaning(bs: seq<byte>)
    ensures var s := StripNul(bs);
            && (s == [] || s[|s| - 1] != 0)
            && (forall i :: |s| <= i < |bs| ==> bs[i] == 0)
  {
    if bs != [] && bs[|bs| - 1] == 0 {
      StripMeaning(bs[..|bs| - 1]);
    }
  }

  lemma {:induction false} PadStripped(bs: seq<byte>)
    requires |bs| == SYMBOL_MAX
    ensures Padded(StripNul(bs)) == bs
    ensures AsciiBytes(StripNul(bs)) <==> AsciiBytes(bs)
  {
    StripMeaning(bs);
  }

  lemma {:induction false} StripUnique(bs: seq<byte>, s: seq<byte>)
    requires s <= bs && (s == [] || s[|s| - 1] != 0) && forall i :: |s| <= i < |bs| ==> bs[i] == 0
    ensures StripNul(bs) == s
  {
    if |s| < |bs| {
      StripUnique(bs[..|bs| - 1], s);
    }
  }

  lemma {:induction false} StripPadded(bs: seq<byte>)
    requires |bs| <= SYMBOL_MAX
    ensures StripNul(Padded(bs)) == StripNul(bs)
  {
    StripMeaning(bs);
    StripUnique(Padded(bs), StripNul(bs));
  }

  // ----- Python -----

  function Values(f: Frame, pad: int, symbol: seq<byte>): seq<Value> {
    [Int(f.version), Int(pad), Int(f.windowCount), Int(f.ts), Raw(symbol), Int(f.ofi), Int(f.realizedVol),
     Int(f.midPrice), Int(f.totalVolume), Int(f.caseId), Int(f.wireTs), Int(f.computeTs)]
  }

  predicate InRange(f: Frame) {
    && 0 <= f.version < Pow256(2) && 0 <= f.windowCount < Pow256(4)
    && Fits(Signed(8), Int(f.ts)) && Fits(Signed(8), Int(f.wireTs)) && Fits(Signed(8), Int(f.computeTs))
    && 0 <= f.ofi < Pow256(8) && 0 <= f.realizedVol < Pow256(8) && 0 <= f.midPrice < Pow256(8)
    && 0 <= f.totalVolume < Pow256(8) && 0 <= f.caseId < Pow256(8)
  }

  lemma {:induction false} ValuesFit(f: Frame, pad: int, symbol: seq<byte>)
    requires |symbol| == SYMBOL_MAX && 0 <= pad < Pow256(2)
    ensures AllFit(LAYOUT, Values(f, pad, symbol)) <==> InRange(f)
  {
    var vs := Values(f, pad, symbol);
    if AllFit(LAYOUT, vs) {
      assert Fits(LAYOUT[0], vs[0]) && Fits(LAYOUT[2], vs[2]) && Fits(LAYOUT[3], vs[3]);
      assert Fits(LAYOUT[5], vs[5]) && Fits(LAYOUT[6], vs[6]) && Fits(LAYOUT[7], vs[7]) && Fits(LAYOUT[8], vs[8]);
      assert Fits(LAYOUT[9], vs[9]) && Fits(LAYOUT[10], vs[10]) && Fits(LAYOUT[11], vs[11]);
    }
  }

  /** The writer fails on a symbol that is not ASCII, then on a number out of range; it truncates
      and pads the symbol and zeroes the padding field. */
  function ToBytes(f: Frame): Result<seq<byte>, CodecError> {
    if !AsciiString(f.symbol) then Err(NotAscii)
    else
      var vs := Values(f, 0, Padded(EncodeAscii(f.symbol)));
      if AllFit(LAYOUT, vs) then Ok(Pack(LAYOUT, vs)) else Err(OutOfRange)
  }

  function OfValues(vs: seq<Value>): Frame
    requires |vs| == 12 && vs[4].Raw? && forall i :: 0 <= i < 12 && i != 4 ==> vs[i].Int?
  {
    Frame(vs[0].i, vs[2].i, vs[3].i, DecodeAscii(StripNul(vs[4].bs)), vs[5].i, vs[6].i, vs[7].i, vs[8].i,
          vs[9].i, vs[10].i, vs[11].i)
  }

  lemma {:induction false} LayoutKinds(i: nat)
    requires i < 12
    ensures LAYOUT[i].Chars? <==> i == 4
  {
  }

  lemma {:induction false} UnpackedShape(bs: seq<byte>)
    requires |bs| == FRAME_SIZE
    ensures |bs| == Size(LAYOUT)
    ensures var vs := Unpack(LAYOUT, bs);
            AllFit(LAYOUT, vs) && vs[4].Raw? && |vs[4].bs| == SYMBOL_MAX && forall i :: 0 <= i < 12 && i != 4 ==> vs[i].Int?
  {
    LayoutSize();
    PackUnpack(LAYOUT, bs);
    var vs := Unpack(LAYOUT, bs);
    forall i | 0 <= i < 12
      ensures vs[i].Raw? <==> i == 4
    {
      LayoutKinds(i);
      FitsKind(LAYOUT, vs, i);
    }
    FitsKind(LAYOUT, vs, 4);
  }

  /** The reader rejects any other length; it strips NULs and replaces what is not ASCII. */
  function FromBytes(bs: seq<byte>): Result<Frame, CodecError> {
    if |bs| != FRAME_SIZE then Err(WrongSize)
    else
      UnpackedShape(bs);
      Ok(OfValues(Unpack(LAYOUT, bs)))
  }

  /** What survives of a symbol on the wire. */
  function WireSymbol(s: string): string
    requires AsciiString(s)
  {
    DecodeAscii(StripNul(Padded(EncodeAscii(s))))
  }

  lemma {:induction false} SymbolSurvives(s: string)
    requires AsciiString(s)
    ensures WireSymbol(s) == s <==> |s| <= SYMBOL_MAX && (s == [] || s[|s| - 1] != '\0')
  {
    var bs := EncodeAscii(s);
    StripMeaning(Padded(bs));
    DecodeEncode(s);
    if |s| <= SYMBOL_MAX {
      StripPadded(bs);
      StripMeaning(bs);
      if s == [] || s[|s| - 1] != '\0' {
        StripUnique(bs, bs);
      } else {
        assert bs[|bs| - 1] == 0;
        assert |StripNul(bs)| < |bs|;
      }
    }
  }

  /** What the writer accepts, and what the reader makes of it. */
  lemma {:induction false} DecodeOfEncoded(f: Frame)
    ensures ToBytes(f).Ok? <==> AsciiString(f.symbol) && InRange(f)
    ensures ToBytes(f).Ok? ==> FromBytes(ToBytes(f).value) == Ok(f.(symbol := WireSymbol(f.symbol)))
  {
    if AsciiString(f.symbol) {
      var symbol := Padded(EncodeAscii(f.symbol));
      ValuesFit(f, 0, symbol);
      if InRange(f) {
        LayoutSize();
        UnpackPack(LAYOUT, Values(f, 0, symbol));
      }
    }
  }

  /** Round trip: an encodable frame is read back unchanged if and only if its symbol has at most
      eight characters and does not end in NUL. */
  lemma {:induction false} FrameRoundTrip(f: Frame)
    requires AsciiString(f.symbol) && InRange(f)
    ensures ToBytes(f).Ok?
    ensures FromBytes(ToBytes(f).value) == Ok(f) <==> |f.symbol| <= SYMBOL_MAX && (f.symbol == [] || f.symbol[|f.symbol| - 1] != '\0')
  {
    DecodeOfEncoded(f);
    SymbolSurvives(f.symbol);
    assert f.(symbol := WireSymbol(f.symbol)) == f <==> WireSymbol(f.symbol) == f.symbol;
  }

  // ----- The C++ record -----

  /** The packed record: as the decoded frame, with its padding field and its symbol bytes. */
  datatype Record = Record(pad: nat, symbol: seq<byte>, numbers: Frame)

  predicate ValidRecord(r: Record) {
    |r.symbol| == SYMBOL_MAX && r.pad < Pow256(2) && InRange(r.numbers)
  }

  /** The bytes of the record in memory, little-endian and without implicit padding. */
  function RecordBytes(r: Record): (bs: seq<byte>)
    requires ValidRecord(r)
    ensures |bs| == FRAME_SIZE
  {
    ValuesFit(r.numbers, r.pad, r.symbol);
    LayoutSize();
    Pack(LAYOUT, Values(r.numbers, r.pad, r.symbol))
  }

  /** The copy into the caller's buffer touches nothing beyond the record. */
  method SerializeFrame(r: Record, dst: array<byte>)
    requires ValidRecord(r) && dst.Length >= FRAME_SIZE
    modifies dst
    ensures dst[..FRAME_SIZE] == RecordBytes(r) && dst[FRAME_SIZE..] == old(dst[FRAME_SIZE..])
  {
    CopyInto(RecordBytes(r), dst);
  }

  method CopyInto(src: seq<byte>, dst: array<byte>)
    requires |src| <= dst.Length
    modifies dst
    ensures dst[..|src|] == src && dst[|src|..] == old(dst[|src|..])
  {
    for i := 0 to |src|
      invariant dst[..i] == src[..i]
      invariant dst[|src|..] == old(dst[|src|..])
    {
      dst[i] := src[i];
    }
  }

  /** The parser's copy of the ticker into the fixed-width field. */
  method CopySymbol(src: seq<byte>, dst: array<byte>)
    requires dst.Length == SYMBOL_MAX
    modifies dst
    ensures dst[..] == Padded(src)
    ensures forall j :: 0 <= j < 8 ==> dst[j] == if j < |src| then src[j] else 0
  {
    for i := 0 to dst.Length
      invariant forall j :: 0 <= j < i ==> dst[j] == 0
    {
      dst[i] := 0;
    }
    var n := if |src| < SYMBOL_MAX then |src| else SYMBOL_MAX;
    for i := 0 to n
      invariant forall j :: 0 <= j < i ==> dst[j] == src[j]
      invariant forall j :: i <= j < dst.Length ==> dst[j] == 0
    {
      dst[i] := src[i];
    }
  }

  /** Reading what the engine wrote recovers every field; the symbol is the ticker's first eight
      bytes without trailing NULs. */
  lemma {:induction false} ReadsEngineRecord(r: Record, ticker: seq<byte>)
    requires ValidRecord(r) && r.symbol == Padded(ticker)
    ensures var head := if |ticker| <= SYMBOL_MAX then ticker else ticker[..SYMBOL_MAX];
            FromBytes(RecordBytes(r)) == Ok(r.numbers.(symbol := DecodeAscii(StripNul(head))))
  {
    var head := if |ticker| <= SYMBOL_MAX then ticker else ticker[..SYMBOL_MAX];
    ValuesFit(r.numbers, r.pad, r.symbol);
    LayoutSize();
    UnpackPack(LAYOUT, Values(r.numbers, r.pad, r.symbol));
    assert Padded(ticker) == Padded(head);
    StripPadded(head);
  }

  // ----- Bytes round trip -----

  lemma {:induction false} Offsets()
    ensures Size(LAYOUT[..1]) == 2 && Size(LAYOUT[..4]) == 16
  {
    var l := LAYOUT[..4];
    assert LAYOUT[..1] == [Unsigned(2)] && [Unsigned(2)][1..] == [];
    assert l == [Unsigned(2), Unsigned(2), Unsigned(4), Signed(8)];
    SizeOfTail(l, 0);
    assert SizeFrom(l, 3) == 8;
    assert SizeFrom(l, 2) == 12;
  }

  lemma {:induction false} SymbolBytes(r: Record)
    requires ValidRecord(r)
    ensures RecordBytes(r)[16..24] == r.symbol
  {
    var vs := Values(r.numbers, r.pad, r.symbol);
    ValuesFit(r.numbers, r.pad, r.symbol);
    Offsets();
    FieldAt(LAYOUT, vs, 4, vs[4]);
  }

  lemma {:induction false} PadField(r: Record)
    requires ValidRecord(r)
    ensures var vs := Values(r.numbers, r.pad, r.symbol);
            AllFit(LAYOUT, vs) && Values(r.numbers, 0, r.symbol) == vs[1 := Int(0)]
    ensures Fits(LAYOUT[1], Int(0)) && PackField(LAYOUT[1], Int(0)) == [0, 0]
  {
    ValuesFit(r.numbers, r.pad, r.symbol);
    assert ToLE(0, 2) == [0] + ToLE(0, 1) == [0, 0];
  }

  /** Zeroing the padding field changes bytes 2 and 3 and nothing else. */
  lemma {:induction false} PadBytes(r: Record)
    requires ValidRecord(r)
    ensures RecordBytes(r.(pad := 0)) == RecordBytes(r)[2 := 0][3 := 0]
  {
    hide Values, Pack, PackField, Fits, Size;
    PadField(r);
    Offsets();
    FieldAt(LAYOUT, Values(r.numbers, r.pad, r.symbol), 1, Int(0));
    ZeroTwo(RecordBytes(r));
  }

  lemma {:induction false} ZeroTwo(bs: seq<byte>)
    requires |bs| >= 4
    ensures bs[..2] + [0, 0] + bs[4..] == bs[2 := 0][3 := 0]
  {
  }

  /** Every payload of the right length is the memory image of one record. */
  lemma {:induction false} PayloadIsRecord(bs: seq<byte>) returns (r: Record)
    requires |bs| == FRAME_SIZE
    ensures ValidRecord(r) && RecordBytes(r) == bs
    ensures FromBytes(bs) == Ok(r.numbers)
    ensures r.numbers.symbol == DecodeAscii(StripNul(r.symbol))
  {
    hide Unpack, Pack, Size, DecodeAscii, StripNul;
    UnpackedShape(bs);
    PackUnpack(LAYOUT, bs);
    var vs := Unpack(LAYOUT, bs);
    r := Record(PadOf(vs), vs[4].bs, OfValues(vs));
    assert Values(r.numbers, r.pad, r.symbol) == vs;
    ValuesFit(r.numbers, r.pad, r.symbol);
  }

  function PadOf(vs: seq<Value>): (p: nat)
    requires AllFit(LAYOUT, vs)
    ensures vs[1] == Int(p) && p < Pow256(2)
  {
    assert Fits(LAYOUT[1], vs[1]);
    vs[1].i
  }

  /** Re-encoding a decoded payload returns it with bytes 2 and 3 zeroed if every byte of its
      symbol field is ASCII; otherwise the writer refuses. */
  lemma {:induction false} BytesRoundTrip(bs: seq<byte>)
    requires |bs| == FRAME_SIZE
    ensures FromBytes(bs).Ok?
    ensures ToBytes(FromBytes(bs).value) == if AsciiBytes(bs[16..24]) then Ok(bs[2 := 0][3 := 0]) else Err(NotAscii)
  {
    var r := PayloadIsRecord(bs);
    var f := r.numbers;
    SymbolBytes(r);
    PadBytes(r);
    EncodeDecode(StripNul(r.symbol));
    PadStripped(r.symbol);
    if AsciiBytes(r.symbol) {
      ValuesFit(f, 0, r.symbol);
      assert RecordBytes(r.(pad := 0)) == Pack(LAYOUT, Values(f, 0, r.symbol));
    }
  }
}
