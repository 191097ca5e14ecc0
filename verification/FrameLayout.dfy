/** The 80 bytes of a frame by offset: what stands where, for the reader and for the writer. */
module FrameLayout {

  import opened Bytes
  import opened FrameCodec
  import opened Wrappers

  const OFFSETS: seq<nat> := [0, 2, 4, 8, 16, 24, 32, 40, 48, 56, 64, 72, 80]

  lemma {:induction false} Widths()
    ensures Pow256(2) == 0x1_0000 && Pow256(4) == 0x1_0000_0000 && Pow256(8) == 0x1_0000_0000_0000_0000
  {
    assert Pow256(1) == 256 && Pow256(2) == 256 * Pow256(1);
    assert Pow256(3) == 256 * Pow256(2) && Pow256(4) == 256 * Pow256(3);
    assert Pow256(5) == 256 * Pow256(4) && Pow256(6) == 256 * Pow256(5);
    assert Pow256(7) == 256 * Pow256(6) && Pow256(8) == 256 * Pow256(7);
  }

  lemma {:induction false} OffsetOf(k: nat)
    requires k <= 12
    ensures Size(LAYOUT[..k]) == OFFSETS[k]
  {
    if k > 0 {
      OffsetOf(k - 1);
      SizeSnoc(LAYOUT, k - 1);
    }
  }

  /** `v` is what a two's-complement field of eight bytes holds. */
  ghost predicate Int64At(bs: seq<byte>, v: int) {
    && -0x8000_0000_0000_0000 <= v < 0x8000_0000_0000_0000
    && (v == FromLE(bs) || v == FromLE(bs) - 0x1_0000_0000_0000_0000)
  }

  /** The trailing NULs are gone, and a byte that is not ASCII reads as U+FFFD. */
  ghost predicate SymbolAt(bs: seq<byte>, s: string) {
    && |s| <= |bs|
    && (forall i :: 0 <= i < |s| ==> s[i] == if bs[i] < 128 then bs[i] as char else '\U{FFFD}')
    && (forall i :: |s| <= i < |bs| ==> bs[i] == 0)
    && (s != "" ==> bs[|s| - 1] != 0)
  }

  lemma {:induction false} DecodedSymbol(bs: seq<byte>)
    ensures SymbolAt(bs, DecodeAscii(StripNul(bs)))
  {
    StripMeaning(bs);
  }

  lemma {:induction false} ReadUnsigned(format: seq<Field>, bs: seq<byte>, k: nat, at: nat, w: nat)
    requires |bs| == Size(format) && k < |format| && Size(format[..k]) == at && format[k] == Unsigned(w)
    ensures at + w <= |bs| && Unpack(format, bs)[k] == Int(FromLE(bs[at..at + w]))
  {
    hide Unpack, Size, FromLE;
    UnpackAt(format, bs, k);
  }

  lemma {:induction false} ReadSigned(format: seq<Field>, bs: seq<byte>, k: nat, at: nat)
    requires |bs| == Size(format) && k < |format| && Size(format[..k]) == at && format[k] == Signed(8)
    ensures at + 8 <= |bs|
    ensures var v := Unpack(format, bs)[k]; v.Int? && Int64At(bs[at..at + 8], v.i)
  {
    hide Unpack, Size, FromLE, Pow256;
    UnpackAt(format, bs, k);
    ToFromLE(bs[at..at + 8]);
    Widths();
  }

  lemma {:induction false} IntegerFields(k: nat)
    requires k < 12 && k != 4
    ensures if k in [3, 10, 11] then LAYOUT[k] == Signed(8) && OFFSETS[k] + 8 == OFFSETS[k + 1]
            else LAYOUT[k] == Unsigned(OFFSETS[k + 1] - OFFSETS[k])
  {
  }

  lemma {:induction false} ReadInt(bs: seq<byte>, k: nat)
    requires |bs| == 80 && k < 12 && k != 4
    ensures |bs| == Size(LAYOUT)
    ensures OFFSETS[k] <= OFFSETS[k + 1] <= 80
    ensures var part, v := bs[OFFSETS[k]..OFFSETS[k + 1]], Unpack(LAYOUT, bs)[k];
            && v.Int?
            && (k in [3, 10, 11] ==> Int64At(part, v.i))
            && (k !in [3, 10, 11] ==> v.i == FromLE(part))
  {
    hide Unpack, Size, FromLE, Int64At;
    LayoutSize();
    OffsetOf(k);
    IntegerFields(k);
    if k in [3, 10, 11] {
      ReadSigned(LAYOUT, bs, k, OFFSETS[k]);
    } else {
      ReadUnsigned(LAYOUT, bs, k, OFFSETS[k], OFFSETS[k + 1] - OFFSETS[k]);
    }
  }

  lemma {:induction false} ReadSymbol(bs: seq<byte>)
    requires |bs| == 80
    ensures |bs| == Size(LAYOUT)
    ensures Unpack(LAYOUT, bs)[4] == Raw(bs[16..24])
  {
    hide Unpack, Size;
    UnpackedShape(bs);
    UnpackAt(LAYOUT, bs, 4);
    OffsetOf(4);
  }

  /** Where each number of a frame stands. */
  ghost predicate NumbersAt(bs: seq<byte>, f: Frame) {
    && |bs| == 80
    && f.version == FromLE(bs[0..2])
    && f.windowCount == FromLE(bs[4..8])
    && Int64At(bs[8..16], f.ts)
    && f.ofi == FromLE(bs[24..32])
    && f.realizedVol == FromLE(bs[32..40])
    && f.midPrice == FromLE(bs[40..48])
    && f.totalVolume == FromLE(bs[48..56])
    && f.caseId == FromLE(bs[56..64])
    && Int64At(bs[64..72], f.wireTs)
    && Int64At(bs[72..80], f.computeTs)
  }

  /** The reader takes exactly the payloads of 80 bytes, and each field from its own offset. */
  lemma {:induction false} ReaderFields(bs: seq<byte>)
    ensures |bs| != 80 ==> FromBytes(bs) == Err(WrongSize)
    ensures |bs| == 80 ==>
              && FromBytes(bs).Ok?
              && NumbersAt(bs, FromBytes(bs).value)
              && SymbolAt(bs[16..24], FromBytes(bs).value.symbol)
  {
    hide Unpack, Size, FromLE, StripNul, DecodeAscii, SymbolAt, Int64At;
    if |bs| == 80 {
      ReadInt(bs, 0);
      ReadInt(bs, 2);
      ReadInt(bs, 3);
      ReadSymbol(bs);
      ReadInt(bs, 5);
      ReadInt(bs, 6);
      ReadInt(bs, 7);
      ReadInt(bs, 8);
      ReadInt(bs, 9);
      ReadInt(bs, 10);
      ReadInt(bs, 11);
      DecodedSymbol(bs[16..24]);
    }
  }

  /** The record in memory, by offset. */
  lemma {:induction false} RecordFields(r: Record)
    requires ValidRecord(r)
    ensures var bs := RecordBytes(r);
            NumbersAt(bs, r.numbers) && FromLE(bs[2..4]) == r.pad && bs[16..24] == r.symbol
  {
    hide Pack, Unpack, Size, FromLE, Int64At, StripNul, DecodeAscii;
    var bs := RecordBytes(r);
    assert Padded(r.symbol) == r.symbol;
    ReadsEngineRecord(r, r.symbol);
    ReaderFields(bs);
    SymbolBytes(r);
    RecordPad(r);
  }

  lemma {:induction false} RecordPad(r: Record)
    requires ValidRecord(r)
    ensures FromLE(RecordBytes(r)[2..4]) == r.pad
  {
    hide Pack, Unpack, Size, FromLE;
    ValuesFit(r.numbers, r.pad, r.symbol);
    LayoutSize();
    UnpackPack(LAYOUT, Values(r.numbers, r.pad, r.symbol));
    ReadInt(RecordBytes(r), 1);
  }

  // ----- The Python writer -----

  predicate NumbersFit(f: Frame) {
    && 0 <= f.version < 0x1_0000 && 0 <= f.windowCount < 0x1_0000_0000
    && (forall v :: v in [f.ofi, f.realizedVol, f.midPrice, f.totalVolume, f.caseId] ==> 0 <= v < 0x1_0000_0000_0000_0000)
    && (forall v :: v in [f.ts, f.wireTs, f.computeTs] ==> -0x8000_0000_0000_0000 <= v < 0x8000_0000_0000_0000)
  }

  lemma {:induction false} RangesAreLiteral(f: Frame)
    ensures InRange(f) <==> NumbersFit(f)
  {
    Widths();
    var us, vs := [f.ofi, f.realizedVol, f.midPrice, f.totalVolume, f.caseId], [f.ts, f.wireTs, f.computeTs];
    assert us[0] in us && us[1] in us && us[2] in us && us[3] in us && us[4] in us;
    assert vs[0] in vs && vs[1] in vs && vs[2] in vs;
  }

  /** What the writer refuses and why, and where it puts what it accepts. */
  lemma {:induction false} WriterFields(f: Frame)
    ensures ToBytes(f) == Err(NotAscii) <==> exists i :: 0 <= i < |f.symbol| && f.symbol[i] as int >= 128
    ensures ToBytes(f) == Err(OutOfRange) <==> (forall i :: 0 <= i < |f.symbol| ==> f.symbol[i] as int < 128) && !NumbersFit(f)
    ensures ToBytes(f).Ok? ==>
              var bs := ToBytes(f).value;
              && NumbersAt(bs, f) && bs[2..4] == [0, 0]
              && forall i :: 0 <= i < 8 ==> bs[16..24][i] == if i < |f.symbol| then f.symbol[i] as int else 0
  {
    hide Pack, Unpack, Size, Int64At, NumbersAt, NumbersFit, InRange;
    RangesAreLiteral(f);
    if AsciiString(f.symbol) {
      var r := Record(0, Padded(EncodeAscii(f.symbol)), f);
      ValuesFit(f, 0, r.symbol);
      if InRange(f) {
        RecordFields(r);
        TwoZeroBytes(RecordBytes(r)[2..4]);
      }
    }
  }

  lemma {:induction false} TwoZeroBytes(bs: seq<byte>)
    requires |bs| == 2 && FromLE(bs) == 0
    ensures bs == [0, 0]
  {
    assert FromLE(bs[1..]) == bs[1] + 256 * FromLE(bs[1..][1..]);
  }
}
