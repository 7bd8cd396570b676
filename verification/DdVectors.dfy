/**
 Descriptors bit by bit. A codec that reads back its own bits could still have fields of its own; these
 are the bits that others send, among them the descriptor of a browser in test/dd.c.
 */
module DdVectors {
  import opened Bytes
  import opened DdBits
  import opened DdCodec

  lemma Bits1(v: nat)
    ensures ToBits(1, v) == [v % 2 == 1]
  {
    assert ToBits(0, v / 2) == [];
  }

  lemma Bits2(v: nat)
    ensures ToBits(2, v) == [v / 2 % 2 == 1, v % 2 == 1]
  {
    Bits1(v / 2);
  }

  lemma Bits4(v: nat)
    ensures ToBits(4, v) == [v / 8 % 2 == 1, v / 4 % 2 == 1, v / 2 % 2 == 1, v % 2 == 1]
  {
    Bits2(v / 2 / 2);
    assert ToBits(3, v / 2) == ToBits(2, v / 2 / 2) + [v / 2 % 2 == 1];
    assert v / 2 / 2 == v / 4 && v / 4 / 2 == v / 8;
  }

  /** The high bits, then the low ones. */
  lemma {:induction false} BitsSplit(n: nat, k: nat, p: nat, v: nat, hi: nat, lo: nat)
    requires k <= n && p == Pow2(k) && v == p * hi + lo && lo < p
    ensures ToBits(n, v) == ToBits(n - k, hi) + ToBits(k, lo)
  {
    if k > 0 {
      var half := Pow2(k - 1);
      assert v == 2 * (half * hi) + lo by { Twice(half, hi); }
      BitsSplit(n - 1, k - 1, half, v / 2, hi, lo / 2);
    } else {
      assert ToBits(n, v) + [] == ToBits(n, v);
    }
  }

  lemma Twice(a: nat, b: nat)
    ensures 2 * a * b == 2 * (a * b)
  {
  }

  lemma Powers()
    ensures Pow2(4) == 16 && Pow2(6) == 64 && Pow2(8) == 256
  {
    assert Pow2(4) == 16;
  }

  /** A byte is two hexadecimal digits. */
  lemma TwoDigits(hi: nat, lo: nat)
    requires hi < 16 && lo < 16
    ensures 0 <= 16 * hi + lo < 256 && ByteBits(16 * hi + lo) == ToBits(4, hi) + ToBits(4, lo)
  {
    hide ToBits;
    Powers();
    BitsSplit(8, 4, 16, 16 * hi + lo, hi, lo);
  }

  lemma BytesCons(b: Byte, bs: seq<Byte>)
    ensures BytesBits([b] + bs) == ByteBits(b) + BytesBits(bs)
    ensures BytesBits([]) == []
  {
    assert ([b] + bs)[1..] == bs;
  }

  /** The three mandatory bytes: start, end, six bits of template, and the frame number. */
  lemma MandatoryBytes(d: Dd)
    requires d.templateId < 64 && d.frameNumber < 0x1_0000 && d.ext.None?
    ensures var b: int := (if d.start then 128 else 0) + (if d.end then 64 else 0) + d.templateId;
            0 <= b < 256 && Encode(d) == Ok(BytesBits([b, d.frameNumber / 256, d.frameNumber % 256]))
  {
    hide ToBits, Pow2;
    Powers();
    var x := (if d.start then 2 else 0) + (if d.end then 1 else 0);
    var b: int := 64 * x + d.templateId;
    var hi, lo := d.frameNumber / 256, d.frameNumber % 256;
    BitsSplit(8, 6, 64, b, x, d.templateId);
    Bits2(x);
    BitsSplit(16, 8, 256, d.frameNumber, hi, lo);
    BytesCons(b, [hi, lo]);
    BytesCons(hi, [lo]);
    BytesCons(lo, []);
    assert [b] + [hi, lo] == [b, hi, lo] && [hi] + [lo] == [hi, lo] && [lo] + [] == [lo];
    var id, f1, f2 := ToBits(6, d.templateId), ToBits(8, hi), ToBits(8, lo);
    assert [d.start, d.end] + (id + (f1 + f2)) == ([d.start, d.end] + id) + (f1 + (f2 + []));
  }

  /** The four codes of template_layers: same layer, next temporal, next spatial, end. */
  lemma LayerCodes(l: Layer)
    ensures PutLayers([l]) == Some([true, true])
    ensures PutLayers([l, l]) == Some([false, false] + [true, true])
    ensures PutLayers([l, Layer(l.sid, l.tid + 1)]) == Some([false, true] + [true, true])
    ensures PutLayers([l, Layer(l.sid + 1, 0)]) == Some([true, false] + [true, true])
  {
    hide ToBits;
    Bits2(0);
    Bits2(1);
    Bits2(2);
    Bits2(3);
    TwoLayers(l, l);
    TwoLayers(l, Layer(l.sid, l.tid + 1));
    TwoLayers(l, Layer(l.sid + 1, 0));
  }

  lemma TwoLayers(a: Layer, b: Layer)
    requires NextLayer(a, b) < 3
    ensures PutLayers([a, b]) == Some(ToBits(2, NextLayer(a, b)) + ToBits(2, 3))
  {
    hide ToBits;
    assert [a, b][1..] == [b];
  }

  /** Chains: ns(3) of 2, one bit for each of two targets, four bits for each distance. */
  lemma ChainBits()
    ensures PutChains(2, Chains(2, [0, 1], [[3, 5]])) ==
            [true, true] + [false] + [true] + [false, false, true, true] + [false, true, false, true]
  {
    hide ToBits, ToNs, PutRow;
    assert Width(3) == 2 && Width(2) == 2 && Pow2(2) == 4;
    NsForm(3, 2);
    NsForm(2, 0);
    NsForm(2, 1);
    Bits1(0);
    Bits1(1);
    Bits2(3);
    NsTwo([0, 1]);
    OneRow([3, 5]);
    Bits4(3);
    Bits4(5);
  }

  lemma NsTwo(vs: seq<nat>)
    requires |vs| == 2
    ensures PutNsRow(2, vs) == ToNs(2, vs[0]) + ToNs(2, vs[1])
  {
    hide ToNs;
    assert PutNsRow(2, vs[1..][1..]) == [];
    assert PutNsRow(2, vs[1..]) == ToNs(2, vs[1]) + [];
  }

  lemma OneRow(vs: seq<nat>)
    requires |vs| == 2
    ensures PutRows(4, [vs]) == ToBits(4, vs[0]) + ToBits(4, vs[1])
  {
    hide ToBits;
    assert PutRows(4, [vs][1..]) == [];
    assert PutRow(4, vs[1..][1..]) == [];
    assert PutRow(4, vs[1..]) == ToBits(4, vs[1]) + [];
  }

  // ---------------------------------------------------------------- a browser's descriptor

  /** Two templates of one layer, one decode target, and a picture of 640 by 480. */
  const PICTURE: Structure :=
    Structure(0, 1, [Layer(0, 0), Layer(0, 0)], [[2], [2]], [[], [1]], Chains(0, [], []), Some([Resolution(639, 479)]))

  const FROM_BROWSER: Dd := Dd(true, false, 0, 1, Some(Ext(Some(PICTURE), false, false, false, false, 1)))

  const BROWSER_BYTES: seq<Byte> := [0x80, 0x00, 0x01, 0x80, 0x00, 0x3a, 0x40, 0x81, 0x3f, 0x80, 0xef, 0x80]

  /** Two bytes: the flags of the extended fields, the template offset, and the count of targets less one. */
  lemma HeadBytes()
    ensures [true, false, false, false, false] + (ToBits(6, 0) + ToBits(5, 0)) == ByteBits(0x80) + ByteBits(0x00)
  {
    hide ToBits;
    TwoDigits(8, 0);
    TwoDigits(0, 0);
    Bits4(8);
    Bits4(0);
    Bits2(0);
    Bits1(0);
    Powers();
    BitsSplit(6, 4, 16, 0, 0, 0);
    BitsSplit(5, 4, 16, 0, 0, 0);
  }

  /** 0x3a: the layers, the same one twice, and a required indication for each. */
  lemma LayerByte()
    ensures PutLayers(PICTURE.layers) == Some(ToBits(2, 0) + ToBits(2, 3))
    ensures PutRows(2, PICTURE.dtis) == ToBits(2, 2) + ToBits(2, 2)
    ensures ToBits(2, 0) + ToBits(2, 3) + (ToBits(2, 2) + ToBits(2, 2)) == ByteBits(0x3a)
  {
    hide ToBits;
    TwoLayers(Layer(0, 0), Layer(0, 0));
    SingleRow(2, [2], []);
    SingleRow(2, [2], [[2]]);
    assert [[2]] + [[2]] == [[2], [2]] && [[2]] + [] == [[2]];
    TwoDigits(3, 10);
    Bits4(3);
    Bits4(10);
    Bits2(0);
    Bits2(3);
    Bits2(2);
  }

  lemma SingleRow(n: nat, row: seq<nat>, rows: seq<seq<nat>>)
    requires |row| == 1
    ensures PutRows(n, [row] + rows) == ToBits(n, row[0]) + PutRows(n, rows)
    ensures PutRows(n, []) == []
  {
    hide ToBits;
    assert ([row] + rows)[1..] == rows;
    assert PutRow(n, row[1..]) == [];
  }

  /** 0x40: no frame difference for the first template, one for the second, and no chains. */
  lemma FdiffByte()
    ensures PutAllFdiffs(PICTURE.fdiffs) + PutChains(1, PICTURE.chains) == ByteBits(0x40)
  {
    hide ToBits, ToNs, PutNsRow, PutRows;
    assert Width(2) == 2 && Pow2(2) == 4;
    NsForm(2, 0);
    Bits1(0);
    assert ToNs(2, 0) == [false];
    FdiffBits(1);
    Bits4(0);
    var one: seq<nat> := [1];
    assert one[1..] == [] && PutFdiffs([]) == [false];
    assert PutFdiffs(one) == [true] + ToBits(4, 16) + [false];
    var rows: seq<seq<nat>> := [[], [1]];
    assert rows[1..] == [[1]] && rows[1..][1..] == [];
    assert PutAllFdiffs(rows[1..][1..]) == [];
    assert PutAllFdiffs(rows) == [false] + ([true] + ToBits(4, 16) + [false] + []);
    TwoDigits(4, 0);
    Bits4(4);
  }

  /** The rest: the flag of the resolutions, width and height less one, and seven bits to fill the byte. */
  lemma RenderBytes(rs: seq<Resolution>)
    requires rs == [Resolution(639, 479)]
    ensures [true] + PutRenders(rs) + [false, false, false, false, false, false, false] ==
            ByteBits(0x81) + ByteBits(0x3f) + ByteBits(0x80) + ByteBits(0xef) + ByteBits(0x80)
  {
    hide ToBits;
    assert PutRenders(rs[1..]) == [];
    assert PutRenders(rs) == ToBits(16, 639) + ToBits(16, 479);
    SixteenBits(0, 2, 7, 15);
    SixteenBits(0, 1, 13, 15);
    TwoDigits(8, 1);
    TwoDigits(3, 15);
    TwoDigits(8, 0);
    TwoDigits(14, 15);
    Bits4(0);
    Bits4(1);
    Bits4(2);
    Bits4(3);
    Bits4(7);
    Bits4(8);
    Bits4(13);
    Bits4(14);
    Bits4(15);
  }

  lemma SixteenBits(a: nat, b: nat, c: nat, d: nat)
    requires a < 16 && b < 16 && c < 16 && d < 16
    ensures ToBits(16, ((a * 16 + b) * 16 + c) * 16 + d) == ToBits(4, a) + ToBits(4, b) + (ToBits(4, c) + ToBits(4, d))
  {
    hide ToBits, Pow2;
    Powers();
    BitsSplit(16, 8, 256, ((a * 16 + b) * 16 + c) * 16 + d, a * 16 + b, c * 16 + d);
    BitsSplit(8, 4, 16, a * 16 + b, a, b);
    BitsSplit(8, 4, 16, c * 16 + d, c, d);
  }

  /** The fields of the structure, one after the other. */
  lemma StructureParts()
    ensures var layers, dtis := ToBits(2, 0) + ToBits(2, 3), ToBits(2, 2) + ToBits(2, 2);
            PutStructure(PICTURE) ==
            Ok(ToBits(6, 0) + (ToBits(5, 0) + (layers + (dtis + (PutAllFdiffs(PICTURE.fdiffs)
               + (PutChains(1, PICTURE.chains) + ([true] + PutRenders(PICTURE.renders.value))))))))
  {
    hide ToBits, PutAllFdiffs, PutChains, PutRenders, PutLayers, PutRows;
    LayerByte();
    TwoBits();
    LowBits(5, 32, 0);
  }

  lemma Regroup(flags: Bits, a: Bits, b: Bits, l: Bits, d: Bits, f: Bits, c: Bits, r: Bits, pad: Bits)
    ensures flags + (a + (b + (l + (d + (f + (c + r)))))) + pad == (flags + (a + b)) + ((l + d) + ((f + c) + (r + pad)))
  {
  }

  /** The extended fields are nine bytes, the last with one bit of its own. */
  lemma BrowserExt()
    ensures PutExt(FROM_BROWSER.ext.value).Ok?
    ensures PutExt(FROM_BROWSER.ext.value).value + [false, false, false, false, false, false, false] ==
            BytesBits(BROWSER_BYTES[3..])
  {
    hide ToBits, PutAllFdiffs, PutChains, PutRenders, PutLayers, PutRows, PutStructure, ByteBits, BytesBits;
    var pad := [false, false, false, false, false, false, false];
    var flags := [true, false, false, false, false];
    var layers, dtis := ToBits(2, 0) + ToBits(2, 3), ToBits(2, 2) + ToBits(2, 2);
    var fdiffs, chains := PutAllFdiffs(PICTURE.fdiffs), PutChains(1, PICTURE.chains);
    var renders := [true] + PutRenders(PICTURE.renders.value);
    StructureParts();
    Regroup(flags, ToBits(6, 0), ToBits(5, 0), layers, dtis, fdiffs, chains, renders, pad);
    HeadBytes();
    LayerByte();
    FdiffByte();
    RenderBytes(PICTURE.renders.value);
    NineBytes(0x80, 0x00, 0x3a, 0x40, 0x81, 0x3f, 0x80, 0xef, 0x80);
    assert BROWSER_BYTES[3..] == [0x80, 0x00, 0x3a, 0x40, 0x81, 0x3f, 0x80, 0xef, 0x80];
  }

  lemma {:induction false} BytesAppend(a: seq<Byte>, b: seq<Byte>)
    ensures BytesBits(a + b) == BytesBits(a) + BytesBits(b)
  {
    if a == [] {
      assert a + b == b;
    } else {
      assert (a + b)[1..] == a[1..] + b;
      BytesAppend(a[1..], b);
    }
  }

  lemma OneByteBits(b: Byte)
    ensures BytesBits([b]) == ByteBits(b)
  {
    assert [b][1..] == [];
  }

  lemma TwoByteBits(a: Byte, b: Byte)
    ensures BytesBits([a, b]) == ByteBits(a) + ByteBits(b)
  {
    hide ByteBits, BytesBits;
    OneByteBits(a);
    OneByteBits(b);
    BytesAppend([a], [b]);
    assert [a] + [b] == [a, b];
  }

  lemma NineBytes(a: Byte, b: Byte, c: Byte, d: Byte, e: Byte, f: Byte, g: Byte, h: Byte, i: Byte)
    ensures BytesBits([a, b, c, d, e, f, g, h, i]) ==
            (ByteBits(a) + ByteBits(b)) + (ByteBits(c) + (ByteBits(d)
            + (ByteBits(e) + ByteBits(f) + ByteBits(g) + ByteBits(h) + ByteBits(i))))
  {
    hide ByteBits, BytesBits;
    TwoByteBits(a, b);
    OneByteBits(c);
    OneByteBits(d);
    TwoByteBits(e, f);
    TwoByteBits(g, h);
    OneByteBits(i);
    BytesAppend([a, b], [c] + ([d] + ([e, f] + [g, h] + [i])));
    BytesAppend([c], [d] + ([e, f] + [g, h] + [i]));
    BytesAppend([d], [e, f] + [g, h] + [i]);
    BytesAppend([e, f] + [g, h], [i]);
    BytesAppend([e, f], [g, h]);
    assert [a, b] + ([c] + ([d] + ([e, f] + [g, h] + [i]))) == [a, b, c, d, e, f, g, h, i];
    Assoc(ByteBits(e) + ByteBits(f), ByteBits(g), ByteBits(h));
  }

  /** The encoder gives the browser's bytes, up to the bits that fill the last one, and the decoder its fields. */
  lemma BrowserVector()
    ensures Encode(FROM_BROWSER).Ok?
    ensures Encode(FROM_BROWSER).value + [false, false, false, false, false, false, false] == BytesBits(BROWSER_BYTES)
    ensures Decode(BROWSER_BYTES) == Ok(FROM_BROWSER)
  {
    hide ToBits, PutExt, BytesBits, Decode, GetExt, StructureOk, Encode, Pow2;
    var pad := [false, false, false, false, false, false, false];
    var d := FROM_BROWSER;
    var head := d.(ext := None);
    BrowserExt();
    var ext := PutExt(d.ext.value).value;
    MandatoryBytes(head);
    Extended(d, head);
    BytesAppend(BROWSER_BYTES[..3], BROWSER_BYTES[3..]);
    assert BROWSER_BYTES[..3] + BROWSER_BYTES[3..] == BROWSER_BYTES;
    assert BROWSER_BYTES[..3] == [128, 0, 1];
    Assoc(Encode(head).value, ext, pad);
    BrowserLegal();
    RoundTrip(d, BROWSER_BYTES);
  }

  lemma Extended(d: Dd, head: Dd)
    requires d.ext.Some? && head == d.(ext := None) && PutExt(d.ext.value).Ok?
    ensures Encode(head).Ok? && Encode(d) == Ok(Encode(head).value + PutExt(d.ext.value).value)
  {
    hide ToBits, PutExt;
  }

  lemma BrowserLegal()
    ensures Legal(FROM_BROWSER)
  {
    assert Pow2(1) == 2;
    var ls := PICTURE.layers;
    assert ls[1..] == [Layer(0, 0)];
    assert StepsOk(ls[1..]);
    assert StepsOk(ls);
    assert RowsOk(PICTURE.dtis, 2, 1, 4);
    assert FdiffsOk(PICTURE.fdiffs, 2);
    assert StructureOk(PICTURE);
  }
}
