/**
 IQ1_M block decoding: the kernel loop with a running output index, and the reference loop with
 moving pointers, against one formula for every output slot; the packing of the scale bits; and
 the half-precision conversion of the block scale.

 Floating point is any arithmetic: both loops are proved to perform the same operations on the
 same operands, so their results agree in every bit, NaNs included.
 */
module Iq1m {
  import Rounding = RoundTowardNegative

  /** A float type with the operations the loops use. */
  datatype Arith<!F> = Arith(ofHalf: bv16 -> F, ofInt: int -> F, mul: (F, F) -> F, add: (F, F) -> F, delta: F, minusDelta: F)

  type Block = b: seq<bv8> | |b| == 56 witness seq(56, _ => 0)

  /** The shared codebook: 2048 rows of 8 small integers. */
  type Grid = (bv16, nat) -> int

  // ---------- fields of a block ----------

  function Word(b: Block, i: nat): bv16
    requires i < 4
  {
    (b[48 + 2 * i] as bv16) | ((b[49 + 2 * i] as bv16) << 8)
  }

  function Combine(w0: bv16, w1: bv16, w2: bv16, w3: bv16): bv16 {
    (w0 >> 12) | ((w1 >> 8) & 0x00f0) | ((w2 >> 4) & 0x0f00) | (w3 & 0xf000)
  }

  /** Three-bit subscale `i` of a word: the word shifted right by `3 * i`. */
  function Subscale(w: bv16, i: nat): bv16
    requires i < 4
  {
    match i
    case 0 => w & 7
    case 1 => (w >> 3) & 7
    case 2 => (w >> 6) & 7
    case 3 => (w >> 9) & 7
  }

  function GridIndex(q: bv8, h: bv8, high: bool): bv16 {
    (q as bv16) | (if high then ((h as bv16) << 4) & 0x700 else ((h as bv16) << 8) & 0x700)
  }

  function Shift(h: bv8, high: bool): bool { if high then h & 0x80 != 0 else h & 0x08 != 0 }

  // ---------- what each output slot holds ----------

  /** The scale of the first or second half of sub-block `ib`. */
  function HalfScale<F>(a: Arith<F>, b: Block, ib: nat, second: bool): F
    requires ib < 8
  {
    var d := a.ofHalf(Combine(Word(b, 0), Word(b, 1), Word(b, 2), Word(b, 3)));
    var s := Subscale(Word(b, ib / 2), 2 * (ib % 2) + if second then 1 else 0);
    a.mul(d, a.ofInt(2 * (s as int) + 1))
  }

  function LaneIndex(b: Block, ib: nat, l: nat): bv16
    requires ib < 8 && l < 4
  {
    GridIndex(b[4 * ib + l], b[32 + 2 * ib + l / 2], l % 2 == 1)
  }

  function LaneDelta<F>(a: Arith<F>, b: Block, ib: nat, l: nat): F
    requires ib < 8 && l < 4
  {
    if Shift(b[32 + 2 * ib + l / 2], l % 2 == 1) then a.minusDelta else a.delta
  }

  /** Slot `k`: sub-block, lane and element are its base-32 and base-8 digits. */
  function Slot<F>(a: Arith<F>, g: Grid, b: Block, k: nat): F
    requires k < 256
  {
    var ib, l, j := k / 32, (k % 32) / 8, k % 8;
    a.mul(HalfScale(a, b, ib, l >= 2), a.add(a.ofInt(g(LaneIndex(b, ib, l), j)), LaneDelta(a, b, ib, l)))
  }

  /** Every grid access stays within the 2048 rows. */
  lemma LaneIndexInGrid(b: Block, ib: nat, l: nat)
    requires ib < 8 && l < 4
    ensures LaneIndex(b, ib, l) < 2048
  {
    GridIndexSmall(b[4 * ib + l], b[32 + 2 * ib + l / 2], l % 2 == 1);
  }

  lemma GridIndexSmall(q: bv8, h: bv8, high: bool)
    ensures GridIndex(q, h, high) < 2048
  {
  }

  /** The low eight bits of a grid index are its lane's byte, the high three come from the low or the high
      half of the byte two lanes share, whose remaining bit is the shift's sign. */
  lemma LaneBits<F>(a: Arith<F>, b: Block, ib: nat, l: nat)
    requires ib < 8 && l < 4
    ensures var h := b[32 + 2 * ib + l / 2]; var half := if l % 2 == 0 then h & 0xf else h >> 4;
            && LaneIndex(b, ib, l) & 0xff == b[4 * ib + l] as bv16
            && LaneIndex(b, ib, l) >> 8 == (half & 7) as bv16
            && LaneDelta(a, b, ib, l) == if half >> 3 == 1 then a.minusDelta else a.delta
  {
    GridIndexBits(b[4 * ib + l], b[32 + 2 * ib + l / 2]);
  }

  lemma GridIndexBits(q: bv8, h: bv8)
    ensures GridIndex(q, h, false) & 0xff == q as bv16 && GridIndex(q, h, false) >> 8 == (h & 0xf & 7) as bv16
    ensures GridIndex(q, h, true) & 0xff == q as bv16 && GridIndex(q, h, true) >> 8 == ((h >> 4) & 7) as bv16
    ensures Shift(h, false) <==> (h & 0xf) >> 3 == 1
    ensures Shift(h, true) <==> (h >> 4) >> 3 == 1
  {
  }

  /** A scale word is two bytes, the low one first; the half-precision scale takes the top four bits of
      each word, the first word lowest. */
  lemma ScaleBits(b: Block, i: nat)
    requires i < 4
    ensures Word(b, i) & 0xff == b[48 + 2 * i] as bv16 && Word(b, i) >> 8 == b[49 + 2 * i] as bv16
    ensures var d := Combine(Word(b, 0), Word(b, 1), Word(b, 2), Word(b, 3)); var top := (b[49 + 2 * i] >> 4) as bv16;
            && (i == 0 ==> d & 0xf == top) && (i == 1 ==> (d >> 4) & 0xf == top)
            && (i == 2 ==> (d >> 8) & 0xf == top) && (i == 3 ==> d >> 12 == top)
  {
    hide Combine, Word;
    WordIs(b, i);
    CombineBits(Word(b, 0), Word(b, 1), Word(b, 2), Word(b, 3));
  }

  lemma WordIs(b: Block, i: nat)
    requires i < 4
    ensures Word(b, i) & 0xff == b[48 + 2 * i] as bv16 && Word(b, i) >> 8 == b[49 + 2 * i] as bv16
    ensures Word(b, i) >> 12 == (b[49 + 2 * i] >> 4) as bv16
  {
    WordBits(b[48 + 2 * i], b[49 + 2 * i]);
  }

  lemma WordBits(low: bv8, high: bv8)
    ensures var w := (low as bv16) | ((high as bv16) << 8);
            w & 0xff == low as bv16 && w >> 8 == high as bv16 && w >> 12 == (high >> 4) as bv16
  {
  }

  lemma CombineBits(w0: bv16, w1: bv16, w2: bv16, w3: bv16)
    ensures var d := Combine(w0, w1, w2, w3);
            d & 0xf == w0 >> 12 && (d >> 4) & 0xf == w1 >> 12 && (d >> 8) & 0xf == w2 >> 12 && d >> 12 == w3 >> 12
  {
  }

  /** Subscale `i` is bits `3 * i` to `3 * i + 2`, and the scale of a half block is the block's scale times
      twice its subscale plus one. */
  lemma HalfScaleBits<F>(a: Arith<F>, b: Block, ib: nat, second: bool)
    requires ib < 8
    ensures var w := Word(b, ib / 2); var d := Combine(Word(b, 0), Word(b, 1), Word(b, 2), Word(b, 3));
            var s := if ib % 2 == 0 then (if second then (w & 0x3f) >> 3 else w & 7)
                     else (if second then (w & 0xfff) >> 9 else (w & 0x1ff) >> 6);
            HalfScale(a, b, ib, second) == a.mul(a.ofHalf(d), a.ofInt(2 * (s as int) + 1))
  {
    hide Word, Combine;
    SubscaleBits(Word(b, ib / 2));
  }

  lemma SubscaleBits(w: bv16)
    ensures Subscale(w, 0) == w & 7 && Subscale(w, 1) == (w & 0x3f) >> 3
    ensures Subscale(w, 2) == (w & 0x1ff) >> 6 && Subscale(w, 3) == (w & 0xfff) >> 9
  {
  }

  lemma SlotAt<F>(a: Arith<F>, g: Grid, b: Block, ib: nat, l: nat, j: nat)
    requires ib < 8 && l < 4 && j < 8
    ensures Slot(a, g, b, 32 * ib + 8 * l + j)
            == a.mul(HalfScale(a, b, ib, l >= 2), a.add(a.ofInt(g(LaneIndex(b, ib, l), j)), LaneDelta(a, b, ib, l)))
  {
    hide HalfScale, LaneIndex, LaneDelta;
    var k := 32 * ib + 8 * l + j;
    assert k / 32 == ib && k % 32 == 8 * l + j && (8 * l + j) / 8 == l && k % 8 == j;
  }

  // ---------- the kernel loop ----------

  function Upto(n: nat): seq<nat> { seq(n, i => i) }

  /** Writes eight elements of one lane at the running index. */
  method KernelLane<F>(a: Arith<F>, g: Grid, ghost b: Block, out: array<F>, start: nat, ghost before: seq<nat>,
                       ghost ib: nat, l: nat, scale: F, index: bv16, delta: F)
    returns (outIdx: nat, ghost order: seq<nat>)
    requires ib < 8 && l < 4 && start == 32 * ib + 8 * l && out.Length >= 256
    requires scale == HalfScale(a, b, ib, l >= 2) && index == LaneIndex(b, ib, l) && delta == LaneDelta(a, b, ib, l)
    requires before == Upto(start)
    modifies out
    ensures outIdx == start + 8 && order == Upto(outIdx)
    ensures forall k | start <= k < start + 8 :: out[k] == Slot(a, g, b, k)
    ensures forall k | 0 <= k < out.Length && !(start <= k < start + 8) :: out[k] == old(out[k])
  {
    hide Slot, HalfScale, LaneIndex, LaneDelta;
    outIdx, order := start, before;
    for j := 0 to 8
      invariant outIdx == start + j && order == Upto(outIdx)
      invariant forall k | start <= k < start + j :: out[k] == Slot(a, g, b, k)
      invariant forall k | 0 <= k < out.Length && !(start <= k < start + j) :: out[k] == old(out[k])
    {
      SlotAt(a, g, b, ib, l, j);
      out[outIdx] := a.mul(scale, a.add(a.ofInt(g(index, j)), delta));
      order := order + [outIdx];
      outIdx := outIdx + 1;
    }
  }

  /** The four grid indices and shifts of a sub-block, read through the moving pointers. */
  method ReadLanes<F>(a: Arith<F>, b: Block, ghost ib: nat, qs: nat, qh: nat) returns (idx: seq<bv16>, delta: seq<F>)
    requires ib < 8 && qs == 4 * ib && qh == 32 + 2 * ib
    ensures |idx| == |delta| == 4
    ensures forall l | 0 <= l < 4 :: idx[l] == LaneIndex(b, ib, l) && delta[l] == LaneDelta(a, b, ib, l)
  {
    hide GridIndex, Shift, LaneIndex, LaneDelta;
    idx := [GridIndex(b[qs], b[qh], false), GridIndex(b[qs + 1], b[qh], true),
            GridIndex(b[qs + 2], b[qh + 1], false), GridIndex(b[qs + 3], b[qh + 1], true)];
    delta := [if Shift(b[qh], false) then a.minusDelta else a.delta,
              if Shift(b[qh], true) then a.minusDelta else a.delta,
              if Shift(b[qh + 1], false) then a.minusDelta else a.delta,
              if Shift(b[qh + 1], true) then a.minusDelta else a.delta];
    LaneFields(a, b, ib, idx, delta);
  }

  /** The GPU kernel's loop: pointers into the block move, one output index runs from 0 to 256.
      `order` records the slots in the order they are written. */
  method DequantKernel<F>(a: Arith<F>, g: Grid, b: Block, out: array<F>) returns (ghost order: seq<nat>)
    requires out.Length >= 256
    modifies out
    ensures forall k | 0 <= k < 256 :: out[k] == Slot(a, g, b, k)
    ensures forall k | 256 <= k < out.Length :: out[k] == old(out[k])
    ensures order == Upto(256)
  {
    hide Slot, Combine, GridIndex, Shift, Subscale, Word, HalfScale, LaneIndex, LaneDelta, Upto;
    var d := a.ofHalf(Combine(Word(b, 0), Word(b, 1), Word(b, 2), Word(b, 3)));
    var outIdx, qs, qh := 0, 0, 32;
    order := [];
    assert order == Upto(0) by { NothingYet(); }
    for ib := 0 to 8
      invariant outIdx == 32 * ib && qs == 4 * ib && qh == 32 + 2 * ib && order == Upto(outIdx)
      invariant forall k | 0 <= k < 32 * ib :: out[k] == Slot(a, g, b, k)
      invariant forall k | 32 * ib <= k < out.Length :: out[k] == old(out[k])
    {
      var w, first := Word(b, ib / 2), (ib % 2) * 2;
      var dl1 := a.mul(d, a.ofInt(2 * (Subscale(w, first) as int) + 1));
      var dl2 := a.mul(d, a.ofInt(2 * (Subscale(w, first + 1) as int) + 1));
      var idx, delta := ReadLanes(a, b, ib, qs, qh);
      HalfScales(a, b, ib, dl1, dl2);
      for l := 0 to 4
        invariant outIdx == 32 * ib + 8 * l && order == Upto(outIdx)
        invariant forall k | 0 <= k < 32 * ib + 8 * l :: out[k] == Slot(a, g, b, k)
        invariant forall k | 32 * ib + 8 * l <= k < out.Length :: out[k] == old(out[k])
      {
        outIdx, order := KernelLane(a, g, b, out, outIdx, order, ib, l, if l < 2 then dl1 else dl2, idx[l], delta[l]);
      }
      qs, qh := qs + 4, qh + 2;
    }
  }

  lemma NothingYet()
    ensures Upto(0) == []
  {
  }

  lemma HalfScales<F>(a: Arith<F>, b: Block, ib: nat, dl1: F, dl2: F)
    requires ib < 8
    requires var d := a.ofHalf(Combine(Word(b, 0), Word(b, 1), Word(b, 2), Word(b, 3)));
             && dl1 == a.mul(d, a.ofInt(2 * (Subscale(Word(b, ib / 2), 2 * (ib % 2)) as int) + 1))
             && dl2 == a.mul(d, a.ofInt(2 * (Subscale(Word(b, ib / 2), 2 * (ib % 2) + 1) as int) + 1))
    ensures dl1 == HalfScale(a, b, ib, false) && dl2 == HalfScale(a, b, ib, true)
  {
    hide Combine, Subscale, Word;
  }

  lemma LaneFields<F>(a: Arith<F>, b: Block, ib: nat, idx: seq<bv16>, delta: seq<F>)
    requires ib < 8 && |idx| == 4 && |delta| == 4
    requires idx == [GridIndex(b[4 * ib], b[32 + 2 * ib], false), GridIndex(b[4 * ib + 1], b[32 + 2 * ib], true),
                     GridIndex(b[4 * ib + 2], b[32 + 2 * ib + 1], false), GridIndex(b[4 * ib + 3], b[32 + 2 * ib + 1], true)]
    requires delta == [if Shift(b[32 + 2 * ib], false) then a.minusDelta else a.delta,
                       if Shift(b[32 + 2 * ib], true) then a.minusDelta else a.delta,
                       if Shift(b[32 + 2 * ib + 1], false) then a.minusDelta else a.delta,
                       if Shift(b[32 + 2 * ib + 1], true) then a.minusDelta else a.delta]
    ensures forall l | 0 <= l < 4 :: idx[l] == LaneIndex(b, ib, l) && delta[l] == LaneDelta(a, b, ib, l)
  {
    hide GridIndex, Shift;
    forall l | 0 <= l < 4 ensures idx[l] == LaneIndex(b, ib, l) && delta[l] == LaneDelta(a, b, ib, l) {
      if l == 0 { } else if l == 1 { } else if l == 2 { } else { }
    }
  }

  // ---------- the reference loop ----------

  /** The reference's loop: each lane is written from the output pointer `y`, which then moves by eight. */
  method DequantReference<F>(a: Arith<F>, g: Grid, b: Block, out: array<F>)
    requires out.Length >= 256
    modifies out
    ensures forall k | 0 <= k < 256 :: out[k] == Slot(a, g, b, k)
    ensures forall k | 256 <= k < out.Length :: out[k] == old(out[k])
  {
    hide Slot, Combine, GridIndex, Shift, Subscale, Word, HalfScale, LaneIndex, LaneDelta;
    var d := a.ofHalf(Combine(Word(b, 0), Word(b, 1), Word(b, 2), Word(b, 3)));
    var y, qs, qh := 0, 0, 32;
    for ib := 0 to 8
      invariant y == 32 * ib && qs == 4 * ib && qh == 32 + 2 * ib
      invariant forall k | 0 <= k < 32 * ib :: out[k] == Slot(a, g, b, k)
      invariant forall k | 32 * ib <= k < out.Length :: out[k] == old(out[k])
    {
      var w := Word(b, ib / 2);
      var dl1 := a.mul(d, a.ofInt(2 * (Subscale(w, 2 * (ib % 2)) as int) + 1));
      var dl2 := a.mul(d, a.ofInt(2 * (Subscale(w, 2 * (ib % 2) + 1) as int) + 1));
      var idx, delta := ReadLanes(a, b, ib, qs, qh);
      HalfScales(a, b, ib, dl1, dl2);
      for l := 0 to 4
        invariant y == 32 * ib + 8 * l
        invariant forall k | 0 <= k < 32 * ib + 8 * l :: out[k] == Slot(a, g, b, k)
        invariant forall k | 32 * ib + 8 * l <= k < out.Length :: out[k] == old(out[k])
      {
        ReferenceLane(a, g, b, out, y, ib, l, if l < 2 then dl1 else dl2, idx[l], delta[l]);
        y := y + 8;
      }
      qs, qh := qs + 4, qh + 2;
    }
  }

  method ReferenceLane<F>(a: Arith<F>, g: Grid, ghost b: Block, out: array<F>, y: nat, ghost ib: nat, ghost l: nat,
                          scale: F, index: bv16, delta: F)
    requires ib < 8 && l < 4 && y == 32 * ib + 8 * l && out.Length >= 256
    requires scale == HalfScale(a, b, ib, l >= 2) && index == LaneIndex(b, ib, l) && delta == LaneDelta(a, b, ib, l)
    modifies out
    ensures forall k | y <= k < y + 8 :: out[k] == Slot(a, g, b, k)
    ensures forall k | 0 <= k < out.Length && !(y <= k < y + 8) :: out[k] == old(out[k])
  {
    hide Slot, HalfScale, LaneIndex, LaneDelta;
    for j := 0 to 8
      invariant forall k | y <= k < y + j :: out[k] == Slot(a, g, b, k)
      invariant forall k | 0 <= k < out.Length && !(y <= k < y + j) :: out[k] == old(out[k])
    {
      SlotAt(a, g, b, ib, l, j);
      out[y + j] := a.mul(scale, a.add(a.ofInt(g(index, j)), delta));
    }
  }

  // ---------- the 64 scale bits ----------

  /** Four bits of the half-precision scale. */
  function Nibble(d: bv16, i: nat): bv16
    requires i < 4
  {
    match i
    case 0 => d & 0xf
    case 1 => (d >> 4) & 0xf
    case 2 => (d >> 8) & 0xf
    case 3 => (d >> 12) & 0xf
  }

  /** Four bits of the scale at the top of a word and four subscales below them. */
  function PackWord(nibble: bv16, s0: bv16, s1: bv16, s2: bv16, s3: bv16): bv16 {
    (nibble << 12) | (s3 << 9) | (s2 << 6) | (s1 << 3) | s0
  }

  predicate Small(s: seq<bv16>) { forall i | 0 <= i < |s| :: s[i] <= 7 }

  function PackScales(d: bv16, s: seq<bv16>): (w: seq<bv16>)
    requires |s| == 16
    ensures |w| == 4
  {
    [PackWord(Nibble(d, 0), s[0], s[1], s[2], s[3]), PackWord(Nibble(d, 1), s[4], s[5], s[6], s[7]),
     PackWord(Nibble(d, 2), s[8], s[9], s[10], s[11]), PackWord(Nibble(d, 3), s[12], s[13], s[14], s[15])]
  }

  function WordSubscales(w: bv16): (s: seq<bv16>)
    ensures |s| == 4
  {
    [Subscale(w, 0), Subscale(w, 1), Subscale(w, 2), Subscale(w, 3)]
  }

  function Subscales(w: seq<bv16>): (s: seq<bv16>)
    requires |w| == 4
    ensures |s| == 16
  {
    WordSubscales(w[0]) + WordSubscales(w[1]) + WordSubscales(w[2]) + WordSubscales(w[3])
  }

  lemma SubscalesOfPacked(nibble: bv16, s0: bv16, s1: bv16, s2: bv16, s3: bv16)
    requires nibble <= 0xf && s0 <= 7 && s1 <= 7 && s2 <= 7 && s3 <= 7
    ensures WordSubscales(PackWord(nibble, s0, s1, s2, s3)) == [s0, s1, s2, s3]
    ensures Top(PackWord(nibble, s0, s1, s2, s3)) == nibble
  {
  }

  lemma NibbleSmall(d: bv16)
    ensures Nibble(d, 0) <= 0xf && Nibble(d, 1) <= 0xf && Nibble(d, 2) <= 0xf && Nibble(d, 3) <= 0xf
  {
  }

  function Top(w: bv16): bv16 { w >> 12 }

  /** Combining the four tops that `d` was cut into gives `d`. */
  lemma CombineNibbles(d: bv16, w0: bv16, w1: bv16, w2: bv16, w3: bv16)
    requires Top(w0) == Nibble(d, 0) && Top(w1) == Nibble(d, 1) && Top(w2) == Nibble(d, 2) && Top(w3) == Nibble(d, 3)
    ensures Combine(w0, w1, w2, w3) == d
  {
    assert (w1 >> 8) & 0x00f0 == (w1 >> 12) << 4;
    assert (w2 >> 4) & 0x0f00 == (w2 >> 12) << 8;
    assert w3 & 0xf000 == (w3 >> 12) << 12;
  }

  lemma NibblesOfCombine(w0: bv16, w1: bv16, w2: bv16, w3: bv16)
    ensures var d := Combine(w0, w1, w2, w3);
            Nibble(d, 0) == Top(w0) && Nibble(d, 1) == Top(w1) && Nibble(d, 2) == Top(w2) && Nibble(d, 3) == Top(w3)
  {
  }

  /** Packing then unpacking returns the scale and all sixteen subscales. */
  lemma ScalesUnpack(d: bv16, s: seq<bv16>)
    requires |s| == 16 && Small(s)
    ensures var w := PackScales(d, s);
            Combine(w[0], w[1], w[2], w[3]) == d && Subscales(w) == s
  {
    hide PackWord, Combine, Nibble, Top, WordSubscales;
    var w := PackScales(d, s);
    NibbleSmall(d);
    SubscalesOfPacked(Nibble(d, 0), s[0], s[1], s[2], s[3]);
    SubscalesOfPacked(Nibble(d, 1), s[4], s[5], s[6], s[7]);
    SubscalesOfPacked(Nibble(d, 2), s[8], s[9], s[10], s[11]);
    SubscalesOfPacked(Nibble(d, 3), s[12], s[13], s[14], s[15]);
    CombineNibbles(d, w[0], w[1], w[2], w[3]);
  }

  lemma RepackWord(w: bv16)
    ensures PackWord(Top(w), Subscale(w, 0), Subscale(w, 1), Subscale(w, 2), Subscale(w, 3)) == w
    ensures Subscale(w, 0) <= 7 && Subscale(w, 1) <= 7 && Subscale(w, 2) <= 7 && Subscale(w, 3) <= 7
  {
  }

  lemma RepackSubscales(w: bv16)
    ensures var s := WordSubscales(w); PackWord(Top(w), s[0], s[1], s[2], s[3]) == w && Small(s)
  {
    hide PackWord, Top, Subscale;
    RepackWord(w);
  }

  /** Unpacking then packing returns the four words: no bit is read twice and none is dropped. */
  lemma ScalesRepack(w: seq<bv16>)
    requires |w| == 4
    ensures Small(Subscales(w))
    ensures PackScales(Combine(w[0], w[1], w[2], w[3]), Subscales(w)) == w
  {
    hide PackWord, Combine, Nibble, Top, WordSubscales;
    NibblesOfCombine(w[0], w[1], w[2], w[3]);
    RepackSubscales(w[0]);
    RepackSubscales(w[1]);
    RepackSubscales(w[2]);
    RepackSubscales(w[3]);
  }

  // ---------- half to single precision ----------

  const FP16 := Rounding.Format(31, 10)

  /** The single-precision pattern for a half-precision one; the fields do not overlap, so `|` is `+`. */
  function HalfToSingle(h: nat): nat
    requires h < 0x1_0000
  {
    var sign, exp, man := h / 0x8000 * 0x8000_0000, h / 0x400 % 0x20, h % 0x400;
    if exp == 0 then sign + (if man != 0 then (127 - 15) * 0x80_0000 + man * 0x2000 else 0)
    else if exp == 31 then sign + 0x7F80_0000 + man * 0x2000
    else sign + (exp - 15 + 127) * 0x80_0000 + man * 0x2000
  }

  lemma HalfConstants()
    ensures Rounding.Pow2(10) == 0x400 && Rounding.Pow2(23) == 0x80_0000 && Rounding.Pow2(13) == 0x2000
  {
    Rounding.Pow2Constants();
    Rounding.Pow2Add(7, 3);
    Rounding.Pow2Add(7, 6);
    assert Rounding.Pow2(6) == 64;
  }

  /** On every half that is not a NaN the conversion keeps the value exactly unless the half is a
      nonzero subnormal; a mantissa m then counts as (0x400 + m) / 2 instead of m, under the same sign.
      Values are counted in the smallest single subnormal. */
  lemma HalfToSingleExact(h: nat)
    requires h < 0x1_0000 && !FP16.IsNaN(h)
    ensures FP16.IsBits(h) && Rounding.FP32.IsBits(HalfToSingle(h)) && !Rounding.FP32.IsNaN(HalfToSingle(h))
    ensures Rounding.ValueOf(Rounding.FP32, HalfToSingle(h), 1) == Rounding.ValueOf(FP16, h, Rounding.Pow2(125))
            <==> h / 0x400 % 0x20 != 0 || h % 0x400 == 0
    ensures h / 0x400 % 0x20 == 0 && h % 0x400 != 0 ==>
              var v := (0x400 + h % 0x400) * Rounding.Pow2(124);
              Rounding.ValueOf(Rounding.FP32, HalfToSingle(h), 1) == Rounding.Finite(if h / 0x8000 == 1 then -v else v)
  {
    hide Rounding.FiniteMagnitude, Rounding.Pow2;
    HalfConstants();
    var m := h % 0x8000;
    assert FP16.Magnitude(h) == m;
    if m < 0x7C00 { HalfMagnitudes(m); }
    if h / 0x400 % 0x20 == 0 && h % 0x400 != 0 { SubnormalValue(h); }
  }

  /** What a nonzero subnormal becomes. */
  lemma SubnormalValue(h: nat)
    requires h < 0x1_0000 && h / 0x400 % 0x20 == 0 && h % 0x400 != 0
    ensures Rounding.FP32.IsBits(HalfToSingle(h)) && !Rounding.FP32.IsNaN(HalfToSingle(h))
    ensures var v := (0x400 + h % 0x400) * Rounding.Pow2(124);
            Rounding.ValueOf(Rounding.FP32, HalfToSingle(h), 1) == Rounding.Finite(if h / 0x8000 == 1 then -v else v)
  {
    hide Rounding.FiniteMagnitude, Rounding.Pow2;
    HalfConstants();
    var m := h % 0x400;
    HalfMagnitudes(m);
    assert Rounding.FP32.Magnitude(HalfToSingle(h)) == 112 * 0x80_0000 + m * 0x2000;
  }

  /** NaNs stay NaNs. */
  lemma HalfNaN(h: nat)
    requires h < 0x1_0000
    ensures FP16.IsNaN(h) <==> Rounding.FP32.IsNaN(HalfToSingle(h))
  {
    hide Rounding.Pow2;
    HalfConstants();
  }

  /** Every conversion keeps the sign, and the mantissa at the top of the longer one. */
  lemma HalfKeepsFields(h: nat)
    requires h < 0x1_0000
    ensures HalfToSingle(h) / 0x8000_0000 == h / 0x8000
    ensures HalfToSingle(h) % 0x80_0000 == h % 0x400 * 0x2000
  {
  }

  /** The magnitudes behind the conversion. */
  lemma HalfMagnitudes(m: nat)
    requires m < 0x7C00
    ensures var e, f := m / 0x400, m % 0x400;
            var single := if e == 0 then (if f != 0 then 112 * 0x80_0000 + f * 0x2000 else 0)
                          else (e + 112) * 0x80_0000 + f * 0x2000;
            Rounding.FiniteMagnitude(23, single) == Rounding.FiniteMagnitude(10, m) * Rounding.Pow2(125)
            <==> e != 0 || f == 0
    ensures m < 0x400 && m != 0 ==>
              Rounding.FiniteMagnitude(23, 112 * 0x80_0000 + m * 0x2000) == (0x400 + m) * Rounding.Pow2(124)
  {
    hide Rounding.FiniteMagnitude, Rounding.Pow2, Rounding.Product;
    HalfConstants();
    var e, f := m / 0x400, m % 0x400;
    Rounding.FiniteMagnitudeAt(10, e, f);
    assert m == e * 0x400 + f;
    if e == 0 && f == 0 {
      Rounding.MagnitudeOfZero(23);
    } else if e == 0 {
      Rounding.FiniteMagnitudeAt(23, 112, f * 0x2000);
      SubnormalDiffers(f);
      SubnormalBecomes(f);
    } else {
      Rounding.FiniteMagnitudeAt(23, e + 112, f * 0x2000);
      NormalKept(e, f);
    }
  }

  lemma NormalKept(e: nat, f: nat)
    requires e > 0
    ensures Rounding.Product(0x80_0000 + f * 0x2000, Rounding.Pow2(e + 111))
            == Rounding.Product(0x400 + f, Rounding.Pow2(e - 1)) * Rounding.Pow2(125)
  {
    hide Rounding.Pow2;
    HalfConstants();
    Rounding.Pow2Add(13, e + 111);
    Rounding.Pow2Add(e - 1, 125);
    assert 13 + (e + 111) == (e - 1) + 125;
    var x, p, q, r := 0x400 + f, Rounding.Pow2(e + 111), Rounding.Pow2(e - 1), Rounding.Pow2(125);
    assert 0x80_0000 + f * 0x2000 == 0x2000 * x;
    assert (0x2000 * x) * p == x * (0x2000 * p);
    assert x * (q * r) == (x * q) * r;
  }

  lemma SubnormalDiffers(f: nat)
    requires 0 < f < 0x400
    ensures Rounding.Product(0x80_0000 + f * 0x2000, Rounding.Pow2(111)) != f * Rounding.Pow2(125)
  {
    hide Rounding.Pow2;
    HalfConstants();
    Rounding.Pow2Add(14, 111);
    Rounding.Pow2Add(13, 1);
    assert Rounding.Pow2(14) == 0x4000 by { SmallPowers(); }
    var p := Rounding.Pow2(111);
    assert 14 + 111 == 125;
    assert f * (0x4000 * p) == (f * 0x4000) * p;
    Rounding.ScaleOrder(f * 0x4000, 0x80_0000 + f * 0x2000, p);
  }

  /** Its exponent is read as that of a normal number one step further down. */
  lemma SubnormalBecomes(f: nat)
    ensures Rounding.Product(0x80_0000 + f * 0x2000, Rounding.Pow2(111)) == (0x400 + f) * Rounding.Pow2(124)
  {
    hide Rounding.Pow2;
    HalfConstants();
    Rounding.Pow2Add(13, 111);
    var x, p := 0x400 + f, Rounding.Pow2(111);
    assert 0x80_0000 + f * 0x2000 == x * 0x2000;
    assert (x * 0x2000) * p == x * (0x2000 * p);
  }

  lemma SmallPowers()
    ensures Rounding.Pow2(14) == 0x4000
  {
    Rounding.Pow2Add(7, 7);
    Rounding.Pow2Constants();
  }
}
