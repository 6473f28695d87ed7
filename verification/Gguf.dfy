/**
 The GGUF v3 fixture writer: metadata, tensor infos with zero offsets that are patched in place
 afterwards, padding, and the payloads; against a reader of the version 3 layout.
 */
module Gguf {
  import opened Basics
  import opened Bytes

  type Raw = seq<byte>

  datatype Kv = Str(key: Raw, text: Raw) | U32(key: Raw, num: nat)

  datatype Tensor = Tensor(name: Raw, dims: seq<nat>, payload: Raw)

  const MAGIC: Raw := [0x47, 0x47, 0x55, 0x46]
  const ALIGNMENT := 32

  // ---------- layout ----------

  /** A length-prefixed string. */
  function Prefixed(s: Raw): Raw { LittleEndian(|s|, 8) + s }

  function KvBytes(kv: Kv): Raw {
    match kv
    case Str(key, text) => Prefixed(key) + (LittleEndian(8, 4) + Prefixed(text))
    case U32(key, num) => Prefixed(key) + (LittleEndian(4, 4) + LittleEndian(num, 4))
  }

  function KvsBytes(kvs: seq<Kv>): Raw {
    if kvs == [] then [] else KvBytes(kvs[0]) + KvsBytes(kvs[1..])
  }

  function DimsBytes(dims: seq<nat>): Raw {
    if dims == [] then [] else LittleEndian(dims[0], 8) + DimsBytes(dims[1..])
  }

  /** Everything of a tensor info before its offset: name, rank, dims and the F32 type code. */
  function InfoHead(t: Tensor): Raw {
    Prefixed(t.name) + (LittleEndian(|t.dims|, 4) + (DimsBytes(t.dims) + LittleEndian(0, 4)))
  }

  function InfoBytes(t: Tensor, off: nat): Raw { InfoHead(t) + LittleEndian(off, 8) }

  /** Infos `from ..`, the first `patched` tensors with their offsets and the others with zero. */
  function InfosFrom(ts: seq<Tensor>, patched: nat, from: nat): Raw
    requires from <= |ts|
    decreases |ts| - from
  {
    if from == |ts| then []
    else InfoBytes(ts[from], if from < patched then OffsetOf(ts, from) else 0) + InfosFrom(ts, patched, from + 1)
  }

  /** The total size of the payloads before tensor `i`. */
  function OffsetOf(ts: seq<Tensor>, i: nat): nat
    requires i <= |ts|
  {
    if i == 0 then 0 else OffsetOf(ts, i - 1) + |ts[i - 1].payload|
  }

  function PayloadsFrom(ts: seq<Tensor>, from: nat): Raw
    requires from <= |ts|
    decreases |ts| - from
  {
    if from == |ts| then [] else ts[from].payload + PayloadsFrom(ts, from + 1)
  }

  function Header(kvs: seq<Kv>, count: nat): Raw {
    MAGIC + (LittleEndian(3, 4) + (LittleEndian(count, 8) + (LittleEndian(|kvs|, 8) + KvsBytes(kvs))))
  }

  function PadLength(n: nat): nat { (ALIGNMENT - n % ALIGNMENT) % ALIGNMENT }

  function Zeros(n: nat): Raw { seq(n, _ => 0) }

  function FileBytes(kvs: seq<Kv>, ts: seq<Tensor>): Raw {
    var front := Header(kvs, |ts|) + InfosFrom(ts, |ts|, 0);
    front + Zeros(PadLength(|front|)) + PayloadsFrom(ts, 0)
  }

  // ---------- the writer ----------

  function InfosSize(ts: seq<Tensor>, n: nat): nat
    requires n <= |ts|
  {
    if n == 0 then 0 else InfosSize(ts, n - 1) + |InfoHead(ts[n - 1])| + 8
  }

  lemma {:induction false} DimsSize(dims: seq<nat>)
    ensures |DimsBytes(dims)| == 8 * |dims|
  {
    if dims != [] { DimsSize(dims[1..]); }
  }

  /** The cursor step of the patch loop is the length of an info up to its offset. */
  lemma HeadSize(t: Tensor)
    ensures |InfoHead(t)| == 8 + |t.name| + 4 + 8 * |t.dims| + 4
  {
    DimsSize(t.dims);
  }

  /** Patching one more tensor rewrites exactly the eight bytes at the cursor. */
  lemma {:induction false} PatchOne(ts: seq<Tensor>, n: nat, from: nat)
    requires from <= n < |ts|
    ensures var a, b := InfosFrom(ts, n, from), InfosFrom(ts, n + 1, from);
            var p := InfosSize(ts, n) - InfosSize(ts, from) + |InfoHead(ts[n])|;
            && |a| == |b| == InfosSize(ts, |ts|) - InfosSize(ts, from)
            && 0 <= p && p + 8 <= |a|
            && b == a[..p] + LittleEndian(OffsetOf(ts, n), 8) + a[p + 8..]
    decreases n - from
  {
    hide InfoHead, LittleEndian, OffsetOf, InfosFrom, InfosSize;
    InfosFirst(ts, n, from);
    InfosFirst(ts, n + 1, from);
    if from == n {
      LaterUnpatched(ts, n, n + 1, n + 1);
      InfosSizeStep(ts, n);
      PatchHead(InfoHead(ts[n]), LittleEndian(0, 8), LittleEndian(OffsetOf(ts, n), 8), InfosFrom(ts, n, n + 1));
    } else {
      PatchOne(ts, n, from + 1);
      var first := InfoBytes(ts[from], OffsetOf(ts, from));
      var a, b := InfosFrom(ts, n, from + 1), InfosFrom(ts, n + 1, from + 1);
      InfosSizeStep(ts, from);
      PrependPatch(first, a, b, LittleEndian(OffsetOf(ts, n), 8),
                   InfosSize(ts, n) - InfosSize(ts, from + 1) + |InfoHead(ts[n])|);
    }
  }

  lemma InfosFirst(ts: seq<Tensor>, patched: nat, from: nat)
    requires from < |ts|
    ensures InfosFrom(ts, patched, from) ==
            InfoBytes(ts[from], if from < patched then OffsetOf(ts, from) else 0) + InfosFrom(ts, patched, from + 1)
  {
  }

  lemma InfosSizeStep(ts: seq<Tensor>, from: nat)
    requires from < |ts|
    ensures InfosSize(ts, from + 1) == InfosSize(ts, from) + |InfoHead(ts[from])| + 8
  {
  }

  lemma PatchHead(head: Raw, was: Raw, word: Raw, rest: Raw)
    requires |was| == |word| == 8
    ensures var a, b := (head + was) + rest, (head + word) + rest;
            |a| == |b| && b == a[..|head|] + word + a[|head| + 8..]
  {
    var a := (head + was) + rest;
    assert a[..|head|] == head && a[|head| + 8..] == rest;
  }

  lemma PrependPatch(first: Raw, a: Raw, b: Raw, word: Raw, p: nat)
    requires |word| == 8 && p + 8 <= |a| && b == a[..p] + word + a[p + 8..]
    ensures var f := |first|; first + b == (first + a)[..f + p] + word + (first + a)[f + p + 8..]
  {
    assert (first + a)[..|first| + p] == first + a[..p];
    assert (first + a)[|first| + p + 8..] == a[p + 8..];
  }

  /** Beyond the patched tensors nothing depends on how many are patched. */
  lemma {:induction false} LaterUnpatched(ts: seq<Tensor>, n: nat, m: nat, from: nat)
    requires n <= from && m <= from <= |ts|
    ensures InfosFrom(ts, n, from) == InfosFrom(ts, m, from)
    ensures |InfosFrom(ts, n, from)| == InfosSize(ts, |ts|) - InfosSize(ts, from)
    decreases |ts| - from
  {
    hide InfoHead, LittleEndian;
    if from < |ts| { LaterUnpatched(ts, n, m, from + 1); }
  }

  method PackInto(buffer: array<byte>, p: nat, value: nat)
    requires p + 8 <= buffer.Length
    modifies buffer
    ensures buffer[..] == old(buffer[..p]) + LittleEndian(value, 8) + old(buffer[p + 8..])
  {
    var word := LittleEndian(value, 8);
    for i := 0 to 8
      invariant forall j | 0 <= j < i :: buffer[p + j] == word[j]
      invariant forall j | 0 <= j < buffer.Length && !(p <= j < p + i) :: buffer[j] == old(buffer[j])
    {
      buffer[p + i] := word[i];
    }
    assert buffer[..p] == old(buffer[..p]) && buffer[p..p + 8] == word && buffer[p + 8..] == old(buffer[p + 8..]);
    assert buffer[..] == buffer[..p] + buffer[p..p + 8] + buffer[p + 8..];
  }

  /** The back-patch loop: two cursors, one through the infos and one through the payload sizes. */
  method PatchOffsets(infos: array<byte>, ts: seq<Tensor>)
    requires infos[..] == InfosFrom(ts, 0, 0)
    modifies infos
    ensures infos[..] == InfosFrom(ts, |ts|, 0)
  {
    hide InfosFrom, LittleEndian, DimsBytes, InfoHead;
    var p, off := 0, 0;
    for n := 0 to |ts|
      invariant p == InfosSize(ts, n) && off == OffsetOf(ts, n)
      invariant infos[..] == InfosFrom(ts, n, 0)
    {
      var t := ts[n];
      HeadSize(t);
      PatchOne(ts, n, 0);
      p := p + 8 + |t.name| + 4 + 8 * |t.dims| + 4;
      PackInto(infos, p, off);
      p := p + 8;
      off := off + |t.payload|;
    }
  }

  lemma {:induction false} InfosAppend(ts: seq<Tensor>, n: nat, from: nat)
    requires from <= n < |ts|
    ensures InfosFrom(ts[..n + 1], 0, from) == InfosFrom(ts[..n], 0, from) + InfoBytes(ts[n], 0)
    decreases n - from
  {
    hide InfoBytes;
    if from == n {
      assert InfosFrom(ts[..n + 1], 0, n + 1) == [];
    } else {
      InfosAppend(ts, n, from + 1);
      var first := InfoBytes(ts[from], 0);
      assert first + (InfosFrom(ts[..n], 0, from + 1) + InfoBytes(ts[n], 0))
          == (first + InfosFrom(ts[..n], 0, from + 1)) + InfoBytes(ts[n], 0);
    }
  }

  lemma {:induction false} PayloadsAppend(ts: seq<Tensor>, n: nat, from: nat)
    requires from <= n < |ts|
    ensures PayloadsFrom(ts[..n + 1], from) == PayloadsFrom(ts[..n], from) + ts[n].payload
    decreases n - from
  {
    if from == n {
      assert PayloadsFrom(ts[..n + 1], n + 1) == [];
    } else {
      PayloadsAppend(ts, n, from + 1);
      assert ts[from].payload + (PayloadsFrom(ts[..n], from + 1) + ts[n].payload)
          == (ts[from].payload + PayloadsFrom(ts[..n], from + 1)) + ts[n].payload;
    }
  }

  method WriteInfos(ts: seq<Tensor>) returns (infos: Raw)
    ensures infos == InfosFrom(ts, 0, 0)
  {
    hide InfosFrom, LittleEndian, DimsBytes;
    infos := [];
    assert InfosFrom(ts[..0], 0, 0) == [] by { NoInfos(ts[..0]); }
    for n := 0 to |ts|
      invariant infos == InfosFrom(ts[..n], 0, 0)
    {
      var t := ts[n];
      InfosAppend(ts, n, 0);
      infos := infos + (Prefixed(t.name) + (LittleEndian(|t.dims|, 4) + (DimsBytes(t.dims) + LittleEndian(0, 4)))
                        + LittleEndian(0, 8));
    }
    assert ts[..|ts|] == ts;
  }

  lemma NoInfos(ts: seq<Tensor>)
    requires ts == []
    ensures InfosFrom(ts, 0, 0) == []
  {
  }

  method WriteGguf(kvs: seq<Kv>, ts: seq<Tensor>) returns (file: Raw)
    ensures file == FileBytes(kvs, ts)
  {
    hide InfosFrom, LittleEndian, KvsBytes;
    var hdr := MAGIC + (LittleEndian(3, 4) + (LittleEndian(|ts|, 8) + (LittleEndian(|kvs|, 8) + KvsBytes(kvs))));
    var placeholders := WriteInfos(ts);
    var infos := new byte[|placeholders|](i requires 0 <= i < |placeholders| => placeholders[i]);
    assert infos[..] == placeholders;
    var pad := PadLength(|hdr| + infos.Length);
    PatchOffsets(infos, ts);
    var patched := infos[..];
    var data: Raw := [];
    for n := 0 to |ts|
      invariant data == PayloadsFrom(ts[..n], 0)
    {
      PayloadsAppend(ts, n, 0);
      data := data + ts[n].payload;
    }
    assert ts[..|ts|] == ts;
    assert |hdr + patched| == |hdr| + infos.Length;
    file := hdr + patched + Zeros(pad) + data;
  }

  // ---------- a reader of the version 3 layout ----------

  function ReadWord(bs: Raw, width: nat): Option<(nat, Raw)> {
    if |bs| < width then None else Some((FromLittleEndian(bs[..width]), bs[width..]))
  }

  function ReadPrefixed(bs: Raw): Option<(Raw, Raw)> {
    var (n, rest) :- ReadWord(bs, 8);
    if |rest| < n then None else Some((rest[..n], rest[n..]))
  }

  function ReadKv(bs: Raw): Option<(Kv, Raw)> {
    var (key, b1) :- ReadPrefixed(bs);
    var (kind, b2) :- ReadWord(b1, 4);
    if kind == 8 then
      var (text, b3) :- ReadPrefixed(b2);
      Some((Str(key, text), b3))
    else if kind == 4 then
      var (num, b3) :- ReadWord(b2, 4);
      Some((U32(key, num), b3))
    else None
  }

  function ReadKvs(bs: Raw, count: nat): Option<(seq<Kv>, Raw)>
    decreases count
  {
    if count == 0 then Some(([], bs))
    else
      var (kv, b1) :- ReadKv(bs);
      var (more, b2) :- ReadKvs(b1, count - 1);
      Some(([kv] + more, b2))
  }

  function ReadDims(bs: Raw, count: nat): Option<(seq<nat>, Raw)>
    decreases count
  {
    if count == 0 then Some(([], bs))
    else
      var (d, b1) :- ReadWord(bs, 8);
      var (more, b2) :- ReadDims(b1, count - 1);
      Some(([d] + more, b2))
  }

  datatype Info = Info(name: Raw, dims: seq<nat>, off: nat)

  function ReadInfo(bs: Raw): Option<(Info, Raw)> {
    var (name, b1) :- ReadPrefixed(bs);
    var (rank, b2) :- ReadWord(b1, 4);
    var (dims, b3) :- ReadDims(b2, rank);
    var (kind, b4) :- ReadWord(b3, 4);
    var (off, b5) :- ReadWord(b4, 8);
    if kind == 0 then Some((Info(name, dims, off), b5)) else None
  }

  function ReadInfos(bs: Raw, count: nat): Option<(seq<Info>, Raw)>
    decreases count
  {
    if count == 0 then Some(([], bs))
    else
      match ReadInfo(bs)
      case None => None
      case Some(p) =>
        match ReadInfos(p.1, count - 1)
        case None => None
        case Some(q) => Some(([p.0] + q.0, q.1))
  }

  function Elements(dims: seq<nat>): nat {
    if dims == [] then 1 else dims[0] * Elements(dims[1..])
  }

  /** The payload an info points at: four bytes an element, from the start of the data section. */
  /** The elements of dimensions in two parts are as many as the product says. */
  lemma {:induction false} ElementsConcat(a: seq<nat>, b: seq<nat>)
    ensures Elements(a + b) == Elements(a) * Elements(b) && (|a| == 1 ==> Elements(a) == a[0])
  {
    if a == [] {
      assert a + b == b;
    } else {
      ElementsConcat(a[1..], b);
      assert (a + b)[1..] == a[1..] + b;
      TimesRegroup(a[0], Elements(a[1..]), Elements(b));
    }
  }

  function ReadTensor(i: Info, data: Raw): Option<Tensor> {
    var size := Elements(i.dims) * 4;
    if i.off + size <= |data| then Some(Tensor(i.name, i.dims, data[i.off..i.off + size])) else None
  }

  function ReadTensors(infos: seq<Info>, data: Raw): Option<seq<Tensor>> {
    if infos == [] then Some([])
    else
      var t :- ReadTensor(infos[0], data);
      var more :- ReadTensors(infos[1..], data);
      Some([t] + more)
  }

  /** Magic, version, the two counts. */
  function ReadCounts(file: Raw): Option<((nat, nat), Raw)> {
    var (magic, b1) :- if |file| < 4 then None else Some((file[..4], file[4..]));
    var (version, b2) :- ReadWord(b1, 4);
    var (tensors, b3) :- ReadWord(b2, 8);
    var (kvs, b4) :- ReadWord(b3, 8);
    if magic == MAGIC && version == 3 then Some(((tensors, kvs), b4)) else None
  }

  function ReadGguf(file: Raw): Option<(seq<Kv>, seq<Tensor>)> {
    var ((tensorCount, kvCount), b1) :- ReadCounts(file);
    var (kvs, b2) :- ReadKvs(b1, kvCount);
    var (infos, b3) :- ReadInfos(b2, tensorCount);
    var pad := PadLength(if |b3| <= |file| then |file| - |b3| else 0);
    if |b3| < pad then None
    else
      var ts :- ReadTensors(infos, b3[pad..]);
      Some((kvs, ts))
  }

  // ---------- reading back ----------

  predicate Fits(kvs: seq<Kv>, ts: seq<Tensor>) {
    && |kvs| < Bound(8) && |ts| < Bound(8)
    && (forall i | 0 <= i < |kvs| :: KvFits(kvs[i]))
    && (forall i | 0 <= i < |ts| :: TensorFits(ts[i]))
    && OffsetOf(ts, |ts|) < Bound(8)
  }

  /** What the fixed-width fields can hold. */
  predicate KvFits(kv: Kv) {
    |kv.key| < Bound(8) && match kv case Str(_, text) => |text| < Bound(8) case U32(_, num) => num < Bound(4)
  }

  predicate TensorFits(t: Tensor) {
    |t.name| < Bound(8) && |t.dims| < Bound(4) && forall i | 0 <= i < |t.dims| :: t.dims[i] < Bound(8)
  }

  lemma ReadBackWord(n: nat, width: nat, rest: Raw)
    requires n < Bound(width)
    ensures ReadWord(LittleEndian(n, width) + rest, width) == Some((n, rest))
  {
    hide LittleEndian, FromLittleEndian, Bound;
    LittleEndianRoundTrip(n, width);
    var bs := LittleEndian(n, width) + rest;
    assert bs[..width] == LittleEndian(n, width) && bs[width..] == rest;
  }

  lemma SmallConstants()
    ensures Bound(4) > 8
  {
    assert Bound(4) == 256 * Bound(3);
  }

  lemma ReadBackPrefixed(s: Raw, rest: Raw)
    requires |s| < Bound(8)
    ensures ReadPrefixed(Prefixed(s) + rest) == Some((s, rest))
  {
    hide LittleEndian, FromLittleEndian, Bound, ReadWord;
    assert Prefixed(s) + rest == LittleEndian(|s|, 8) + (s + rest);
    ReadBackWord(|s|, 8, s + rest);
    assert (s + rest)[..|s|] == s && (s + rest)[|s|..] == rest;
  }

  lemma ReadBackKv(kv: Kv, rest: Raw)
    requires KvFits(kv)
    ensures ReadKv(KvBytes(kv) + rest) == Some((kv, rest))
  {
    hide LittleEndian, Bound, ReadWord, ReadPrefixed, Prefixed;
    SmallConstants();
    match kv {
      case Str(key, text) =>
        var b2 := Prefixed(text) + rest;
        assert KvBytes(kv) + rest == Prefixed(key) + (LittleEndian(8, 4) + b2);
        ReadBackPrefixed(key, LittleEndian(8, 4) + b2);
        ReadBackWord(8, 4, b2);
        ReadBackPrefixed(text, rest);
      case U32(key, num) =>
        var b2 := LittleEndian(num, 4) + rest;
        assert KvBytes(kv) + rest == Prefixed(key) + (LittleEndian(4, 4) + b2);
        ReadBackPrefixed(key, LittleEndian(4, 4) + b2);
        ReadBackWord(4, 4, b2);
        ReadBackWord(num, 4, rest);
    }
  }

  lemma {:induction false} ReadBackKvs(kvs: seq<Kv>, rest: Raw)
    requires forall i | 0 <= i < |kvs| :: KvFits(kvs[i])
    ensures ReadKvs(KvsBytes(kvs) + rest, |kvs|) == Some((kvs, rest))
  {
    hide KvFits, KvBytes, ReadKv;
    if kvs == [] {
      assert [] + rest == rest;
    } else {
      assert KvsBytes(kvs) + rest == KvBytes(kvs[0]) + (KvsBytes(kvs[1..]) + rest);
      ReadBackKv(kvs[0], KvsBytes(kvs[1..]) + rest);
      ReadBackKvs(kvs[1..], rest);
      assert [kvs[0]] + kvs[1..] == kvs;
    }
  }

  lemma {:induction false} ReadBackDims(dims: seq<nat>, rest: Raw)
    requires forall i | 0 <= i < |dims| :: dims[i] < Bound(8)
    ensures ReadDims(DimsBytes(dims) + rest, |dims|) == Some((dims, rest))
  {
    hide LittleEndian, Bound, ReadWord;
    if dims == [] {
      assert [] + rest == rest;
    } else {
      assert DimsBytes(dims) + rest == LittleEndian(dims[0], 8) + (DimsBytes(dims[1..]) + rest);
      ReadBackWord(dims[0], 8, DimsBytes(dims[1..]) + rest);
      ReadBackDims(dims[1..], rest);
      assert [dims[0]] + dims[1..] == dims;
    }
  }

  lemma ReadBackInfo(t: Tensor, off: nat, rest: Raw)
    requires TensorFits(t) && off < Bound(8)
    ensures ReadInfo(InfoBytes(t, off) + rest) == Some((Info(t.name, t.dims, off), rest))
  {
    hide LittleEndian, Bound, ReadWord, ReadPrefixed, Prefixed, DimsBytes, ReadDims;
    SmallConstants();
    var b4 := LittleEndian(off, 8) + rest;
    var b3 := LittleEndian(0, 4) + b4;
    var b2 := DimsBytes(t.dims) + b3;
    var b1 := LittleEndian(|t.dims|, 4) + b2;
    AssocHead(Prefixed(t.name), LittleEndian(|t.dims|, 4), DimsBytes(t.dims), LittleEndian(0, 4),
              LittleEndian(off, 8), rest);
    ReadBackPrefixed(t.name, b1);
    ReadBackWord(|t.dims|, 4, b2);
    ReadBackDims(t.dims, b3);
    ReadBackWord(0, 4, b4);
    ReadBackWord(off, 8, rest);
  }

  lemma AssocHead(a: Raw, b: Raw, c: Raw, d: Raw, e: Raw, rest: Raw)
    ensures ((a + (b + (c + d))) + e) + rest == a + (b + (c + (d + (e + rest))))
  {
    assert (c + d) + (e + rest) == c + (d + (e + rest));
    assert (b + (c + d)) + (e + rest) == b + ((c + d) + (e + rest));
    assert (a + (b + (c + d))) + (e + rest) == a + ((b + (c + d)) + (e + rest));
  }

  function InfoList(ts: seq<Tensor>, from: nat): (infos: seq<Info>)
    requires from <= |ts|
    ensures |infos| == |ts| - from
    decreases |ts| - from
  {
    if from == |ts| then []
    else [Info(ts[from].name, ts[from].dims, OffsetOf(ts, from))] + InfoList(ts, from + 1)
  }

  lemma {:induction false} OffsetMonotone(ts: seq<Tensor>, i: nat, j: nat)
    requires i <= j <= |ts|
    ensures OffsetOf(ts, i) <= OffsetOf(ts, j)
  {
    if i < j { OffsetMonotone(ts, i, j - 1); }
  }

  lemma {:induction false} ReadBackInfos(ts: seq<Tensor>, from: nat, rest: Raw)
    requires from <= |ts| && OffsetOf(ts, |ts|) < Bound(8)
    requires forall i | 0 <= i < |ts| :: TensorFits(ts[i])
    ensures ReadInfos(InfosFrom(ts, |ts|, from) + rest, |ts| - from) == Some((InfoList(ts, from), rest))
    decreases |ts| - from
  {
    hide TensorFits, InfoBytes, ReadInfo, OffsetOf, Bound;
    if from == |ts| {
      assert [] + rest == rest;
    } else {
      var off := OffsetOf(ts, from);
      OffsetMonotone(ts, from, |ts|);
      var tail := InfosFrom(ts, |ts|, from + 1) + rest;
      assert InfosFrom(ts, |ts|, from) + rest == InfoBytes(ts[from], off) + tail;
      ReadBackInfo(ts[from], off, tail);
      ReadBackInfos(ts, from + 1, rest);
    }
  }

  lemma {:induction false} PayloadAt(ts: seq<Tensor>, i: nat, from: nat)
    requires from <= i < |ts|
    ensures var start := OffsetOf(ts, i) - OffsetOf(ts, from);
            && 0 <= start && start + |ts[i].payload| <= |PayloadsFrom(ts, from)|
            && PayloadsFrom(ts, from)[start..start + |ts[i].payload|] == ts[i].payload
    decreases i - from
  {
    OffsetMonotone(ts, from, i);
    var all := PayloadsFrom(ts, from);
    if from == i {
      assert all[0..|ts[i].payload|] == ts[i].payload;
    } else {
      PayloadAt(ts, i, from + 1);
      assert OffsetOf(ts, from + 1) == OffsetOf(ts, from) + |ts[from].payload|;
      var start := OffsetOf(ts, i) - OffsetOf(ts, from + 1);
      assert all[|ts[from].payload|..] == PayloadsFrom(ts, from + 1);
      assert all[|ts[from].payload| + start..|ts[from].payload| + start + |ts[i].payload|]
          == PayloadsFrom(ts, from + 1)[start..start + |ts[i].payload|];
    }
  }

  lemma {:induction false} ReadBackTensors(ts: seq<Tensor>, from: nat)
    requires from <= |ts|
    requires forall i | 0 <= i < |ts| :: |ts[i].payload| == Elements(ts[i].dims) * 4
    ensures ReadTensors(InfoList(ts, from), PayloadsFrom(ts, 0)) == Some(ts[from..])
    decreases |ts| - from
  {
    hide PayloadsFrom, Elements;
    if from < |ts| {
      ReadBackTensors(ts, from + 1);
      PayloadAt(ts, from, 0);
      assert OffsetOf(ts, 0) == 0;
      var infos := InfoList(ts, from);
      assert infos[1..] == InfoList(ts, from + 1);
      assert ReadTensor(infos[0], PayloadsFrom(ts, 0)) == Some(ts[from]);
      assert [ts[from]] + ts[from + 1..] == ts[from..];
    } else {
      assert ts[from..] == [];
    }
  }

  lemma ReadBackCounts(kvs: seq<Kv>, count: nat, rest: Raw)
    requires |kvs| < Bound(8) && count < Bound(8)
    ensures ReadCounts(Header(kvs, count) + rest) == Some(((count, |kvs|), KvsBytes(kvs) + rest))
  {
    hide LittleEndian, Bound, ReadWord, KvsBytes;
    SmallConstants();
    var b4 := KvsBytes(kvs) + rest;
    var b3 := LittleEndian(|kvs|, 8) + b4;
    var b2 := LittleEndian(count, 8) + b3;
    var b1 := LittleEndian(3, 4) + b2;
    AssocHeader(MAGIC, LittleEndian(3, 4), LittleEndian(count, 8), LittleEndian(|kvs|, 8), KvsBytes(kvs), rest);
    assert (MAGIC + b1)[..4] == MAGIC && (MAGIC + b1)[4..] == b1;
    ReadBackWord(3, 4, b2);
    ReadBackWord(count, 8, b3);
    ReadBackWord(|kvs|, 8, b4);
  }

  lemma AssocHeader(a: Raw, b: Raw, c: Raw, d: Raw, e: Raw, rest: Raw)
    ensures (a + (b + (c + (d + e)))) + rest == a + (b + (c + (d + (e + rest))))
  {
    assert (d + e) + rest == d + (e + rest);
    assert (c + (d + e)) + rest == c + ((d + e) + rest);
    assert (b + (c + (d + e))) + rest == b + ((c + (d + e)) + rest);
  }

  /** A reader of the layout recovers all metadata, names, shapes and payloads. */
  lemma GgufRoundTrip(kvs: seq<Kv>, ts: seq<Tensor>)
    requires Fits(kvs, ts)
    requires forall i | 0 <= i < |ts| :: |ts[i].payload| == Elements(ts[i].dims) * 4
    ensures ReadGguf(FileBytes(kvs, ts)) == Some((kvs, ts))
  {
    hide Header, KvsBytes, InfosFrom, PayloadsFrom, InfoList, ReadCounts, ReadKvs, ReadInfos, ReadTensors, Bound;
    hide PadLength, Elements, KvFits, TensorFits, OffsetOf;
    var hdr, infos := Header(kvs, |ts|), InfosFrom(ts, |ts|, 0);
    var pad := PadLength(|hdr + infos|);
    var tail := Zeros(pad) + PayloadsFrom(ts, 0);
    assert FileBytes(kvs, ts) == hdr + (infos + tail);
    ReadBackCounts(kvs, |ts|, infos + tail);
    ReadBackKvs(kvs, infos + tail);
    ReadBackInfos(ts, 0, tail);
    assert |FileBytes(kvs, ts)| - |tail| == |hdr + infos|;
    assert tail[pad..] == PayloadsFrom(ts, 0);
    ReadBackTensors(ts, 0);
    assert ts[0..] == ts;
  }

  /** The data section starts on a multiple of 32, after fewer than 32 padding bytes. */
  lemma DataStartAligned(kvs: seq<Kv>, ts: seq<Tensor>)
    ensures var front := Header(kvs, |ts|) + InfosFrom(ts, |ts|, 0);
            var start := |front| + PadLength(|front|);
            && start % 32 == 0 && PadLength(|front|) < 32
            && FileBytes(kvs, ts)[start..] == PayloadsFrom(ts, 0)
  {
    hide Header, InfosFrom, PayloadsFrom, PadLength;
    PadFills(|Header(kvs, |ts|) + InfosFrom(ts, |ts|, 0)|);
  }

  lemma PadFills(n: nat)
    ensures (n + PadLength(n)) % 32 == 0 && PadLength(n) < 32
  {
  }

  lemma MagicFirst(kvs: seq<Kv>, ts: seq<Tensor>)
    ensures |FileBytes(kvs, ts)| >= 4 && FileBytes(kvs, ts)[..4] == [0x47, 0x47, 0x55, 0x46]
  {
    HeaderStart(kvs, |ts|);
    hide Header, InfosFrom, PayloadsFrom, PadLength;
    assert Header(kvs, |ts|)[..4] == FileBytes(kvs, ts)[..4];
  }

  lemma HeaderStart(kvs: seq<Kv>, count: nat)
    ensures |Header(kvs, count)| >= 4 && Header(kvs, count)[..4] == [0x47, 0x47, 0x55, 0x46]
  {
    hide KvsBytes, LittleEndian;
  }

  /** The writer adds no padding between payloads, so all offsets are multiples of 32 exactly when
      every payload but the last has a multiple of 32 bytes. */
  lemma {:induction false} OffsetsAligned(ts: seq<Tensor>)
    ensures AllAligned(ts) <==> (forall i | 0 <= i < |ts| - 1 :: |ts[i].payload| % 32 == 0)
  {
    if forall i | 0 <= i < |ts| - 1 :: |ts[i].payload| % 32 == 0 {
      forall i | 0 <= i < |ts| ensures OffsetOf(ts, i) % 32 == 0 { AlignedUpTo(ts, i); }
    }
    if AllAligned(ts) {
      forall i | 0 <= i < |ts| - 1 ensures |ts[i].payload| % 32 == 0 { StepAligned(ts, i); }
    }
  }

  predicate AllAligned(ts: seq<Tensor>) { forall i | 0 <= i < |ts| :: OffsetOf(ts, i) % 32 == 0 }

  lemma StepAligned(ts: seq<Tensor>, i: nat)
    requires i + 1 < |ts| && AllAligned(ts)
    ensures |ts[i].payload| % 32 == 0
  {
    var next := i + 1;
    assert OffsetOf(ts, next) == OffsetOf(ts, i) + |ts[i].payload|;
    assert OffsetOf(ts, i) % 32 == 0 && OffsetOf(ts, next) % 32 == 0;
  }

  lemma {:induction false} AlignedUpTo(ts: seq<Tensor>, i: nat)
    requires i <= |ts| && forall j | 0 <= j < i :: |ts[j].payload| % 32 == 0
    ensures OffsetOf(ts, i) % 32 == 0
  {
    if i != 0 { AlignedUpTo(ts, i - 1); }
  }
}
