/** Byte strings and little-endian integers, shared by the container formats. */
module Bytes {
  type byte = x: int | 0 <= x < 256

  function Bound(width: nat): (b: nat)
    ensures b >= 1
  {
    if width == 0 then 1 else 256 * Bound(width - 1)
  }

  /** `n` in `width` bytes, least significant first; higher digits are lost. */
  function LittleEndian(n: nat, width: nat): (bs: seq<byte>)
    ensures |bs| == width
  {
    if width == 0 then [] else [n % 256] + LittleEndian(n / 256, width - 1)
  }

  function FromLittleEndian(bs: seq<byte>): nat {
    if bs == [] then 0 else bs[0] + 256 * FromLittleEndian(bs[1..])
  }

  lemma {:induction false} LittleEndianRoundTrip(n: nat, width: nat)
    requires n < Bound(width)
    ensures FromLittleEndian(LittleEndian(n, width)) == n
  {
    if width != 0 {
      LittleEndianRoundTrip(n / 256, width - 1);
      assert LittleEndian(n, width)[1..] == LittleEndian(n / 256, width - 1);
    }
  }

  /** All parts one after the other. */
  function Concat(parts: seq<seq<byte>>): seq<byte> {
    if parts == [] then [] else Concat(parts[..|parts| - 1]) + parts[|parts| - 1]
  }

  lemma ConcatAppend(parts: seq<seq<byte>>, p: seq<byte>)
    ensures Concat(parts + [p]) == Concat(parts) + p
  {
    assert (parts + [p])[..|parts|] == parts;
  }

  /** Part `i` sits between the total lengths of the parts before it and of those up to it. */
  lemma {:induction false} ConcatSlice(parts: seq<seq<byte>>, i: nat)
    requires i < |parts|
    ensures var start, end := |Concat(parts[..i])|, |Concat(parts[..i + 1])|;
            start + |parts[i]| == end <= |Concat(parts)| && Concat(parts)[start..end] == parts[i]
  {
    var n := |parts| - 1;
    var front := parts[..n];
    assert parts[..i + 1] == parts[..i] + [parts[i]];
    ConcatAppend(parts[..i], parts[i]);
    if i == n {
      assert parts[..i + 1] == parts;
    } else {
      ConcatSlice(front, i);
      assert front[..i] == parts[..i] && front[..i + 1] == parts[..i + 1];
    }
  }

  lemma TimesRegroup(x: nat, y: nat, z: nat)
    ensures x * (y * z) == (x * y) * z
  {
  }
}
