/**
 The safetensors container: a writer that grows a JSON header and a blob with running offsets, and
 a reader that parses the header, slices the blob and decodes F32 and BF16.

 Texts are byte strings seen as characters below 256.  The reader first requires them to be UTF-8.
 Its grammar is JSON as this writer lays it out (no blanks, fields in this order), with the full
 string syntax: escapes are decoded and control characters refused.
 */
module Safetensors {
  import opened Basics
  import opened Bytes
  import Rounding = RoundTowardNegative

  type ByteChar = c: char | (c as int) < 256 witness 'a'
  type Text = seq<ByteChar>

  datatype Entry = Entry(name: Text, dtype: Text, shape: seq<nat>, bytes: seq<byte>)

  /** What a header says about one tensor. */
  datatype Info = Info(name: Text, dtype: Text, shape: seq<nat>, start: nat, end: nat)

  // ---------- decimal numbers ----------

  function Digit(d: nat): ByteChar
    requires d < 10
  {
    ('0' as int + d) as char
  }

  predicate IsDigit(c: char) { '0' <= c <= '9' }

  function DigitValue(c: char): nat
    requires IsDigit(c)
  {
    c as int - '0' as int
  }

  function Decimal(n: nat): (t: Text)
    ensures t != [] && forall i | 0 <= i < |t| :: IsDigit(t[i])
  {
    if n < 10 then [Digit(n)] else Decimal(n / 10) + [Digit(n % 10)]
  }

  function DigitRun(t: Text): (n: nat)
    ensures n <= |t| && forall i | 0 <= i < n :: IsDigit(t[i])
    ensures n < |t| ==> !IsDigit(t[n])
  {
    if t == [] || !IsDigit(t[0]) then 0 else 1 + DigitRun(t[1..])
  }

  function Number(t: Text): nat
    requires forall i | 0 <= i < |t| :: IsDigit(t[i])
  {
    if t == [] then 0 else 10 * Number(t[..|t| - 1]) + DigitValue(t[|t| - 1])
  }

  /** A number; one that starts with a zero is that zero alone. */
  function ReadNat(t: Text): Option<(nat, Text)> {
    var n := if t != [] && t[0] == '0' then 1 else DigitRun(t);
    if n == 0 then None else Some((Number(t[..n]), t[n..]))
  }

  lemma {:induction false} NumberOfDecimal(n: nat)
    ensures Number(Decimal(n)) == n
  {
    if n >= 10 {
      NumberOfDecimal(n / 10);
      var t := Decimal(n);
      assert t[..|t| - 1] == Decimal(n / 10);
    }
  }

  lemma {:induction false} DigitRunOf(digits: Text, rest: Text)
    requires forall i | 0 <= i < |digits| :: IsDigit(digits[i])
    requires rest == [] || !IsDigit(rest[0])
    ensures DigitRun(digits + rest) == |digits|
  {
    if digits == [] {
      assert digits + rest == rest;
    } else {
      assert (digits + rest)[1..] == digits[1..] + rest;
      DigitRunOf(digits[1..], rest);
    }
  }

  lemma ReadDecimal(n: nat, rest: Text)
    requires rest == [] || !IsDigit(rest[0])
    ensures ReadNat(Decimal(n) + rest) == Some((n, rest))
  {
    DigitRunOf(Decimal(n), rest);
    NumberOfDecimal(n);
    NoLeadingZero(n);
    assert (Decimal(n) + rest)[0] == Decimal(n)[0];
    assert (Decimal(n) + rest)[..|Decimal(n)|] == Decimal(n);
    assert (Decimal(n) + rest)[|Decimal(n)|..] == rest;
  }

  lemma {:induction false} NoLeadingZero(n: nat)
    ensures Decimal(n)[0] == '0' ==> |Decimal(n)| == 1
  {
    if n >= 10 {
      NoLeadingZero(n / 10);
      if n / 10 < 10 { assert Decimal(n / 10) == [Digit(n / 10)]; }
    }
  }

  /** Nothing shorter than `Decimal` denotes the same number. */
  lemma {:induction false} DecimalShortest(t: Text)
    requires t != [] && forall i | 0 <= i < |t| :: IsDigit(t[i])
    ensures |Decimal(Number(t))| <= |t|
  {
    var n := Number(t);
    var front := t[..|t| - 1];
    if front != [] {
      DecimalShortest(front);
      assert n / 10 == Number(front);
    }
  }

  // ---------- strings ----------

  /** What a JSON string can carry unescaped. */
  predicate Plain(c: char) { c >= ' ' && c != '"' && c != '\\' }

  predicate Clean(t: Text) { forall i | 0 <= i < |t| :: Plain(t[i]) }

  predicate IsHex(c: char) { IsDigit(c) || 'a' <= c <= 'f' || 'A' <= c <= 'F' }

  function HexValue(c: char): nat
    requires IsHex(c)
  {
    if IsDigit(c) then DigitValue(c)
    else if 'a' <= c <= 'f' then c as int - 'a' as int + 10
    else c as int - 'A' as int + 10
  }

  /** The character an escape stands for and how many characters it takes, backslash included;
      `\u` escapes above 127 are outside this model and are refused. */
  function ReadEscape(t: Text): Option<(ByteChar, nat)>
    requires t != [] && t[0] == '\\'
  {
    if |t| < 2 then None
    else
      var c := t[1];
      if c == '"' || c == '\\' || c == '/' then Some((c, 2))
      else if c == 'b' then Some((8 as char, 2))
      else if c == 'f' then Some((12 as char, 2))
      else if c == 'n' then Some((10 as char, 2))
      else if c == 'r' then Some((13 as char, 2))
      else if c == 't' then Some((9 as char, 2))
      else if c == 'u' && |t| >= 6 && t[2] == '0' && t[3] == '0' && '0' <= t[4] <= '7' && IsHex(t[5]) then
        Some(((16 * HexValue(t[4]) + HexValue(t[5])) as char, 6))
      else None
  }

  /** Reads up to and including the closing quote. */
  function ReadString(t: Text): Option<(Text, Text)> {
    if t == [] then None
    else if t[0] == '"' then Some(([], t[1..]))
    else if t[0] == '\\' then
      match ReadEscape(t)
      case None => None
      case Some((c, n)) =>
        (match ReadString(t[n..])
         case None => None
         case Some((s, rest)) => Some(([c] + s, rest)))
    else if t[0] < ' ' then None
    else
      match ReadString(t[1..])
      case None => None
      case Some((s, rest)) => Some(([t[0]] + s, rest))
  }

  /** A character below 128 written as a `\u` escape, hexadecimal digits in either case, is read back. */
  lemma UnicodeEscapeRead(c: nat, high: ByteChar, low: ByteChar, rest: Text)
    requires c < 128 && c / 16 < 10 && high as int == '0' as int + c / 16
    requires var d := c % 16; if d < 10 then low as int == '0' as int + d else low as int == 'a' as int + d - 10 || low as int == 'A' as int + d - 10
    ensures ReadEscape("\\u00" + [high, low] + rest) == Some((c as char, 6))
  {
    var t := "\\u00" + [high, low] + rest;
    assert t[0] == '\\' && t[1] == 'u' && t[2] == '0' && t[3] == '0' && t[4] == high && t[5] == low;
  }

  lemma {:induction false} ReadCleanString(s: Text, rest: Text)
    requires Clean(s)
    ensures ReadString(s + "\"" + rest) == Some((s, rest))
  {
    var t := s + "\"" + rest;
    if s == [] {
      assert t[1..] == rest;
    } else {
      assert t[1..] == s[1..] + "\"" + rest;
      ReadCleanString(s[1..], rest);
      assert [s[0]] + s[1..] == s;
    }
  }

  /** A string never takes fewer characters than it yields plus its quote, and takes exactly that
      many only when it needed no escape. */
  lemma {:induction false} ReadStringLength(t: Text)
    requires ReadString(t).Some?
    ensures var (s, rest) := ReadString(t).value;
            |s| + 1 + |rest| <= |t| && (|s| + 1 + |rest| == |t| ==> Clean(s))
    decreases |t|
  {
    if t[0] == '"' {
    } else if t[0] == '\\' {
      var n := ReadEscape(t).value.1;
      ReadStringLength(t[n..]);
    } else {
      ReadStringLength(t[1..]);
    }
  }

  // ---------- UTF-8 ----------

  predicate Follows(c: ByteChar) { 0x80 <= c as int < 0xC0 }

  /** The length of the UTF-8 sequence a text begins with, 0 when it begins with none. Surrogates are
      let through, as Python's JSON reader does. */
  function SequenceLength(t: Text): (n: nat)
    ensures n <= |t| && n <= 4
  {
    if t == [] then 0
    else
      var c := t[0] as int;
      if c < 0x80 then 1
      else if 0xC2 <= c < 0xE0 && |t| >= 2 && Follows(t[1]) then 2
      else if 0xE0 <= c < 0xF0 && |t| >= 3 && Follows(t[1]) && Follows(t[2]) && (c == 0xE0 ==> t[1] as int >= 0xA0) then 3
      else if 0xF0 <= c < 0xF5 && |t| >= 4 && Follows(t[1]) && Follows(t[2]) && Follows(t[3])
           && (c == 0xF0 ==> t[1] as int >= 0x90) && (c == 0xF4 ==> (t[1] as int) < 0x90) then 4
      else 0
  }

  predicate Utf8(t: Text)
    decreases |t|
  {
    t == [] || (SequenceLength(t) > 0 && Utf8(t[SequenceLength(t)..]))
  }

  /** A sequence never reaches into text that starts with an ASCII character. */
  lemma SequenceStops(x: Text, y: Text)
    requires x != [] && (y == [] || (y[0] as int) < 0x80)
    ensures SequenceLength(x + y) == SequenceLength(x)
  {
    var s := x + y;
    assert forall k | 0 <= k < |x| :: s[k] == x[k];
    assert y != [] ==> s[|x|] == y[0] && !Follows(s[|x|]);
  }

  lemma {:induction false} Utf8Concat(x: Text, y: Text)
    requires y == [] || (y[0] as int) < 0x80
    ensures Utf8(x + y) <==> Utf8(x) && Utf8(y)
    decreases |x|
  {
    hide SequenceLength;
    if x == [] {
      assert x + y == y;
    } else {
      SequenceStops(x, y);
      var n := SequenceLength(x);
      if n > 0 {
        assert (x + y)[n..] == x[n..] + y;
        Utf8Concat(x[n..], y);
      }
    }
  }

  predicate Ascii(t: Text) { forall k | 0 <= k < |t| :: (t[k] as int) < 0x80 }

  lemma {:induction false} AsciiUtf8(t: Text)
    requires Ascii(t)
    ensures Utf8(t)
  {
    if t != [] { AsciiUtf8(t[1..]); }
  }

  function Unit(x: nat): ByteChar
    requires x < 256
  {
    x as char
  }

  /** A code point in its one to four bytes, section 3 of RFC 3629, surrogates included. */
  function Encoded(c: nat): (t: Text)
    requires c < 0x11_0000
    ensures t != []
  {
    if c < 0x80 then [Unit(c)]
    else if c < 0x800 then [Unit(0xC0 + c / 0x40), Unit(0x80 + c % 0x40)]
    else if c < 0x1_0000 then [Unit(0xE0 + c / 0x1000), Unit(0x80 + c / 0x40 % 0x40), Unit(0x80 + c % 0x40)]
    else [Unit(0xF0 + c / 0x4_0000), Unit(0x80 + c / 0x1000 % 0x40), Unit(0x80 + c / 0x40 % 0x40), Unit(0x80 + c % 0x40)]
  }

  type CodePoint = c: nat | c < 0x11_0000

  function EncodedAll(cs: seq<CodePoint>): Text { if cs == [] then [] else Encoded(cs[0]) + EncodedAll(cs[1..]) }

  /** A code point's bytes are one sequence, whatever follows. */
  lemma EncodedIsSequence(c: CodePoint, rest: Text)
    ensures SequenceLength(Encoded(c) + rest) == |Encoded(c)|
  {
    var t := Encoded(c) + rest;
    assert forall k | 0 <= k < |Encoded(c)| :: t[k] == Encoded(c)[k];
  }

  /** Every sequence is some code point's bytes. */
  lemma SequenceIsEncoded(t: Text) returns (c: CodePoint)
    requires SequenceLength(t) > 0
    ensures Encoded(c) == t[..SequenceLength(t)]
  {
    var n := SequenceLength(t);
    if n == 1 {
      c := t[0] as int;
    } else if n == 2 {
      c := TwoUnits(t[0] as int, t[1] as int);
    } else if n == 3 {
      c := ThreeUnits(t[0] as int, t[1] as int, t[2] as int);
    } else {
      c := FourUnits(t[0] as int, t[1] as int, t[2] as int, t[3] as int);
    }
  }

  lemma TwoUnits(x: nat, y: nat) returns (c: CodePoint)
    requires 0xC2 <= x < 0xE0 && 0x80 <= y < 0xC0
    ensures Encoded(c) == [Unit(x), Unit(y)]
  {
    c := (x - 0xC0) * 0x40 + (y - 0x80);
    assert c / 0x40 == x - 0xC0 && c % 0x40 == y - 0x80;
  }

  lemma ThreeUnits(x: nat, y: nat, z: nat) returns (c: CodePoint)
    requires 0xE0 <= x < 0xF0 && 0x80 <= y < 0xC0 && 0x80 <= z < 0xC0 && (x == 0xE0 ==> y >= 0xA0)
    ensures Encoded(c) == [Unit(x), Unit(y), Unit(z)]
  {
    c := (x - 0xE0) * 0x1000 + (y - 0x80) * 0x40 + (z - 0x80);
    assert c / 0x1000 == x - 0xE0 && c / 0x40 == (x - 0xE0) * 0x40 + (y - 0x80) && c % 0x40 == z - 0x80;
    assert c / 0x40 % 0x40 == y - 0x80;
  }

  lemma FourUnits(w: nat, x: nat, y: nat, z: nat) returns (c: CodePoint)
    requires 0xF0 <= w < 0xF5 && 0x80 <= x < 0xC0 && 0x80 <= y < 0xC0 && 0x80 <= z < 0xC0
    requires (w == 0xF0 ==> x >= 0x90) && (w == 0xF4 ==> x < 0x90)
    ensures Encoded(c) == [Unit(w), Unit(x), Unit(y), Unit(z)]
  {
    c := (w - 0xF0) * 0x4_0000 + (x - 0x80) * 0x1000 + (y - 0x80) * 0x40 + (z - 0x80);
    assert c / 0x4_0000 == w - 0xF0 && c / 0x1000 == (w - 0xF0) * 0x40 + (x - 0x80);
    assert c / 0x40 == ((w - 0xF0) * 0x40 + (x - 0x80)) * 0x40 + (y - 0x80) && c % 0x40 == z - 0x80;
    assert c / 0x1000 % 0x40 == x - 0x80 && c / 0x40 % 0x40 == y - 0x80;
  }

  lemma {:induction false} EncodedDecodes(cs: seq<CodePoint>)
    ensures Utf8(EncodedAll(cs))
  {
    hide Encoded, SequenceLength;
    if cs != [] {
      EncodedIsSequence(cs[0], EncodedAll(cs[1..]));
      EncodedDecodes(cs[1..]);
      var t := EncodedAll(cs);
      assert t[|Encoded(cs[0])|..] == EncodedAll(cs[1..]);
    }
  }

  lemma {:induction false} DecodedEncodes(t: Text) returns (cs: seq<CodePoint>)
    requires Utf8(t)
    ensures EncodedAll(cs) == t
    decreases |t|
  {
    hide Encoded, SequenceLength;
    if t == [] {
      cs := [];
    } else {
      var n := SequenceLength(t);
      var c := SequenceIsEncoded(t);
      var more := DecodedEncodes(t[n..]);
      cs := [c] + more;
      assert cs[1..] == more;
    }
  }

  /** The reader accepts a text as UTF-8 exactly when it is the bytes of some code points. */
  lemma Utf8Iff(t: Text)
    ensures Utf8(t) <==> exists cs: seq<CodePoint> :: EncodedAll(cs) == t
  {
    hide Encoded, SequenceLength, Utf8;
    if Utf8(t) {
      var cs := DecodedEncodes(t);
    }
    if cs: seq<CodePoint> :| EncodedAll(cs) == t { EncodedDecodes(cs); }
  }

  // ---------- the header text ----------

  function Join(parts: seq<Text>): Text {
    if parts == [] then []
    else if |parts| == 1 then parts[0]
    else parts[0] + "," + Join(parts[1..])
  }

  lemma {:induction false} JoinAppend(parts: seq<Text>, p: Text)
    ensures Join(parts + [p]) == if parts == [] then p else Join(parts) + "," + p
  {
    if parts == [] {
      assert parts + [p] == [p];
    } else {
      JoinAppend(parts[1..], p);
      assert (parts + [p])[1..] == parts[1..] + [p];
      if |parts| > 1 {
        assert parts[0] + "," + (Join(parts[1..]) + "," + p) == (parts[0] + "," + Join(parts[1..])) + "," + p;
      }
    }
  }

  function Decimals(shape: seq<nat>): (parts: seq<Text>)
    ensures |parts| == |shape|
  {
    seq(|shape|, i requires 0 <= i < |shape| => Decimal(shape[i]))
  }

  function NamePart(name: Text): Text { "\"" + name + "\":{\"dtype\":\"" }

  function KindPart(dtype: Text): Text { dtype + "\",\"shape\":[" }

  function ShapePart(shape: seq<nat>): Text { Join(Decimals(shape)) + "],\"data_offsets\":[" }

  function PlacePart(start: nat, end: nat): Text { Decimal(start) + "," + Decimal(end) + "]}" }

  function RenderInfo(i: Info): Text {
    NamePart(i.name) + KindPart(i.dtype) + ShapePart(i.shape) + PlacePart(i.start, i.end)
  }

  function RenderAll(infos: seq<Info>): (parts: seq<Text>)
    ensures |parts| == |infos|
  {
    seq(|infos|, i requires 0 <= i < |infos| => RenderInfo(infos[i]))
  }

  function Render(infos: seq<Info>): Text { "{" + Join(RenderAll(infos)) + "}" }

  // ---------- the parser ----------

  function Expect(t: Text, lit: Text): (r: Option<Text>)
    ensures r.Some? ==> t == lit + r.value
  {
    if lit <= t then Some(t[|lit|..]) else None
  }

  lemma ExpectLiteral(lit: Text, rest: Text)
    ensures Expect(lit + rest, lit) == Some(rest)
  {
    assert (lit + rest)[|lit|..] == rest;
  }

  /** One or more numbers separated by commas. */
  function ReadNats(t: Text): Option<(seq<nat>, Text)> {
    match ReadNat(t)
    case None => None
    case Some((n, rest)) =>
      if rest != [] && rest[0] == ',' then
        var (more, after) :- ReadNats(rest[1..]);
        Some(([n] + more, after))
      else Some(([n], rest))
  }

  function ReadNamePart(t: Text): Option<(Text, Text)> {
    var t1 :- Expect(t, "\"");
    var (name, t2) :- ReadString(t1);
    var t3 :- Expect(t2, ":{\"dtype\":\"");
    Some((name, t3))
  }

  function ReadKindPart(t: Text): Option<(Text, Text)> {
    var (dtype, t1) :- ReadString(t);
    var t2 :- Expect(t1, ",\"shape\":[");
    Some((dtype, t2))
  }

  function ReadShapePart(t: Text): Option<(seq<nat>, Text)> {
    if t != [] && t[0] == ']' then
      var t1 :- Expect(t, "],\"data_offsets\":[");
      Some(([], t1))
    else
      var (shape, t1) :- ReadNats(t);
      var t2 :- Expect(t1, "],\"data_offsets\":[");
      Some((shape, t2))
  }

  function ReadPlacePart(t: Text): Option<((nat, nat), Text)> {
    var (start, t1) :- ReadNat(t);
    var t2 :- Expect(t1, ",");
    var (end, t3) :- ReadNat(t2);
    var t4 :- Expect(t3, "]}");
    Some(((start, end), t4))
  }

  function ReadInfo(t: Text): Option<(Info, Text)> {
    var (name, t1) :- ReadNamePart(t);
    var (dtype, t2) :- ReadKindPart(t1);
    var (shape, t3) :- ReadShapePart(t2);
    var ((start, end), t4) :- ReadPlacePart(t3);
    Some((Info(name, dtype, shape, start, end), t4))
  }

  /** One or more tensors separated by commas; `fuel` is any bound on their number. */
  function ReadInfos(t: Text, fuel: nat): Option<(seq<Info>, Text)>
    decreases fuel
  {
    if fuel == 0 then None
    else
      match ReadInfo(t)
      case None => None
      case Some(p) =>
        if p.1 != [] && p.1[0] == ',' then
          match ReadInfos(p.1[1..], fuel - 1)
          case None => None
          case Some(q) => Some(([p.0] + q.0, q.1))
        else Some(([p.0], p.1))
  }

  function ReadHeader(t: Text): Option<seq<Info>> {
    var t1 :- Expect(t, "{");
    if t1 == "}" then Some([])
    else
      var (infos, t2) :- ReadInfos(t1, |t1|);
      if t2 == "}" then Some(infos) else None
  }

  /** The header's bytes are decoded before they are parsed. */
  function DecodeHeader(t: Text): Option<seq<Info>> { if Utf8(t) then ReadHeader(t) else None }

  // ---------- reading back what was rendered ----------

  lemma {:induction false} ReadDecimals(shape: seq<nat>, rest: Text)
    requires shape != [] && rest != [] && !IsDigit(rest[0]) && rest[0] != ','
    ensures ReadNats(Join(Decimals(shape)) + rest) == Some((shape, rest))
  {
    hide Decimal, ReadNat;
    var first := Decimal(shape[0]);
    if |shape| == 1 {
      assert Decimals(shape) == [first] && shape == [shape[0]];
      ReadDecimal(shape[0], rest);
    } else {
      var tail := Join(Decimals(shape[1..])) + rest;
      assert Decimals(shape)[1..] == Decimals(shape[1..]);
      assert Join(Decimals(shape)) + rest == first + ("," + tail);
      ReadDecimal(shape[0], "," + tail);
      assert ("," + tail)[1..] == tail;
      ReadDecimals(shape[1..], rest);
      assert [shape[0]] + shape[1..] == shape;
    }
  }

  lemma NameLiteral()
    ensures "\":{\"dtype\":\"" == "\"" + ":{\"dtype\":\""
    ensures "\",\"shape\":[" == "\"" + ",\"shape\":["
  {
  }

  lemma Regroup(open: Text, text: Text, close: Text, literal: Text, rest: Text)
    ensures open + text + (close + literal) + rest == open + (text + close + (literal + rest))
    ensures text + (close + literal) + rest == text + close + (literal + rest)
  {
  }

  lemma ReadBackName(name: Text, rest: Text)
    requires Clean(name)
    ensures ReadNamePart(NamePart(name) + rest) == Some((name, rest))
  {
    var after := ":{\"dtype\":\"" + rest;
    NameLiteral();
    Regroup("\"", name, "\"", ":{\"dtype\":\"", rest);
    ExpectLiteral("\"", name + "\"" + after);
    ReadCleanString(name, after);
    ExpectLiteral(":{\"dtype\":\"", rest);
  }

  lemma ReadBackKind(dtype: Text, rest: Text)
    requires Clean(dtype)
    ensures ReadKindPart(KindPart(dtype) + rest) == Some((dtype, rest))
  {
    var after := ",\"shape\":[" + rest;
    NameLiteral();
    Regroup("", dtype, "\"", ",\"shape\":[", rest);
    ReadCleanString(dtype, after);
    ExpectLiteral(",\"shape\":[", rest);
  }

  /** The list of dimensions is empty or starts with a digit. */
  lemma DimsStart(shape: seq<nat>)
    ensures var dims := Join(Decimals(shape));
            if shape == [] then dims == [] else dims != [] && IsDigit(dims[0])
  {
    if shape != [] {
      assert Decimals(shape)[0] == Decimal(shape[0]);
      assert Join(Decimals(shape))[0] == Decimal(shape[0])[0];
    }
  }

  lemma ReadBackShape(shape: seq<nat>, rest: Text)
    ensures ReadShapePart(ShapePart(shape) + rest) == Some((shape, rest))
  {
    hide Join, Decimals, Decimal, ReadNats;
    var lit := "],\"data_offsets\":[";
    var dims := Join(Decimals(shape));
    assert ShapePart(shape) + rest == dims + (lit + rest);
    ExpectLiteral(lit, rest);
    DimsStart(shape);
    assert lit[0] == ']' && (lit + rest)[0] == ']';
    if shape == [] {
      assert dims + (lit + rest) == lit + rest;
    } else {
      ReadDecimals(shape, lit + rest);
      assert (dims + (lit + rest))[0] == dims[0];
    }
  }

  lemma ReadBackPlace(start: nat, end: nat, rest: Text)
    ensures ReadPlacePart(PlacePart(start, end) + rest) == Some(((start, end), rest))
  {
    hide Decimal, ReadNat;
    var t2 := Decimal(end) + ("]}" + rest);
    assert PlacePart(start, end) + rest == Decimal(start) + ("," + t2);
    ReadDecimal(start, "," + t2);
    ExpectLiteral(",", t2);
    ReadDecimal(end, "]}" + rest);
    ExpectLiteral("]}", rest);
  }

  predicate CleanInfo(i: Info) { Clean(i.name) && Clean(i.dtype) }

  lemma ReadBackInfo(i: Info, rest: Text)
    requires CleanInfo(i)
    ensures ReadInfo(RenderInfo(i) + rest) == Some((i, rest))
  {
    hide NamePart, KindPart, ShapePart, PlacePart, ReadNamePart, ReadKindPart, ReadShapePart, ReadPlacePart, Clean;
    var t3 := PlacePart(i.start, i.end) + rest;
    var t2 := ShapePart(i.shape) + t3;
    var t1 := KindPart(i.dtype) + t2;
    assert RenderInfo(i) + rest == NamePart(i.name) + t1;
    ReadBackName(i.name, t1);
    ReadBackKind(i.dtype, t2);
    ReadBackShape(i.shape, t3);
    ReadBackPlace(i.start, i.end, rest);
  }

  lemma {:induction false} ReadBackInfos(infos: seq<Info>, fuel: nat)
    requires infos != [] && |infos| <= fuel
    requires forall k | 0 <= k < |infos| :: CleanInfo(infos[k])
    ensures ReadInfos(Join(RenderAll(infos)) + "}", fuel) == Some((infos, "}"))
  {
    hide RenderInfo, ReadInfo, CleanInfo;
    var first := infos[0];
    if |infos| == 1 {
      assert RenderAll(infos) == [RenderInfo(first)] && infos == [first];
      ReadBackInfo(first, "}");
    } else {
      var tail := Join(RenderAll(infos[1..])) + "}";
      assert RenderAll(infos)[1..] == RenderAll(infos[1..]);
      assert Join(RenderAll(infos)) + "}" == RenderInfo(first) + ("," + tail);
      ReadBackInfo(first, "," + tail);
      assert ("," + tail)[1..] == tail;
      ReadBackInfos(infos[1..], fuel - 1);
      assert [first] + infos[1..] == infos;
    }
  }

  // ---------- a header read back exactly is the header of clean names ----------

  lemma {:induction false} ReadNatsLength(t: Text)
    requires ReadNats(t).Some?
    ensures var (shape, rest) := ReadNats(t).value;
            shape != [] && |Join(Decimals(shape))| + |rest| <= |t|
  {
    hide Decimal, Number, DigitRun;
    var (n, rest) := ReadNat(t).value;
    ReadNatLength(t);
    var (shape, after) := ReadNats(t).value;
    if |shape| > 1 {
      ReadNatsLength(rest[1..]);
      assert Decimals(shape)[1..] == Decimals(shape[1..]);
      assert shape[1..] == ReadNats(rest[1..]).value.0;
    }
  }

  lemma ReadNatLength(t: Text)
    requires ReadNat(t).Some?
    ensures var (n, rest) := ReadNat(t).value; |Decimal(n)| + |rest| <= |t|
  {
    DecimalShortest(t[..if t[0] == '0' then 1 else DigitRun(t)]);
  }

  lemma NamePartLength(t: Text)
    requires ReadNamePart(t).Some?
    ensures var (name, rest) := ReadNamePart(t).value;
            && |NamePart(name)| + |rest| <= |t|
            && (|NamePart(name)| + |rest| == |t| ==> Clean(name))
  {
    hide ReadString, Clean;
    ReadStringLength(Expect(t, "\"").value);
  }

  lemma KindPartLength(t: Text)
    requires ReadKindPart(t).Some?
    ensures var (dtype, rest) := ReadKindPart(t).value;
            && |KindPart(dtype)| + |rest| <= |t|
            && (|KindPart(dtype)| + |rest| == |t| ==> Clean(dtype))
  {
    hide ReadString, Clean;
    ReadStringLength(t);
  }

  lemma ShapePartLength(t: Text)
    requires ReadShapePart(t).Some?
    ensures var (shape, rest) := ReadShapePart(t).value; |ShapePart(shape)| + |rest| <= |t|
  {
    hide ReadNats, Decimals;
    if t != [] && t[0] == ']' {
      assert Join(Decimals([])) == [];
    } else {
      ReadNatsLength(t);
    }
  }

  lemma PlacePartLength(t: Text)
    requires ReadPlacePart(t).Some?
    ensures var ((start, end), rest) := ReadPlacePart(t).value; |PlacePart(start, end)| + |rest| <= |t|
  {
    hide ReadNat, Decimal;
    ReadNatLength(t);
    var (_, t1) := ReadNat(t).value;
    ReadNatLength(Expect(t1, ",").value);
  }

  lemma InfoLength(t: Text)
    requires ReadInfo(t).Some?
    ensures var (i, rest) := ReadInfo(t).value;
            && |RenderInfo(i)| + |rest| <= |t|
            && (|RenderInfo(i)| + |rest| == |t| ==> CleanInfo(i))
  {
    hide NamePart, KindPart, ShapePart, PlacePart, ReadNamePart, ReadKindPart, ReadShapePart, ReadPlacePart, Clean;
    NamePartLength(t);
    var (_, t1) := ReadNamePart(t).value;
    KindPartLength(t1);
    var (_, t2) := ReadKindPart(t1).value;
    ShapePartLength(t2);
    var (_, t3) := ReadShapePart(t2).value;
    PlacePartLength(t3);
  }

  lemma {:induction false} InfosLength(t: Text, fuel: nat)
    requires ReadInfos(t, fuel).Some?
    ensures var (infos, rest) := ReadInfos(t, fuel).value;
            && infos != []
            && |Join(RenderAll(infos))| + |rest| <= |t|
            && (|Join(RenderAll(infos))| + |rest| == |t| ==> forall k | 0 <= k < |infos| :: CleanInfo(infos[k]))
    decreases fuel
  {
    hide RenderInfo, ReadInfo, CleanInfo;
    InfoLength(t);
    var p := ReadInfo(t).value;
    var infos := ReadInfos(t, fuel).value.0;
    if p.1 != [] && p.1[0] == ',' {
      InfosLength(p.1[1..], fuel - 1);
      var more := ReadInfos(p.1[1..], fuel - 1).value.0;
      assert infos == [p.0] + more;
      assert RenderAll(infos)[1..] == RenderAll(more);
      assert Join(RenderAll(infos)) == RenderInfo(p.0) + "," + Join(RenderAll(more));
    } else {
      assert RenderAll(infos) == [RenderInfo(p.0)];
    }
  }

  lemma HeaderLength(t: Text)
    requires ReadHeader(t).Some?
    ensures var infos := ReadHeader(t).value;
            |Render(infos)| == |t| ==> forall k | 0 <= k < |infos| :: CleanInfo(infos[k])
  {
    hide ReadInfos, CleanInfo, RenderAll;
    var t1 := Expect(t, "{").value;
    if t1 != "}" { InfosLength(t1, |t1|); }
  }

  lemma GrammarRoundTrip(infos: seq<Info>)
    ensures ReadHeader(Render(infos)) == Some(infos) <==> forall k | 0 <= k < |infos| :: CleanInfo(infos[k])
  {
    hide ReadInfos, CleanInfo, RenderInfo;
    var body := Join(RenderAll(infos)) + "}";
    assert Render(infos) == "{" + body;
    ExpectLiteral("{", body);
    if ReadHeader(Render(infos)) == Some(infos) { HeaderLength(Render(infos)); }
    if forall k | 0 <= k < |infos| :: CleanInfo(infos[k]) {
      if infos == [] {
        assert body == "}";
      } else {
        RenderedLength(infos);
        ReadBackInfos(infos, |body|);
      }
    }
  }

  lemma {:induction false} RenderedLength(infos: seq<Info>)
    ensures |infos| <= |Join(RenderAll(infos))|
    ensures infos != [] ==> |Join(RenderAll(infos))| >= 2
  {
    if infos != [] {
      assert |RenderInfo(infos[0])| >= 2;
      RenderedLength(infos[1..]);
      assert RenderAll(infos)[1..] == RenderAll(infos[1..]);
    }
  }

  // ---------- which headers decode ----------

  predicate Utf8Info(i: Info) { Utf8(i.name) && Utf8(i.dtype) }

  lemma {:induction false} DecimalsAscii(shape: seq<nat>)
    ensures Ascii(Join(Decimals(shape)))
  {
    if |shape| > 1 {
      DecimalsAscii(shape[1..]);
      assert Decimals(shape)[1..] == Decimals(shape[1..]);
      var rest := Join(Decimals(shape[1..]));
      assert Join(Decimals(shape)) == Decimal(shape[0]) + "," + rest;
    }
  }

  /** ASCII text around other text changes nothing about its being UTF-8. */
  lemma Utf8Behind(x: Text, lit: Text)
    requires Ascii(lit)
    ensures Utf8(x + lit) <==> Utf8(x)
  {
    AsciiUtf8(lit);
    Utf8Concat(x, lit);
  }

  lemma {:induction false} Utf8Before(lit: Text, x: Text)
    requires Ascii(lit)
    ensures Utf8(lit + x) <==> Utf8(x)
  {
    if lit == [] {
      assert lit + x == x;
    } else {
      assert (lit + x)[1..] == lit[1..] + x;
      Utf8Before(lit[1..], x);
    }
  }

  lemma LiteralsAscii()
    ensures Ascii("\":{\"dtype\":\"") && Ascii("\",\"shape\":[") && Ascii("],\"data_offsets\":[") && Ascii("]}")
  {
  }

  /** What stands around name and dtype in one tensor's text. */
  lemma InfoParts(i: Info) returns (middle: Text, after: Text)
    ensures Ascii(middle) && Ascii(after) && middle != [] && after != []
    ensures RenderInfo(i) == "\"" + (i.name + (middle + (i.dtype + after)))
  {
    LiteralsAscii();
    middle := "\":{\"dtype\":\"";
    DecimalsAscii(i.shape);
    after := "\",\"shape\":[" + (Join(Decimals(i.shape)) + "],\"data_offsets\":[") + (Decimal(i.start) + "," + Decimal(i.end) + "]}");
    hide Decimal, Decimals, Join, Ascii;
    InfoRegroup("\"", i.name, middle, i.dtype, "\",\"shape\":[", ShapePart(i.shape), PlacePart(i.start, i.end));
  }

  lemma InfoRegroup(q: Text, name: Text, middle: Text, dtype: Text, lit: Text, shape: Text, place: Text)
    ensures (q + name + middle) + (dtype + lit) + shape + place == q + (name + (middle + (dtype + (lit + shape + place))))
  {
  }

  lemma InfoUtf8(i: Info)
    ensures Utf8(RenderInfo(i)) <==> Utf8Info(i)
  {
    hide Utf8, RenderInfo;
    var middle, after := InfoParts(i);
    assert Ascii("\"");
    Utf8Before("\"", i.name + (middle + (i.dtype + after)));
    assert (middle + (i.dtype + after))[0] == middle[0];
    Utf8Concat(i.name, middle + (i.dtype + after));
    Utf8Before(middle, i.dtype + after);
    Utf8Behind(i.dtype, after);
  }

  lemma {:induction false} InfosUtf8(infos: seq<Info>)
    ensures Utf8(Join(RenderAll(infos))) <==> forall k | 0 <= k < |infos| :: Utf8Info(infos[k])
  {
    hide SequenceLength, RenderInfo, Utf8Info;
    if infos != [] {
      var first, more := infos[0], infos[1..];
      InfoUtf8(first);
      InfosUtf8(more);
      assert RenderAll(infos)[1..] == RenderAll(more);
      assert forall k | 1 <= k < |infos| :: infos[k] == more[k - 1];
      if more != [] {
        var rest := "," + Join(RenderAll(more));
        assert Join(RenderAll(infos)) == RenderInfo(first) + rest;
        Utf8Concat(RenderInfo(first), rest);
        assert Ascii(",");
        Utf8Before(",", Join(RenderAll(more)));
      } else {
        assert RenderAll(infos) == [RenderInfo(first)];
      }
    }
  }

  lemma HeaderUtf8(infos: seq<Info>)
    ensures Utf8(Render(infos)) <==> forall k | 0 <= k < |infos| :: Utf8Info(infos[k])
  {
    hide Utf8, Utf8Info, Join, RenderAll;
    var body := Join(RenderAll(infos));
    InfosUtf8(infos);
    assert Ascii("{") && Ascii("}");
    assert Render(infos) == "{" + (body + "}");
    Utf8Before("{", body + "}");
    Utf8Behind(body, "}");
  }

  predicate ReadableInfo(i: Info) { CleanInfo(i) && Utf8Info(i) }

  /** A rendered header reads back as itself exactly when every name and dtype is UTF-8 without quotes,
      backslashes and control characters. */
  lemma HeaderRoundTrip(infos: seq<Info>)
    ensures DecodeHeader(Render(infos)) == Some(infos) <==> forall k | 0 <= k < |infos| :: ReadableInfo(infos[k])
  {
    hide Utf8, Utf8Info, CleanInfo, Render, ReadHeader;
    HeaderUtf8(infos);
    GrammarRoundTrip(infos);
  }

  // ---------- writing ----------

  function Payloads(entries: seq<Entry>): (parts: seq<seq<byte>>)
    ensures |parts| == |entries|
  {
    seq(|entries|, i requires 0 <= i < |entries| => entries[i].bytes)
  }

  function InfoAt(entries: seq<Entry>, i: nat): Info
    requires i < |entries|
  {
    var e, parts := entries[i], Payloads(entries);
    Info(e.name, e.dtype, e.shape, |Concat(parts[..i])|, |Concat(parts[..i + 1])|)
  }

  function InfosOf(entries: seq<Entry>): (infos: seq<Info>)
    ensures |infos| == |entries|
  {
    seq(|entries|, i requires 0 <= i < |entries| => InfoAt(entries, i))
  }

  function ToBytes(t: Text): (bs: seq<byte>)
    ensures |bs| == |t|
  {
    seq(|t|, i requires 0 <= i < |t| => t[i] as int)
  }

  function ToText(bs: seq<byte>): (t: Text)
    ensures |t| == |bs|
  {
    seq(|bs|, i requires 0 <= i < |bs| => bs[i] as char)
  }

  function FileOf(header: Text, blob: seq<byte>): seq<byte> {
    LittleEndian(|header|, 8) + ToBytes(header) + blob
  }

  lemma InfosAppend(entries: seq<Entry>, n: nat)
    requires n < |entries|
    ensures InfosOf(entries[..n + 1]) == InfosOf(entries[..n]) + [InfoAt(entries, n)]
    ensures Payloads(entries[..n + 1]) == Payloads(entries[..n]) + [entries[n].bytes]
    ensures Concat(Payloads(entries[..n + 1])) == Concat(Payloads(entries[..n])) + entries[n].bytes
    ensures InfoAt(entries, n).start == |Concat(Payloads(entries[..n]))|
    ensures InfoAt(entries, n).end == |Concat(Payloads(entries[..n + 1]))|
  {
    ConcatAppend(Payloads(entries[..n]), entries[n].bytes);
    forall i | 0 <= i <= n + 1 ensures Payloads(entries)[..i] == Payloads(entries[..n + 1])[..i] {}
    assert Payloads(entries[..n + 1])[..n] == Payloads(entries[..n]);
    assert Payloads(entries[..n + 1])[..n + 1] == Payloads(entries[..n + 1]);
    forall i | 0 <= i < n ensures InfoAt(entries[..n], i) == InfoAt(entries[..n + 1], i) {
      assert Payloads(entries[..n])[..i] == Payloads(entries[..n + 1])[..i];
      assert Payloads(entries[..n])[..i + 1] == Payloads(entries[..n + 1])[..i + 1];
    }
  }

  lemma RenderAppend(infos: seq<Info>, i: Info)
    ensures Join(RenderAll(infos + [i])) ==
            if infos == [] then RenderInfo(i) else Join(RenderAll(infos)) + "," + RenderInfo(i)
  {
    hide RenderInfo;
    JoinAppend(RenderAll(infos), RenderInfo(i));
    assert RenderAll(infos + [i]) == RenderAll(infos) + [RenderInfo(i)];
  }

  /** The header grows with a separator before every tensor but the first; the blob's length supplies the offsets. */
  method WriteContainer(entries: seq<Entry>) returns (file: seq<byte>)
    ensures file == FileOf(Render(InfosOf(entries)), Concat(Payloads(entries)))
  {
    hide RenderInfo, Render, RenderAll, InfoAt, InfosOf, Payloads, Join, LittleEndian, ToBytes;
    var header: Text := "{";
    var blob: seq<byte> := [];
    assert Concat([]) == [] && Join([]) == [] by { NothingJoined(); }
    assert header == "{" + Join(RenderAll(InfosOf(entries[..0]))) by { assert RenderAll([]) == []; }
    for n := 0 to |entries|
      invariant header == "{" + Join(RenderAll(InfosOf(entries[..n])))
      invariant |header| > 1 <==> n > 0
      invariant blob == Concat(Payloads(entries[..n]))
    {
      var e := entries[n];
      InfosAppend(entries, n);
      RenderAppend(InfosOf(entries[..n]), InfoAt(entries, n));
      if |header| > 1 { header := header + ","; }
      var start := |blob|;
      blob := blob + e.bytes;
      var info := Info(e.name, e.dtype, e.shape, start, |blob|);
      assert info == InfoAt(entries, n) by { InfoFields(entries, n); }
      InfoNotEmpty(info);
      header := header + RenderInfo(info);
    }
    assert entries[..|entries|] == entries;
    header := header + "}";
    assert header == Render(InfosOf(entries)) by { RenderIs(InfosOf(entries)); }
    return LittleEndian(|header|, 8) + ToBytes(header) + blob;
  }

  lemma NothingJoined()
    ensures Concat([]) == [] && Join([]) == []
  {
  }

  lemma RenderIs(infos: seq<Info>)
    ensures Render(infos) == "{" + Join(RenderAll(infos)) + "}"
  {
  }

  lemma InfoFields(entries: seq<Entry>, n: nat)
    requires n < |entries|
    ensures var i, e := InfoAt(entries, n), entries[n]; i.name == e.name && i.dtype == e.dtype && i.shape == e.shape
  {
  }

  lemma InfoNotEmpty(i: Info)
    ensures RenderInfo(i) != []
  {
  }

  /** The offsets tile the blob: no gap, no overlap, nothing left over, and each slice is the payload. */
  lemma OffsetsTileBlob(entries: seq<Entry>, k: nat)
    requires k < |entries|
    ensures var infos, blob := InfosOf(entries), Concat(Payloads(entries));
            && infos[k].start + |entries[k].bytes| == infos[k].end <= |blob|
            && blob[infos[k].start..infos[k].end] == entries[k].bytes
            && infos[k].start == (if k == 0 then 0 else infos[k - 1].end)
            && (k == |entries| - 1 ==> infos[k].end == |blob|)
  {
    var parts := Payloads(entries);
    ConcatSlice(parts, k);
    assert parts[..|parts|] == parts;
  }

  // ---------- loading ----------

  /** A decoded tensor: its shape and the fp32 bit pattern of every element. */
  datatype Tensor = Tensor(shape: seq<nat>, bits: seq<nat>)

  datatype LoadError = BadHeader | UnknownDtype | BadBuffer | BadShape

  function Size(shape: seq<nat>): nat {
    if shape == [] then 1 else Size(shape[..|shape| - 1]) * shape[|shape| - 1]
  }

  /** The size of a shape made of two is the product of theirs, and that of one length the length. */
  lemma {:induction false} SizeConcat(a: seq<nat>, b: seq<nat>)
    ensures Size(a + b) == Size(a) * Size(b) && (|a| == 1 ==> Size(a) == a[0])
  {
    if b == [] {
      assert a + b == a;
    } else {
      var n := |b| - 1;
      SizeConcat(a, b[..n]);
      assert (a + b)[..|a| + n] == a + b[..n];
      TimesRegroup(Size(a), Size(b[..n]), b[n]);
    }
    if |a| == 1 { assert a[..0] == []; }
  }

  /** A slice with both ends clipped to the data. */
  function Clip(bs: seq<byte>, start: nat, end: nat): seq<byte> {
    var e := if end < |bs| then end else |bs|;
    if start <= e then bs[start..e] else []
  }

  /** Consecutive little-endian words. */
  function Words(bs: seq<byte>, width: nat): seq<nat>
    requires width > 0
    decreases |bs|
  {
    if |bs| < width then [] else [FromLittleEndian(bs[..width])] + Words(bs[width..], width)
  }

  /** BF16 patterns become fp32 patterns by moving up 16 bits. */
  function Widen(words: seq<nat>): seq<nat> {
    seq(|words|, i requires 0 <= i < |words| => words[i] * 0x10000)
  }

  function Decode(i: Info, data: seq<byte>): Result<Tensor, LoadError> {
    var raw := Clip(data, i.start, i.end);
    if i.dtype == "F32" then Shaped(i.shape, raw, 4, Words(raw, 4))
    else if i.dtype == "BF16" then Shaped(i.shape, raw, 2, Widen(Words(raw, 2)))
    else Err(UnknownDtype)
  }

  function Shaped(shape: seq<nat>, raw: seq<byte>, width: nat, bits: seq<nat>): Result<Tensor, LoadError>
    requires width > 0
  {
    if |raw| % width != 0 then Err(BadBuffer)
    else if |bits| != Size(shape) then Err(BadShape)
    else Ok(Tensor(shape, bits))
  }

  const METADATA: Text := "__metadata__"

  /** A later field of the same name replaces an earlier one before anything is decoded. */
  predicate Replaced(infos: seq<Info>, k: nat)
    requires k < |infos|
  {
    exists j | k < j < |infos| :: infos[j].name == infos[k].name
  }

  function LoadTo(infos: seq<Info>, data: seq<byte>, n: nat): Result<map<Text, Tensor>, LoadError>
    requires n <= |infos|
  {
    if n == 0 then Ok(map[])
    else
      match LoadTo(infos, data, n - 1)
      case Err(e) => Err(e)
      case Ok(out) =>
        var i := infos[n - 1];
        if i.name == METADATA || Replaced(infos, n - 1) then Ok(out)
        else
          match Decode(i, data)
          case Err(e) => Err(e)
          case Ok(t) => Ok(out[i.name := t])
  }

  /** What loading comes to: it succeeds exactly when every field that counts decodes, that is, every one
      but the metadata and those a later field of the same name replaces, and returns those. */
  lemma {:induction false} LoadIff(infos: seq<Info>, data: seq<byte>, n: nat)
    requires n <= |infos|
    ensures LoadTo(infos, data, n).Ok? <==> forall k | 0 <= k < n && Counts(infos, k) :: Decode(infos[k], data).Ok?
    ensures LoadTo(infos, data, n).Ok? ==>
              var out := LoadTo(infos, data, n).value;
              && (forall k | 0 <= k < n && Counts(infos, k) ::
                    infos[k].name in out && Decode(infos[k], data) == Ok(out[infos[k].name]))
              && (forall name | name in out :: exists k | 0 <= k < n && Counts(infos, k) :: infos[k].name == name)
  {
    hide Decode;
    if n != 0 { LoadIff(infos, data, n - 1); }
  }

  ghost predicate Counts(infos: seq<Info>, k: nat)
    requires k < |infos|
  {
    infos[k].name != "__metadata__" && forall j | k < j < |infos| :: infos[j].name != infos[k].name
  }

  /** A tensor decodes exactly when its bytes are whole elements of its dtype, and as many as its shape. */
  lemma DecodeIff(i: Info, data: seq<byte>)
    ensures var raw := Clip(data, i.start, i.end);
            Decode(i, data).Ok? <==> (i.dtype == "F32" && |raw| == 4 * Size(i.shape)) || (i.dtype == "BF16" && |raw| == 2 * Size(i.shape))
  {
    hide Size, Words;
    var raw := Clip(data, i.start, i.end);
    assert |raw| % 4 == 0 ==> |Words(raw, 4)| == |raw| / 4 by { if |raw| % 4 == 0 { WordCount(raw, 4, |raw| / 4); } }
    assert |raw| % 2 == 0 ==> |Words(raw, 2)| == |raw| / 2 by { if |raw| % 2 == 0 { WordCount(raw, 2, |raw| / 2); } }
  }

  /** The length prefix, the header it delimits, and the rest. */
  function LoadFile(file: seq<byte>): Result<map<Text, Tensor>, LoadError> {
    var n := FromLittleEndian(Clip(file, 0, 8));
    match DecodeHeader(ToText(Clip(file, 8, 8 + n)))
    case None => Err(BadHeader)
    case Some(infos) => LoadTo(infos, Clip(file, 8 + n, |file|), |infos|)
  }

  method LoadSafetensors(file: seq<byte>) returns (r: Result<map<Text, Tensor>, LoadError>)
    ensures r == LoadFile(file)
  {
    hide Decode, DecodeHeader;
    var n := FromLittleEndian(Clip(file, 0, 8));
    var hdr := DecodeHeader(ToText(Clip(file, 8, 8 + n)));
    if hdr == None { return Err(BadHeader); }
    var infos := hdr.value;
    var data := Clip(file, 8 + n, |file|);
    var out: map<Text, Tensor> := map[];
    for k := 0 to |infos|
      invariant LoadTo(infos, data, k) == Ok(out)
    {
      var i := infos[k];
      if i.name != METADATA && !Replaced(infos, k) {
        match Decode(i, data) {
          case Err(e) =>
            LoadErrSticks(infos, data, k + 1, |infos|);
            return Err(e);
          case Ok(t) => out := out[i.name := t];
        }
      }
    }
    return Ok(out);
  }

  lemma {:induction false} LoadErrSticks(infos: seq<Info>, data: seq<byte>, k: nat, n: nat)
    requires k <= n <= |infos| && LoadTo(infos, data, k).Err?
    ensures LoadTo(infos, data, n) == LoadTo(infos, data, k)
    decreases n
  {
    hide Decode;
    if k < n { LoadErrSticks(infos, data, k, n - 1); }
  }

  // ---------- the round trip ----------

  function WidthOf(dtype: Text): nat { if dtype == "F32" then 4 else 2 }

  /** A tensor the reader can hold: a name it reads, a dtype it decodes, and as many bytes as the shape needs. */
  predicate Loadable(e: Entry) {
    && Clean(e.name) && Utf8(e.name)
    && (e.dtype == "F32" || e.dtype == "BF16")
    && |e.bytes| == Size(e.shape) * WidthOf(e.dtype)
  }

  predicate Distinct(entries: seq<Entry>) {
    forall i, j | 0 <= i < j < |entries| :: entries[i].name != entries[j].name
  }

  function TensorOf(e: Entry): Tensor {
    Tensor(e.shape, if e.dtype == "F32" then Words(e.bytes, 4) else Widen(Words(e.bytes, 2)))
  }

  function TensorsTo(entries: seq<Entry>, n: nat): map<Text, Tensor>
    requires n <= |entries|
  {
    if n == 0 then map[] else TensorsTo(entries, n - 1)[entries[n - 1].name := TensorOf(entries[n - 1])]
  }

  /** With distinct names every entry keeps its own tensor and there is nothing else. */
  lemma {:induction false} TensorsLookup(entries: seq<Entry>, n: nat)
    requires n <= |entries| && Distinct(entries)
    ensures forall k | 0 <= k < n ::
              entries[k].name in TensorsTo(entries, n) && TensorsTo(entries, n)[entries[k].name] == TensorOf(entries[k])
    ensures forall name | name in TensorsTo(entries, n) :: exists k | 0 <= k < n :: entries[k].name == name
  {
    hide TensorOf;
    if n != 0 {
      TensorsLookup(entries, n - 1);
      var last := entries[n - 1];
      forall name | name in TensorsTo(entries, n) ensures exists k | 0 <= k < n :: entries[k].name == name {
        if name == last.name {
          assert entries[n - 1].name == name;
        } else {
          assert name in TensorsTo(entries, n - 1);
        }
      }
    }
  }

  lemma {:induction false} WordCount(bs: seq<byte>, width: nat, count: nat)
    requires width > 0 && |bs| == count * width
    ensures |Words(bs, width)| == count
    decreases count
  {
    if count != 0 {
      assert |bs[width..]| == (count - 1) * width;
      WordCount(bs[width..], width, count - 1);
    }
  }

  lemma DecodeEntry(e: Entry, i: Info, data: seq<byte>)
    requires Loadable(e) && i.dtype == e.dtype && i.shape == e.shape
    requires Clip(data, i.start, i.end) == e.bytes
    ensures Decode(i, data) == Ok(TensorOf(e))
  {
    hide Size, Words;
    var w, n := WidthOf(e.dtype), Size(e.shape);
    WordCount(e.bytes, w, n);
    MultipleMod(n, w);
  }

  lemma MultipleMod(n: nat, w: nat)
    requires w > 0
    ensures (n * w) % w == 0
  {
    Rounding.DivModUnique(n * w, w, n, 0);
  }

  lemma {:induction false} LoadEntries(entries: seq<Entry>, n: nat)
    requires n <= |entries| && Distinct(entries)
    requires forall k | 0 <= k < |entries| :: Loadable(entries[k])
    ensures LoadTo(InfosOf(entries), Concat(Payloads(entries)), n) == Ok(TensorsTo(entries, n) - {METADATA})
  {
    hide Decode, TensorOf, Loadable, InfosOf;
    if n != 0 {
      var k := n - 1;
      LoadEntries(entries, k);
      EntryDecodes(entries, k);
      AddKept(TensorsTo(entries, k), entries[k].name, TensorOf(entries[k]));
    } else {
      assert TensorsTo(entries, 0) - {METADATA} == map[];
    }
  }

  lemma AddKept(m: map<Text, Tensor>, name: Text, t: Tensor)
    ensures m[name := t] - {METADATA} == if name == METADATA then m - {METADATA} else (m - {METADATA})[name := t]
  {
  }

  lemma EntryDecodes(entries: seq<Entry>, k: nat)
    requires k < |entries| && Distinct(entries) && Loadable(entries[k])
    ensures var infos := InfosOf(entries);
            && infos[k].name == entries[k].name && !Replaced(infos, k)
            && Decode(infos[k], Concat(Payloads(entries))) == Ok(TensorOf(entries[k]))
  {
    hide Decode, TensorOf, Concat, Clean, Utf8;
    OffsetsTileBlob(entries, k);
    DecodeEntry(entries[k], InfosOf(entries)[k], Concat(Payloads(entries)));
  }

  lemma FileParts(header: Text, blob: seq<byte>)
    requires |header| < Bound(8)
    ensures var file := FileOf(header, blob);
            && FromLittleEndian(Clip(file, 0, 8)) == |header|
            && ToText(Clip(file, 8, 8 + |header|)) == header
            && Clip(file, 8 + |header|, |file|) == blob
  {
    hide LittleEndian, FromLittleEndian, Bound;
    var file := FileOf(header, blob);
    LittleEndianRoundTrip(|header|, 8);
    assert file[0..8] == LittleEndian(|header|, 8);
    assert file[8..8 + |header|] == ToBytes(header);
    assert file[8 + |header|..|file|] == blob;
  }

  /** Loading what was written gives every tensor back under its name with its shape and values, except
      one named like the metadata field; so the two are inverse exactly when there is none. */
  lemma ContainerRoundTrip(entries: seq<Entry>)
    requires Distinct(entries) && forall k | 0 <= k < |entries| :: Loadable(entries[k])
    requires |Render(InfosOf(entries))| < Bound(8)
    ensures var r := LoadFile(FileOf(Render(InfosOf(entries)), Concat(Payloads(entries))));
            && r == Ok(TensorsTo(entries, |entries|) - {METADATA})
            && (r == Ok(TensorsTo(entries, |entries|)) <==> forall k | 0 <= k < |entries| :: entries[k].name != "__metadata__")
  {
    hide Render, Concat, Payloads, FromLittleEndian, LittleEndian, Bound, FileOf, Clip, ToText;
    hide LoadTo, TensorsTo, InfosOf, Loadable, ReadableInfo, DecodeHeader, Distinct;
    var infos := InfosOf(entries);
    forall k | 0 <= k < |infos| ensures ReadableInfo(infos[k]) { LoadableIsReadable(entries, k); }
    HeaderRoundTrip(infos);
    FileParts(Render(infos), Concat(Payloads(entries)));
    LoadEntries(entries, |entries|);
    MetadataNameIsLost(entries);
  }

  lemma LoadableIsReadable(entries: seq<Entry>, k: nat)
    requires k < |entries| && Loadable(entries[k])
    ensures ReadableInfo(InfosOf(entries)[k])
  {
    DtypesReadable();
    hide Utf8, Clean, Size;
  }

  lemma DtypesReadable()
    ensures Clean("F32") && Clean("BF16") && Utf8("F32") && Utf8("BF16")
  {
    AsciiUtf8("F32");
    AsciiUtf8("BF16");
  }

  /** Taking the metadata name away loses a tensor exactly when one has that name. */
  lemma MetadataNameIsLost(entries: seq<Entry>)
    requires Distinct(entries)
    ensures TensorsTo(entries, |entries|) - {METADATA} == TensorsTo(entries, |entries|) <==>
            forall k | 0 <= k < |entries| :: entries[k].name != "__metadata__"
  {
    hide TensorsTo, Distinct;
    TensorsLookup(entries, |entries|);
    if k :| 0 <= k < |entries| && entries[k].name == METADATA {
      assert METADATA in TensorsTo(entries, |entries|);
    }
  }

  // ---------- values ----------

  function WordBytes(words: seq<nat>, width: nat): seq<byte> {
    if words == [] then [] else LittleEndian(words[0], width) + WordBytes(words[1..], width)
  }

  /** The words put in are the words read, so F32 tensors keep every bit pattern. */
  lemma {:induction false} WordsRoundTrip(words: seq<nat>, width: nat)
    requires width > 0 && forall i | 0 <= i < |words| :: words[i] < Bound(width)
    ensures Words(WordBytes(words, width), width) == words
  {
    hide LittleEndian, FromLittleEndian, Bound;
    if words != [] {
      var bs := WordBytes(words, width);
      LittleEndianRoundTrip(words[0], width);
      assert bs[..width] == LittleEndian(words[0], width);
      assert bs[width..] == WordBytes(words[1..], width);
      WordsRoundTrip(words[1..], width);
    }
  }

  /** Both patterns are NaNs, or the fp32 one has the value of the bf16 one. */
  ghost predicate SameValue(fp32: nat, b: nat) {
    var bf16 := Rounding.FP32.Shorten(16);
    && bf16.IsBits(b) && Rounding.FP32.IsBits(fp32)
    && (bf16.IsNaN(b) <==> Rounding.FP32.IsNaN(fp32))
    && (!bf16.IsNaN(b) ==>
          Rounding.ValueOf(Rounding.FP32, fp32, 1) == Rounding.ValueOf(bf16, b, Rounding.Pow2(16)))
  }

  lemma ShiftKeepsValue(b: nat)
    requires b < 0x1_0000
    ensures SameValue(b * 0x10000, b)
  {
    hide Rounding.ValueOf;
    var bf16 := Rounding.FP32.Shorten(16);
    Rounding.Pow2Constants();
    if !bf16.IsNaN(b) {
      Rounding.ValueOfKey(bf16, b, Rounding.Pow2(16));
      Rounding.ValueOfKey(Rounding.FP32, b * 0x10000, 1);
      Rounding.ShortValue(Rounding.FP32, 16, Rounding.Key(bf16, b));
    }
  }

  // ---------- what the loaded elements are ----------

  /** Word `i` is the bytes from `i * width` on. */
  lemma {:induction false} WordAt(bs: seq<byte>, width: nat, count: nat, i: nat)
    requires width > 0 && |bs| == count * width && i < count
    ensures 0 <= i * width && i * width + width <= |bs| && |Words(bs, width)| == count
    ensures Words(bs, width)[i] == FromLittleEndian(bs[i * width..i * width + width])
    decreases count
  {
    hide FromLittleEndian;
    OneLess(count, width);
    WordCount(bs, width, count);
    if i != 0 {
      OneLess(i, width);
      var from := (i - 1) * width;
      WordAt(bs[width..], width, count - 1, i - 1);
      assert bs[width..][from..from + width] == bs[width + from..width + from + width];
    } else {
      assert 0 * width == 0;
    }
  }

  lemma OneLess(n: nat, width: nat)
    requires n > 0
    ensures n * width == width + (n - 1) * width && (n - 1) * width >= 0
  {
  }

  lemma TwoBytes(bs: seq<byte>)
    requires |bs| == 2
    ensures FromLittleEndian(bs) == (bs[0] as int) + 256 * (bs[1] as int)
  {
    assert FromLittleEndian(bs[1..]) == (bs[1] as int) + 256 * FromLittleEndian(bs[1..][1..]);
    assert bs[1..][1..] == [];
  }

  lemma FourBytes(bs: seq<byte>)
    requires |bs| == 4
    ensures FromLittleEndian(bs) == (bs[0] as int) + 256 * (bs[1] as int) + 65536 * (bs[2] as int) + 16777216 * (bs[3] as int)
  {
    assert bs == bs[..2] + bs[2..];
    TwoBytes(bs[2..]);
    assert bs[1..][1..] == bs[2..];
  }

  /** The words of a payload, byte by byte. */
  lemma FourByteWords(bs: seq<byte>, n: nat)
    requires |bs| == n * 4
    ensures |Words(bs, 4)| == n
    ensures forall i | 0 <= i < n :: Words(bs, 4)[i] ==
              (bs[4 * i] as int) + 256 * (bs[4 * i + 1] as int) + 65536 * (bs[4 * i + 2] as int) + 16777216 * (bs[4 * i + 3] as int)
  {
    hide Words, FromLittleEndian;
    WordCount(bs, 4, n);
    forall i: nat | i < n
      ensures Words(bs, 4)[i] ==
              (bs[4 * i] as int) + 256 * (bs[4 * i + 1] as int) + 65536 * (bs[4 * i + 2] as int) + 16777216 * (bs[4 * i + 3] as int)
    {
      WordAt(bs, 4, n, i);
      FourBytes(bs[i * 4..i * 4 + 4]);
    }
  }

  lemma TwoByteWords(bs: seq<byte>, n: nat)
    requires |bs| == n * 2
    ensures |Words(bs, 2)| == n
    ensures forall i | 0 <= i < n :: Words(bs, 2)[i] == (bs[2 * i] as int) + 256 * (bs[2 * i + 1] as int)
  {
    hide Words, FromLittleEndian;
    WordCount(bs, 2, n);
    forall i: nat | i < n ensures Words(bs, 2)[i] == (bs[2 * i] as int) + 256 * (bs[2 * i + 1] as int) {
      WordAt(bs, 2, n, i);
      TwoBytes(bs[i * 2..i * 2 + 2]);
    }
  }

  /** The elements of a tensor, from its bytes. */
  lemma ElementsOf(e: Entry)
    requires Loadable(e)
    ensures TensorOf(e).shape == e.shape
    ensures e.dtype == "F32" ==> |e.bytes| == 4 * |TensorOf(e).bits| && forall i | 0 <= i < |TensorOf(e).bits| ::
              TensorOf(e).bits[i] == (e.bytes[4 * i] as int) + 256 * (e.bytes[4 * i + 1] as int)
                                     + 65536 * (e.bytes[4 * i + 2] as int) + 16777216 * (e.bytes[4 * i + 3] as int)
    ensures e.dtype == "BF16" ==> |e.bytes| == 2 * |TensorOf(e).bits| && forall i | 0 <= i < |TensorOf(e).bits| ::
              TensorOf(e).bits[i] == 0x10000 * ((e.bytes[2 * i] as int) + 256 * (e.bytes[2 * i + 1] as int))
  {
    hide Words, Size, Clean, Utf8;
    if e.dtype == "F32" { FourByteWords(e.bytes, Size(e.shape)); } else { TwoByteWords(e.bytes, Size(e.shape)); }
  }

  /** Every tensor loaded from a written file has the shape written, and as elements the four bytes of
      each F32 element, least significant first, or the two of each BF16 element above two zero bytes. */
  lemma LoadedElements(entries: seq<Entry>, k: nat)
    requires Distinct(entries) && forall j | 0 <= j < |entries| :: Loadable(entries[j])
    requires |Render(InfosOf(entries))| < Bound(8)
    requires k < |entries| && entries[k].name != "__metadata__"
    ensures var r := LoadFile(FileOf(Render(InfosOf(entries)), Concat(Payloads(entries)))); var bytes := entries[k].bytes;
            && r.Ok? && entries[k].name in r.value
            && var t := r.value[entries[k].name];
            && t.shape == entries[k].shape
            && (entries[k].dtype == "F32" ==> |bytes| == 4 * |t.bits| && forall i | 0 <= i < |t.bits| ::
                  t.bits[i] == (bytes[4 * i] as int) + 256 * (bytes[4 * i + 1] as int)
                               + 65536 * (bytes[4 * i + 2] as int) + 16777216 * (bytes[4 * i + 3] as int))
            && (entries[k].dtype == "BF16" ==> |bytes| == 2 * |t.bits| && forall i | 0 <= i < |t.bits| ::
                  t.bits[i] == 0x10000 * ((bytes[2 * i] as int) + 256 * (bytes[2 * i + 1] as int)))
  {
    hide LoadFile, FileOf, Render, Concat, Payloads, InfosOf, TensorsTo, TensorOf, Distinct, Size, Bound;
    ContainerRoundTrip(entries);
    TensorsLookup(entries, |entries|);
    ElementsOf(entries[k]);
  }

  /** Every BF16 element loaded has the value of the pattern its two bytes hold, or is a NaN like it. */
  lemma WideningIsExact(entries: seq<Entry>, k: nat, i: nat)
    requires Distinct(entries) && forall j | 0 <= j < |entries| :: Loadable(entries[j])
    requires |Render(InfosOf(entries))| < Bound(8)
    requires k < |entries| && entries[k].name != "__metadata__" && entries[k].dtype == "BF16" && 2 * i + 1 < |entries[k].bytes|
    ensures var r := LoadFile(FileOf(Render(InfosOf(entries)), Concat(Payloads(entries))));
            && r.Ok? && entries[k].name in r.value && i < |r.value[entries[k].name].bits|
            && SameValue(r.value[entries[k].name].bits[i],
                         (entries[k].bytes[2 * i] as int) + 256 * (entries[k].bytes[2 * i + 1] as int))
  {
    hide LoadFile, FileOf, Render, Concat, Payloads, InfosOf, Distinct, Loadable, Bound, SameValue;
    LoadedElements(entries, k);
    ShiftKeepsValue((entries[k].bytes[2 * i] as int) + 256 * (entries[k].bytes[2 * i + 1] as int));
  }

  // ---------- shards ----------

  /** Later shards update earlier ones. */
  function Merge(shards: seq<map<Text, Tensor>>): map<Text, Tensor> {
    if shards == [] then map[] else Merge(shards[..|shards| - 1]) + shards[|shards| - 1]
  }

  ghost predicate NameDisjoint(shards: seq<map<Text, Tensor>>) {
    forall i, j | 0 <= i < j < |shards| :: shards[i].Keys !! shards[j].Keys
  }

  lemma {:induction false} MergeLookup(shards: seq<map<Text, Tensor>>, name: Text)
    requires NameDisjoint(shards)
    ensures name in Merge(shards) <==> exists i | 0 <= i < |shards| :: name in shards[i]
    ensures forall i | 0 <= i < |shards| :: name in shards[i] ==> Merge(shards)[name] == shards[i][name]
  {
    if shards != [] {
      var n := |shards| - 1;
      var front := shards[..n];
      MergeLookup(front, name);
      if name in shards[n] {
        forall i | 0 <= i < n ensures name !in shards[i] { assert shards[i].Keys !! shards[n].Keys; }
      } else if exists i | 0 <= i < |shards| :: name in shards[i] {
        var i :| 0 <= i < |shards| && name in shards[i];
        assert name in front[i];
      }
    }
  }

  /** Shards with disjoint names merge to the same tensors in any order. */
  lemma MergeOrderIrrelevant(xs: seq<map<Text, Tensor>>, ys: seq<map<Text, Tensor>>)
    requires NameDisjoint(xs) && NameDisjoint(ys) && multiset(xs) == multiset(ys)
    ensures Merge(xs) == Merge(ys)
  {
    forall name ensures name in Merge(xs) <==> name in Merge(ys)
      ensures name in Merge(xs) ==> Merge(xs)[name] == Merge(ys)[name]
    {
      MergeLookup(xs, name);
      MergeLookup(ys, name);
      if name in Merge(xs) {
        var i :| 0 <= i < |xs| && name in xs[i];
        assert xs[i] in multiset(xs);
        assert xs[i] in multiset(ys);
        var j :| 0 <= j < |ys| && ys[j] == xs[i];
        assert name in ys[j];
      }
      if name in Merge(ys) {
        var j :| 0 <= j < |ys| && name in ys[j];
        assert ys[j] in multiset(ys);
        assert ys[j] in multiset(xs);
        var i :| 0 <= i < |xs| && xs[i] == ys[j];
        assert name in xs[i];
      }
    }
  }
}
