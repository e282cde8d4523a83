/** The cpio "newc" record: hexadecimal fields, header, padding, and reading one back. */
module CpioFormat {
  import opened Common
  import opened Paths

  const HEADER_LEN: nat := 110
  const NEWC_MAGIC: Text := [48, 55, 48, 55, 48, 49]   // "070701"
  const CRC_MAGIC: Text := [48, 55, 48, 55, 48, 50]    // "070702"
  const TRAILER: Text := [84, 82, 65, 73, 76, 69, 82, 33, 33, 33]   // "TRAILER!!!"
  const ZERO: Text := [48, 48, 48, 48, 48, 48, 48, 48]
  const ONE: Text := [48, 48, 48, 48, 48, 48, 48, 49]
  const U32: nat := 0x1_0000_0000

  // ------------------------------------------------------------------ hexadecimal

  function HexDigit(d: nat): Byte
    requires d < 16
  {
    if d < 10 then 48 + d else 87 + d
  }

  /** Both cases of letters are read. */
  function DigitValue(b: Byte): Option<nat> {
    if 48 <= b <= 57 then Some(b - 48)
    else if 97 <= b <= 102 then Some(b - 87)
    else if 65 <= b <= 70 then Some(b - 55)
    else None
  }

  /** n in k digits, `{:08x}` for k = 8. */
  function Hex(n: nat, k: nat): (s: Text)
    ensures |s| == k
  {
    if k == 0 then [] else Hex(n / 16, k - 1) + [HexDigit(n % 16)]
  }

  function HexValue(s: Text): Option<nat> {
    if s == [] then Some(0)
    else
      match (HexValue(s[..|s| - 1]), DigitValue(s[|s| - 1]))
      case (Some(v), Some(d)) => Some(16 * v + d)
      case _ => None
  }

  /** `u32::from_str_radix(field, 16)`, which lets a plus sign stand before the digits. */
  function ParseHex(field: Text): Option<nat> {
    var digits := if field != [] && field[0] == 43 then field[1..] else field;
    if digits == [] then None
    else
      match HexValue(digits)
      case Some(v) => if v < U32 then Some(v) else None
      case None => None
  }

  function Power16(k: nat): nat { if k == 0 then 1 else 16 * Power16(k - 1) }

  lemma {:induction false} HexValueOfHex(n: nat, k: nat)
    requires n < Power16(k)
    ensures HexValue(Hex(n, k)) == Some(n)
    decreases k
  {
    if k > 0 {
      var s := Hex(n, k);
      assert s[..|s| - 1] == Hex(n / 16, k - 1);
      assert n / 16 < Power16(k - 1);
      HexValueOfHex(n / 16, k - 1);
      assert n == 16 * (n / 16) + n % 16;
    }
  }

  lemma {:induction false} HexHasNoSign(n: nat, k: nat, i: nat)
    requires i < k
    ensures Hex(n, k)[i] != 43
  {
    if i < k - 1 { HexHasNoSign(n / 16, k - 1, i); }
  }

  /** Reading a printed field gives back the number. */
  lemma {:induction false} ParseHexOfHex(n: nat)
    requires n < U32
    ensures ParseHex(Hex(n, 8)) == Some(n)
  {
    assert Power16(8) == U32 by { PowerOf8(); }
    HexValueOfHex(n, 8);
    HexHasNoSign(n, 8, 0);
  }

  lemma {:induction false} PowerOf8()
    ensures Power16(8) == U32
  {
    assert Power16(2) == 256;
    assert Power16(4) == 65536;
    assert Power16(6) == 16777216;
  }

  /** Fields of at most eight digits: which are read, and that sign and case of letters do not matter. */
  lemma {:induction false} ParseHexAccepts(s: Text)
    requires 0 < |s| <= 8
    ensures s[0] != 43 ==> (ParseHex(s).Some? <==> forall i :: 0 <= i < |s| ==> DigitValue(s[i]).Some?)
    ensures s[0] != 43 ==> ParseHex([43] + s) == ParseHex(s)
    ensures ParseHex(Lower(s)) == ParseHex(s)
  {
    HexDefined(s);
    PowerOf8();
    PowerGrows(|s|, 8);
    assert ([43] + s)[1..] == s;
    HexLower(s);
    if s[0] == 43 {
      assert Lower(s)[1..] == Lower(s[1..]);
      HexLower(s[1..]);
    }
  }

  /** Upper-case letters as lower-case ones. */
  function Lower(s: Text): (r: Text)
    ensures |r| == |s|
  {
    seq(|s|, i requires 0 <= i < |s| => if 65 <= s[i] <= 90 then s[i] + 32 else s[i])
  }

  lemma {:induction false} HexLower(s: Text)
    ensures HexValue(Lower(s)) == HexValue(s)
  {
    if s != [] {
      HexLower(s[..|s| - 1]);
      assert Lower(s)[..|s| - 1] == Lower(s[..|s| - 1]);
    }
  }

  lemma {:induction false} HexDefined(s: Text)
    ensures HexValue(s).Some? <==> forall i :: 0 <= i < |s| ==> DigitValue(s[i]).Some?
    ensures HexValue(s).Some? ==> HexValue(s).value < Power16(|s|)
  {
    if s != [] {
      var front := s[..|s| - 1];
      HexDefined(front);
      assert forall i :: 0 <= i < |front| ==> front[i] == s[i];
    }
  }

  lemma {:induction false} PowerGrows(a: nat, b: nat)
    requires a <= b
    ensures Power16(a) <= Power16(b)
    decreases b - a
  {
    if a < b { PowerGrows(a, b - 1); }
  }

  // ----------------------------------------------------------------------- UTF-8

  predicate Continues(s: Text, i: nat, lo: Byte, hi: Byte) { i < |s| && lo <= s[i] <= hi }

  /** Bytes of the first character, or 0 if the text does not start with one (table 3-7 of the Unicode standard). */
  function FirstLength(s: Text): (n: nat)
    ensures n <= |s|
  {
    if s == [] then 0
    else if s[0] < 0x80 then 1
    else if 0xC2 <= s[0] <= 0xDF then (if Continues(s, 1, 0x80, 0xBF) then 2 else 0)
    else if 0xE0 <= s[0] <= 0xEF then
      var lo := if s[0] == 0xE0 then 0xA0 else 0x80;
      var hi := if s[0] == 0xED then 0x9F else 0xBF;
      if Continues(s, 1, lo, hi) && Continues(s, 2, 0x80, 0xBF) then 3 else 0
    else if 0xF0 <= s[0] <= 0xF4 then
      var lo := if s[0] == 0xF0 then 0x90 else 0x80;
      var hi := if s[0] == 0xF4 then 0x8F else 0xBF;
      if Continues(s, 1, lo, hi) && Continues(s, 2, 0x80, 0xBF) && Continues(s, 3, 0x80, 0xBF) then 4 else 0
    else 0
  }

  /** `str::from_utf8` accepts it. */
  predicate Utf8(s: Text)
    decreases |s|
  {
    s == [] || (FirstLength(s) > 0 && Utf8(s[FirstLength(s)..]))
  }

  /** A Unicode scalar value: any code point but a surrogate. */
  predicate Scalar(c: nat) { c < 0x11_0000 && !(0xD800 <= c < 0xE000) }

  /** Its UTF-8 form (table 3-6 of the Unicode standard). */
  function Encode(c: nat): Text
    requires Scalar(c)
  {
    if c < 0x80 then [c]
    else if c < 0x800 then [0xC0 + c / 64, 0x80 + c % 64]
    else if c < 0x1_0000 then [0xE0 + c / 4096, 0x80 + c / 64 % 64, 0x80 + c % 64]
    else [0xF0 + c / 0x4_0000, 0x80 + c / 4096 % 64, 0x80 + c / 64 % 64, 0x80 + c % 64]
  }

  ghost predicate AllScalar(chars: seq<nat>) { forall i :: 0 <= i < |chars| ==> Scalar(chars[i]) }

  function EncodeAll(chars: seq<nat>): Text
    requires forall i :: 0 <= i < |chars| ==> Scalar(chars[i])
  {
    if chars == [] then [] else Encode(chars[0]) + EncodeAll(chars[1..])
  }

  /** The first character of a text is found whole. */
  lemma {:induction false} EncodedFirst(c: nat, s: Text)
    requires Scalar(c)
    ensures FirstLength(Encode(c) + s) == |Encode(c)| > 0
  {
    var e := Encode(c);
    var t := e + s;
    assert forall i :: 0 <= i < |e| ==> t[i] == e[i];
  }

  /** What is taken for a character is the form of one. */
  lemma {:induction false} FirstEncoded(s: Text) returns (c: nat)
    requires FirstLength(s) > 0
    ensures Scalar(c) && s[..FirstLength(s)] == Encode(c)
  {
    var n := FirstLength(s);
    if n == 1 {
      c := s[0];
    } else if n == 2 {
      c := TwoBytes(s[0], s[1]);
    } else if n == 3 {
      c := ThreeBytes(s[0], s[1], s[2]);
    } else {
      c := FourBytes(s[0], s[1], s[2], s[3]);
    }
  }

  lemma {:induction false} TwoBytes(a: Byte, b: Byte) returns (c: nat)
    requires 0xC2 <= a <= 0xDF && 0x80 <= b <= 0xBF
    ensures Scalar(c) && Encode(c) == [a, b]
  {
    c := (a - 0xC0) * 64 + (b - 0x80);
  }

  lemma {:induction false} ThreeBytes(a: Byte, b: Byte, d: Byte) returns (c: nat)
    requires 0xE0 <= a <= 0xEF && 0x80 <= b <= 0xBF && 0x80 <= d <= 0xBF
    requires (a == 0xE0 ==> b >= 0xA0) && (a == 0xED ==> b <= 0x9F)
    ensures Scalar(c) && Encode(c) == [a, b, d]
  {
    var q := (a - 0xE0) * 64 + (b - 0x80);
    c := q * 64 + (d - 0x80);
    assert c / 64 == q && c / 4096 == q / 64;
  }

  lemma {:induction false} FourBytes(a: Byte, b: Byte, d: Byte, e: Byte) returns (c: nat)
    requires 0xF0 <= a <= 0xF4 && 0x80 <= b <= 0xBF && 0x80 <= d <= 0xBF && 0x80 <= e <= 0xBF
    requires (a == 0xF0 ==> b >= 0x90) && (a == 0xF4 ==> b <= 0x8F)
    ensures Scalar(c) && Encode(c) == [a, b, d, e]
  {
    var p := (a - 0xF0) * 64 + (b - 0x80);
    var q := p * 64 + (d - 0x80);
    c := q * 64 + (e - 0x80);
    assert c / 64 == q && c / 4096 == q / 64 == p && c / 0x4_0000 == p / 64;
  }

  lemma {:induction false} EncodedIsUtf8(chars: seq<nat>)
    requires AllScalar(chars)
    ensures Utf8(EncodeAll(chars))
  {
    hide Scalar, Encode, FirstLength;
    if chars != [] {
      var rest := chars[1..];
      EncodedIsUtf8(rest);
      EncodedFirst(chars[0], EncodeAll(rest));
      var s := Encode(chars[0]) + EncodeAll(rest);
      assert s[|Encode(chars[0])|..] == EncodeAll(rest);
    }
  }

  lemma {:induction false} Utf8IsEncoded(s: Text) returns (chars: seq<nat>)
    requires Utf8(s)
    ensures AllScalar(chars) && EncodeAll(chars) == s
    decreases |s|
  {
    hide Scalar, Encode, FirstLength;
    if s == [] {
      chars := [];
    } else {
      var n := FirstLength(s);
      var c := FirstEncoded(s);
      var rest := Utf8IsEncoded(s[n..]);
      chars := [c] + rest;
      assert chars[1..] == rest && s == s[..n] + s[n..];
    }
  }

  /** The parser takes for text exactly the UTF-8 forms of sequences of Unicode scalar values. */
  lemma {:induction false} Utf8IffScalars(s: Text)
    ensures Utf8(s) <==> exists chars :: AllScalar(chars) && EncodeAll(chars) == s
  {
    hide Utf8, EncodeAll, Scalar;
    if Utf8(s) {
      var chars := Utf8IsEncoded(s);
    }
    if chars :| AllScalar(chars) && EncodeAll(chars) == s {
      EncodedIsUtf8(chars);
    }
  }

  // ---------------------------------------------------------------------- records

  function Align4(n: nat): (a: nat)
    ensures n <= a < n + 4 && a % 4 == 0
  {
    (n + 3) / 4 * 4
  }

  function Zeros(n: nat): (z: Text)
    ensures |z| == n
  {
    seq(n, i => 0)
  }

  function Padding(n: nat): (z: Text)
    ensures |z| == Align4(n) - n
  {
    Zeros(Align4(n) - n)
  }

  function Header(ino: nat, mode: nat, fileSize: nat, nameSize: nat): (h: Text)
    ensures |h| == HEADER_LEN
  {
    NEWC_MAGIC + Hex(ino, 8) + Hex(mode, 8) + (ZERO + ZERO + ONE + ZERO) + Hex(fileSize, 8)
    + (ZERO + ZERO + ZERO + ZERO) + Hex(nameSize, 8) + ZERO
  }

  /** The digits are those of `{:08x}`: 431 is "000001af". */
  lemma {:induction false} HexExample()
    ensures Hex(0x1AF, 8) == [48, 48, 48, 48, 48, 49, 97, 102]
  {
    assert Hex(0, 5) == [48, 48, 48, 48, 48];
    assert Hex(1, 6) == Hex(0, 5) + [49];
    assert Hex(0x1A, 7) == Hex(1, 6) + [97];
  }

  /** The thirteen fields after the magic, in their order. */
  function HeaderValues(ino: nat, mode: nat, fileSize: nat, nameSize: nat): (f: seq<nat>)
    ensures |f| == 13
  {
    [ino, mode, 0, 0, 1, 0, fileSize, 0, 0, 0, 0, nameSize, 0]
  }

  lemma {:induction false} HeaderLayout(ino: nat, mode: nat, fileSize: nat, nameSize: nat, i: nat)
    requires i < 13
    ensures Header(ino, mode, fileSize, nameSize)[..6] == [48, 55, 48, 55, 48, 49]
    ensures Header(ino, mode, fileSize, nameSize)[6 + 8 * i..14 + 8 * i] ==
      Hex(HeaderValues(ino, mode, fileSize, nameSize)[i], 8)
  {
    hide Hex;
    ConstantFields();
    var front := NEWC_MAGIC + Hex(ino, 8) + Hex(mode, 8) + (ZERO + ZERO + ONE + ZERO) + Hex(fileSize, 8);
    var back := (ZERO + ZERO + ZERO + ZERO) + Hex(nameSize, 8) + ZERO;
    assert Header(ino, mode, fileSize, nameSize) == front + back;
    if i < 7 {
      FrontFields(Hex(ino, 8), Hex(mode, 8), Hex(fileSize, 8), i);
      SliceLeft(front, back, 6 + 8 * i, 14 + 8 * i);
    } else {
      BackFields(Hex(nameSize, 8), i - 7);
      SliceRight(front, back, 6 + 8 * i, 14 + 8 * i);
    }
    SliceLeft(front, back, 0, 6);
  }

  lemma {:induction false} SliceLeft(a: Text, b: Text, i: nat, j: nat)
    requires i <= j <= |a|
    ensures (a + b)[i..j] == a[i..j]
  {
  }

  lemma {:induction false} SliceRight(a: Text, b: Text, i: nat, j: nat)
    requires |a| <= i <= j <= |a| + |b|
    ensures (a + b)[i..j] == b[i - |a|..j - |a|]
  {
  }

  lemma {:induction false} FrontFields(ino: Text, mode: Text, fileSize: Text, i: nat)
    requires |ino| == |mode| == |fileSize| == 8 && i < 7
    ensures var front := NEWC_MAGIC + ino + mode + (ZERO + ZERO + ONE + ZERO) + fileSize;
      && |front| == 62 && front[0..6] == NEWC_MAGIC
      && front[6 + 8 * i..14 + 8 * i] == [ino, mode, ZERO, ZERO, ONE, ZERO, fileSize][i]
  {
  }

  lemma {:induction false} BackFields(nameSize: Text, i: nat)
    requires |nameSize| == 8 && i < 6
    ensures var back := (ZERO + ZERO + ZERO + ZERO) + nameSize + ZERO;
      |back| == 48 && back[8 * i..8 + 8 * i] == [ZERO, ZERO, ZERO, ZERO, nameSize, ZERO][i]
  {
  }

  lemma {:induction false} ConstantFields()
    ensures Hex(0, 8) == ZERO && Hex(1, 8) == ONE
  {
    assert Hex(0, 7) == [48, 48, 48, 48, 48, 48, 48];
  }

  /** What is written for one node: header, name, NUL, padding, data, padding; sizes are cast to 32 bits. */
  datatype Item = Item(ino: nat, mode: nat, name: Text, data: Text)

  function Head(e: Item): (h: Text)
    ensures |h| == HEADER_LEN + |e.name| + 1
  {
    Header(e.ino, e.mode, |e.data| % U32, (|e.name| + 1) % U32) + e.name + [0]
  }

  function ItemBytes(e: Item): (b: Text)
    ensures |b| == Align4(|Head(e)|) + Align4(|e.data|)
  {
    var h := Head(e);
    h + Padding(|h|) + e.data + Padding(|e.data|)
  }

  // ------------------------------------------------------------------- reading back

  /** The position of the first NUL, or the length. */
  function NulAt(s: Text): (n: nat)
    ensures n <= |s| && (n < |s| ==> s[n] == 0) && forall i :: 0 <= i < n ==> s[i] != 0
  {
    if s == [] || s[0] == 0 then 0 else 1 + NulAt(s[1..])
  }

  datatype Raw = Raw(ino: nat, mode: nat, name: Text, data: Text, next: nat)

  datatype Fields = Fields(ino: nat, mode: nat, fileSize: nat, nameSize: nat)

  function ReadHeader(h: Text): Option<Fields>
    requires |h| == HEADER_LEN
  {
    if h[..6] != NEWC_MAGIC && h[..6] != CRC_MAGIC then None
    else
      match (ParseHex(h[6..14]), ParseHex(h[14..22]), ParseHex(h[54..62]), ParseHex(h[94..102]))
      case (Some(ino), Some(mode), Some(fileSize), Some(nameSize)) => Some(Fields(ino, mode, fileSize, nameSize))
      case _ => None
  }

  /** Both magic numbers are read alike, and no other is. */
  lemma {:induction false} BothMagics(h: Text)
    requires |h| == HEADER_LEN
    ensures ReadHeader([48, 55, 48, 55, 48, 49] + h[6..]) == ReadHeader([48, 55, 48, 55, 48, 50] + h[6..])
    ensures ReadHeader(h).Some? ==> h[..6] in {[48, 55, 48, 55, 48, 49], [48, 55, 48, 55, 48, 50]}
  {
    hide ParseHex;
    var a, b := NEWC_MAGIC + h[6..], CRC_MAGIC + h[6..];
    assert a[..6] == NEWC_MAGIC && b[..6] == CRC_MAGIC;
    assert a[6..14] == b[6..14] && a[14..22] == b[14..22] && a[54..62] == b[54..62] && a[94..102] == b[94..102];
  }

  /** One turn of the parser's loop up to the trailer test; None is InvalidInput. */
  function ReadItem(bytes: Text, cursor: nat): (r: Option<Raw>)
    requires cursor + HEADER_LEN <= |bytes|
    ensures r.Some? ==> r.value.next >= cursor + HEADER_LEN
  {
    match ReadHeader(bytes[cursor..cursor + HEADER_LEN])
    case None => None
    case Some(Fields(ino, mode, fileSize, nameSize)) =>
      var nameAt := cursor + HEADER_LEN;
      if nameSize == 0 || nameAt + nameSize > |bytes| then None
      else
        var raw := bytes[nameAt..nameAt + nameSize];
        var name := raw[..NulAt(raw)];
        var dataAt := Align4(nameAt + nameSize);
        if !Utf8(name) || dataAt + fileSize > |bytes| then None
        else Some(Raw(ino, mode, name, bytes[dataAt..dataAt + fileSize], Align4(dataAt + fileSize)))
  }

  lemma {:induction false} Slice(a: Text, b: Text, c: Text)
    ensures (a + b + c)[|a|..|a| + |b|] == b
    ensures |a + b + c| == |a| + |b| + |c|
  {
  }

  /** The fields the parser looks at are the ones the writer printed. */
  lemma {:induction false} HeaderFields(ino: nat, mode: nat, fileSize: nat, nameSize: nat)
    ensures var h := Header(ino, mode, fileSize, nameSize);
      && h[..6] == NEWC_MAGIC && h[6..14] == Hex(ino, 8) && h[14..22] == Hex(mode, 8)
      && h[54..62] == Hex(fileSize, 8) && h[94..102] == Hex(nameSize, 8)
  {
    hide Hex;
    Pieces(NEWC_MAGIC, Hex(ino, 8), Hex(mode, 8), ZERO + ZERO + ONE + ZERO, Hex(fileSize, 8),
           ZERO + ZERO + ZERO + ZERO, Hex(nameSize, 8), ZERO);
  }

  lemma {:induction false} ReadHeaderOf(ino: nat, mode: nat, fileSize: nat, nameSize: nat)
    requires ino < U32 && mode < U32 && fileSize < U32 && nameSize < U32
    ensures ReadHeader(Header(ino, mode, fileSize, nameSize)) == Some(Fields(ino, mode, fileSize, nameSize))
  {
    hide Header, ParseHex, Hex;
    HeaderFields(ino, mode, fileSize, nameSize);
    ParseHexOfHex(ino);
    ParseHexOfHex(mode);
    ParseHexOfHex(fileSize);
    ParseHexOfHex(nameSize);
  }

  lemma {:induction false} Pieces(m: Text, i: Text, o: Text, c: Text, f: Text, d: Text, n: Text, z: Text)
    requires |m| == 6 && |i| == |o| == |f| == |n| == 8 && |c| == |d| == 32
    ensures var h := m + i + o + c + f + d + n + z;
      |h| >= 102 && h[..6] == m && h[6..14] == i && h[14..22] == o && h[54..62] == f && h[94..102] == n
  {
    var h := m + i + o + c + f + d + n + z;
    assert h[..6] == m;
    assert h == m + i + (o + c + f + d + n + z);
    Slice(m, i, o + c + f + d + n + z);
    assert h == (m + i) + o + (c + f + d + n + z);
    Slice(m + i, o, c + f + d + n + z);
    assert h == (m + i + o + c) + f + (d + n + z);
    Slice(m + i + o + c, f, d + n + z);
    Slice(m + i + o + c + f + d, n, z);
  }

  lemma {:induction false} NulAfter(name: Text)
    requires 0 !in name
    ensures NulAt(name + [0]) == |name| && (name + [0])[..|name|] == name
  {
    var s := name + [0];
    assert s[|name|] == 0 && forall i :: 0 <= i < |name| ==> s[i] == name[i];
  }

  ghost predicate Writable(e: Item) {
    && e.ino < U32 && e.mode < U32 && |e.name| + 1 < U32
    && 0 !in e.name && Utf8(e.name)
  }

  function Recovered(e: Item, cursor: nat): Raw {
    var n := |e.data| % U32;
    Raw(e.ino, e.mode, e.name, e.data[..n], cursor + Align4(|Head(e)|) + Align4(n))
  }

  /**
   Reading a written record at an aligned position gives back its inode, mode
   and name, and as much of its data as the 32-bit size field can say.
   */
  lemma {:induction false} ReadWritten(pre: Text, e: Item, post: Text, bytes: Text)
    requires |pre| % 4 == 0 && Writable(e) && bytes == pre + ItemBytes(e) + post
    ensures |pre| + HEADER_LEN <= |bytes|
    ensures ReadItem(bytes, |pre|) == Some(Recovered(e, |pre|))
    ensures Recovered(e, |pre|).data == e.data <==> |e.data| < U32
  {
    hide Utf8, ReadHeader, NulAt, Header, Align4, Head, ItemBytes;
    var fs, ns := |e.data| % U32, |e.name| + 1;
    RecordSlices(pre, e, post, bytes, fs);
    ReadHeaderOf(e.ino, e.mode, fs, ns);
    NulAfter(e.name);
    AlignShift(|pre|, |Head(e)|);
    AlignShift(|pre| + Align4(|Head(e)|), fs);
  }

  lemma {:induction false} RecordSlices(pre: Text, e: Item, post: Text, bytes: Text, k: nat)
    requires Writable(e) && bytes == pre + ItemBytes(e) + post && k <= |e.data|
    ensures var nameAt, dataAt := |pre| + HEADER_LEN, |pre| + Align4(|Head(e)|);
      && nameAt + |e.name| + 1 <= dataAt && dataAt + k <= |bytes|
      && bytes[|pre|..nameAt] == Header(e.ino, e.mode, |e.data| % U32, |e.name| + 1)
      && bytes[nameAt..nameAt + |e.name| + 1] == e.name + [0]
      && bytes[dataAt..dataAt + k] == e.data[..k]
  {
    hide Utf8, Header, Align4, Padding;
    var h, hd := Header(e.ino, e.mode, |e.data| % U32, |e.name| + 1), Head(e);
    assert (|e.name| + 1) % U32 == |e.name| + 1;
    assert hd == h + (e.name + [0]);
    Layout(pre, h, e.name + [0], Padding(|hd|), e.data, Padding(|e.data|), post, k);
  }

  lemma {:induction false} AlignShift(a: nat, n: nat)
    requires a % 4 == 0
    ensures Align4(a + n) == a + Align4(n)
  {
  }

  /** Where the pieces of a record lie. */
  lemma {:induction false} Layout(pre: Text, h: Text, n: Text, p: Text, d: Text, q: Text, post: Text, k: nat)
    requires k <= |d|
    ensures var b := pre + (h + n + p + d + q) + post;
      && |b| == |pre| + |h| + |n| + |p| + |d| + |q| + |post|
      && b[|pre|..|pre| + |h|] == h
      && b[|pre| + |h|..|pre| + |h| + |n|] == n
      && b[|pre| + |h| + |n| + |p|..|pre| + |h| + |n| + |p| + k] == d[..k]
  {
    var b := pre + (h + n + p + d + q) + post;
    assert b == pre + h + (n + p + d + q + post);
    Slice(pre, h, n + p + d + q + post);
    assert b == (pre + h) + n + (p + d + q + post);
    Slice(pre + h, n, p + d + q + post);
    assert b == (pre + h + n + p) + d + (q + post);
    PrefixSlice(pre + h + n + p, d, q + post, k);
  }

  lemma {:induction false} PrefixSlice(a: Text, b: Text, c: Text, k: nat)
    requires k <= |b|
    ensures (a + b + c)[|a|..|a| + k] == b[..k]
  {
  }
}
