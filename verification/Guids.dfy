/** GUIDs: the in-memory structure, its comparison and its text form. */
module Guids {
  import opened Memory

  type Half = h: int | 0 <= h < 0x1_0000
  type Octets = s: seq<Byte> | |s| == 8 witness seq(8, _ => 0)

  datatype Guid = Guid(data1: Word, data2: Half, data3: Half, data4: Octets)

  /** The 16 bytes a GUID occupies in memory. */
  function Image(g: Guid): (s: seq<Byte>)
    ensures |s| == 16
  {
    Bytes(g.data1, 4) + Bytes(g.data2, 2) + Bytes(g.data3, 2) + g.data4
  }

  // ----- Comparison -----

  /** `((UINT64 *) Guid)[0]` */
  function Lo(g: Guid): Addr {
    Widths();
    Value(Image(g)[..8])
  }

  /** `((UINT64 *) Guid)[1]` */
  function Hi(g: Guid): Addr {
    Widths();
    Value(Image(g)[8..])
  }

  predicate CompareGuids(g1: Guid, g2: Guid) {
    Lo(g1) == Lo(g2) && Hi(g1) == Hi(g2)
  }

  /** CompareGuids against a GUID structure stored at address a. */
  predicate GuidAt(m: Mem, a: int, g: Guid) {
    Read64(m, a) == Lo(g) && Read64(m, a + 8) == Hi(g)
  }

  lemma ImageParts(g: Guid)
    ensures Image(g)[..4] == Bytes(g.data1, 4) && Image(g)[4..6] == Bytes(g.data2, 2)
    ensures Image(g)[6..8] == Bytes(g.data3, 2) && Image(g)[8..] == g.data4
  {
  }

  lemma CompareGuidsIsEquality(g1: Guid, g2: Guid)
    ensures CompareGuids(g1, g2) <==> g1 == g2
  {
    if CompareGuids(g1, g2) {
      hide Image, Bytes, Value, Pow256;
      var s, t := Image(g1), Image(g2);
      ValueUnique(s[..8], t[..8]);
      ValueUnique(s[8..], t[8..]);
      assert s == s[..8] + s[8..] == t;
      ImageParts(g1);
      ImageParts(g2);
      Widths();
      ValueOfBytes(g1.data1, 4);
      ValueOfBytes(g2.data1, 4);
      ValueOfBytes(g1.data2, 2);
      ValueOfBytes(g2.data2, 2);
      ValueOfBytes(g1.data3, 2);
      ValueOfBytes(g2.data3, 2);
    }
  }

  /** Comparing in memory is comparing values. */
  lemma GuidAtImage(m: Mem, a: int, stored: Guid, g: Guid)
    requires Holds(m, a, Image(stored))
    ensures GuidAt(m, a, g) <==> stored == g
  {
    hide Image, Holds, Value, Read;
    var s := Image(stored);
    assert s == s[..8] + s[8..];
    HoldsParts(m, a, s[..8], s[8..]);
    ReadHeld(m, a, s[..8]);
    ReadHeld(m, a + 8, s[8..]);
    CompareGuidsIsEquality(stored, g);
  }

  // ----- Text -----

  function HexDigit(v: nat): (c: char)
    requires v < 16
    ensures HexValue(c) == Some(v)
  {
    if v < 10 then ('0' as int + v) as char else ('a' as int + (v - 10)) as char
  }

  function HexValue(c: char): Option<nat> {
    if '0' <= c <= '9' then Some(c as int - '0' as int)
    else if 'a' <= c <= 'f' then Some(c as int - 'a' as int + 10)
    else None
  }

  /** Two lowercase hexadecimal digits a byte, in order. */
  function Hex(s: seq<Byte>): (t: string)
    ensures |t| == 2 * |s|
  {
    if s == [] then "" else [HexDigit(s[0] / 16), HexDigit(s[0] % 16)] + Hex(s[1..])
  }

  /** The numbers of a GUID are printed most significant byte first. */
  function Big2(v: Half): (s: seq<Byte>)
    ensures |s| == 2
  {
    [v / 0x100 % 0x100, v % 0x100]
  }

  function Big4(v: Word): (s: seq<Byte>)
    ensures |s| == 4
  {
    [v / 0x100_0000 % 0x100, v / 0x1_0000 % 0x100, v / 0x100 % 0x100, v % 0x100]
  }

  /** The 8-4-4-4-12 form of RFC 4122, section 3. */
  function Text(g: Guid): (t: string)
    ensures |t| == 36
  {
    Hex(Big4(g.data1)) + "-" + Hex(Big2(g.data2)) + "-" + Hex(Big2(g.data3)) + "-"
    + Hex(g.data4[..2]) + "-" + Hex(g.data4[2..])
  }

  /** A reader of hexadecimal byte strings. */
  function Unhex(t: string): Option<seq<Byte>> {
    if t == "" then Some([])
    else if |t| == 1 then None
    else
      match (HexValue(t[0]), HexValue(t[1]), Unhex(t[2..]))
      case (Some(h), Some(l), Some(rest)) =>
        if h < 16 && l < 16 then Some([16 * h + l] + rest) else None
      case _ => None
  }

  function Num2(s: seq<Byte>): Half
    requires |s| == 2
  {
    var high: int := s[0];
    0x100 * high + s[1]
  }

  function Num4(s: seq<Byte>): Word
    requires |s| == 4
  {
    Num2(s[2..]) + 0x1_0000 * Num2(s[..2])
  }

  /** A reader of the 8-4-4-4-12 form. */
  function Parse(t: string): Option<Guid> {
    if |t| != 36 || t[8] != '-' || t[13] != '-' || t[18] != '-' || t[23] != '-' then None
    else
      match Unhex(t[..8] + t[9..13] + t[14..18] + t[19..23] + t[24..])
      case Some(b) =>
        if |b| != 16 then None else Some(Guid(Num4(b[..4]), Num2(b[4..6]), Num2(b[6..8]), b[8..]))
      case None => None
  }

  lemma {:induction false} HexSplit(s: seq<Byte>, t: seq<Byte>)
    ensures Hex(s + t) == Hex(s) + Hex(t)
  {
    hide HexDigit;
    if s == [] {
      assert s + t == t;
    } else {
      HexSplit(s[1..], t);
      var head := [HexDigit(s[0] / 16), HexDigit(s[0] % 16)];
      assert (s + t)[1..] == s[1..] + t;
      assert Hex(s + t) == head + Hex(s[1..] + t);
      assert Hex(s) == head + Hex(s[1..]);
    }
  }

  lemma {:induction false} UnhexHex(s: seq<Byte>)
    ensures Unhex(Hex(s)) == Some(s)
  {
    if s != [] {
      var h, l := s[0] / 16, s[0] % 16;
      UnhexHex(s[1..]);
      var t := Hex(s);
      assert t == [HexDigit(h), HexDigit(l)] + Hex(s[1..]);
      assert t[2..] == Hex(s[1..]) && t[0] == HexDigit(h) && t[1] == HexDigit(l);
      assert Unhex(t) == Some([16 * h + l] + s[1..]);
      assert s == [s[0]] + s[1..];
    }
  }

  /** The bytes in the order they are printed. */
  function Printed(g: Guid): (s: seq<Byte>)
    ensures |s| == 16
  {
    Big4(g.data1) + Big2(g.data2) + Big2(g.data3) + g.data4[..2] + g.data4[2..]
  }

  /** t is split into groups as the text of g is. */
  predicate Grouped(g: Guid, t: string)
    requires |t| == 36
  {
    && t[8] == t[13] == t[18] == t[23] == '-'
    && t[..8] == Hex(Big4(g.data1))
    && t[9..13] == Hex(Big2(g.data2))
    && t[14..18] == Hex(Big2(g.data3))
    && t[19..23] == Hex(g.data4[..2])
    && t[24..] == Hex(g.data4[2..])
  }

  lemma TextGroups(g: Guid)
    ensures Grouped(g, Text(g))
  {
  }

  lemma HexPrinted(g: Guid)
    ensures Hex(Printed(g))
         == Hex(Big4(g.data1)) + Hex(Big2(g.data2)) + Hex(Big2(g.data3)) + Hex(g.data4[..2]) + Hex(g.data4[2..])
  {
    var b1, b2, b3 := Big4(g.data1), Big2(g.data2), Big2(g.data3);
    HexSplit(b1, b2);
    HexSplit(b1 + b2, b3);
    HexSplit(b1 + b2 + b3, g.data4[..2]);
    HexSplit(b1 + b2 + b3 + g.data4[..2], g.data4[2..]);
  }

  lemma PrintedGroups(g: Guid)
    ensures var b := Printed(g);
            b[..4] == Big4(g.data1) && b[4..6] == Big2(g.data2) && b[6..8] == Big2(g.data3) && b[8..] == g.data4
  {
  }

  lemma Num2Big2(h: Half)
    ensures Num2(Big2(h)) == h
  {
  }

  lemma Num4Big4(v: Word)
    ensures Num4(Big4(v)) == v
  {
    hide Num2;
    var high, low := v / 0x1_0000, v % 0x1_0000;
    assert Big4(v)[..2] == Big2(high) && Big4(v)[2..] == Big2(low) by { BigHalves(v); }
    Num2Big2(high);
    Num2Big2(low);
  }

  lemma BigHalves(v: Word)
    ensures Big4(v) == Big2(v / 0x1_0000) + Big2(v % 0x1_0000)
  {
    var high, low := v / 0x1_0000, v % 0x1_0000;
    assert v == 0x1_0000 * high + low;
    assert v / 0x100 == 0x100 * high + low / 0x100;
    assert v / 0x100_0000 == high / 0x100;
  }

  lemma ParseGrouped(g: Guid, t: string)
    requires |t| == 36 && Grouped(g, t)
    ensures Parse(t) == Some(g)
  {
    HexPrinted(g);
    UnhexHex(Printed(g));
    PrintedGroups(g);
    Num4Big4(g.data1);
    Num2Big2(g.data2);
    Num2Big2(g.data3);
  }

  /** Printing loses nothing: the reader recovers every GUID from its text. */
  lemma ParseText(g: Guid)
    ensures Parse(Text(g)) == Some(g)
  {
    TextGroups(g);
    ParseGrouped(g, Text(g));
  }

  /** Two GUIDs print alike exactly when CompareGuids calls them equal. */
  lemma SameTextIffEqual(g1: Guid, g2: Guid)
    ensures Text(g1) == Text(g2) <==> CompareGuids(g1, g2)
  {
    ParseText(g1);
    ParseText(g2);
    CompareGuidsIsEquality(g1, g2);
  }

  method ByteToAscii(b: Byte, str: array<char>, at: nat)
    requires at + 2 <= str.Length
    modifies str
    ensures PrintedAt(str[..], at, b)
    ensures str[..at] == old(str[..at]) && str[at + 2..] == old(str[at + 2..])
  {
    var val := b / 16 % 16;
    if 0 <= val <= 9 {
      str[at] := ('0' as int + val) as char;
    } else if 10 <= val <= 15 {
      str[at] := ('a' as int + val - 10) as char;
    }
    val := b % 16;
    if 0 <= val <= 9 {
      str[at + 1] := ('0' as int + val) as char;
    } else if 10 <= val <= 15 {
      str[at + 1] := ('a' as int + val - 10) as char;
    }
  }

  /** The two digits of b stand in t from position `at`. */
  predicate PrintedAt(t: string, at: nat, b: Byte)
    requires at + 2 <= |t|
  {
    t[at] == HexDigit(b / 16) && t[at + 1] == HexDigit(b % 16)
  }

  /** Which byte stands where in the part of the text before the last group. */
  predicate Front(g: Guid, t: string)
    requires |t| >= 24
  {
    && PrintedAt(t, 0, g.data1 / 0x100_0000 % 0x100)
    && PrintedAt(t, 2, g.data1 / 0x1_0000 % 0x100)
    && PrintedAt(t, 4, g.data1 / 0x100 % 0x100)
    && PrintedAt(t, 6, g.data1 % 0x100)
    && PrintedAt(t, 9, g.data2 / 0x100 % 0x100)
    && PrintedAt(t, 11, g.data2 % 0x100)
    && PrintedAt(t, 14, g.data3 / 0x100 % 0x100)
    && PrintedAt(t, 16, g.data3 % 0x100)
    && PrintedAt(t, 19, g.data4[0])
    && PrintedAt(t, 21, g.data4[1])
    && t[8] == t[13] == t[18] == t[23] == '-'
  }

  /** The i-th byte of a printed group stands at twice its index. */
  lemma {:induction false} GroupAt(t: string, at: nat, s: seq<Byte>, i: nat)
    requires at + 2 * |s| <= |t| && t[at..at + 2 * |s|] == Hex(s) && i < |s|
    ensures PrintedAt(t, at + 2 * i, s[i])
    decreases i
  {
    if i == 0 {
      assert t[at] == Hex(s)[0] && t[at + 1] == Hex(s)[1];
    } else {
      assert t[at + 2..at + 2 + 2 * |s[1..]|] == Hex(s)[2..] == Hex(s[1..]);
      GroupAt(t, at + 2, s[1..], i - 1);
    }
  }

  lemma GroupedFront(g: Guid, t: string)
    requires |t| == 36 && Grouped(g, t)
    ensures Front(g, t)
  {
    forall i: nat | i < 4
      ensures PrintedAt(t, 2 * i, Big4(g.data1)[i])
    {
      GroupAt(t, 0, Big4(g.data1), i);
    }
    assert PrintedAt(t, 2 * 0, Big4(g.data1)[0]) && PrintedAt(t, 2 * 1, Big4(g.data1)[1]);
    assert PrintedAt(t, 2 * 2, Big4(g.data1)[2]) && PrintedAt(t, 2 * 3, Big4(g.data1)[3]);
    GroupAt(t, 9, Big2(g.data2), 0);
    GroupAt(t, 9, Big2(g.data2), 1);
    GroupAt(t, 14, Big2(g.data3), 0);
    GroupAt(t, 14, Big2(g.data3), 1);
    GroupAt(t, 19, g.data4[..2], 0);
    GroupAt(t, 19, g.data4[..2], 1);
  }

  /** Printing the byte that stands next in t extends the copied part of t. */
  method PrintNext(b: Byte, str: array<char>, at: nat, ghost t: string)
    requires at + 2 <= |t| <= str.Length && str[..at] == t[..at] && PrintedAt(t, at, b)
    modifies str
    ensures str[..at + 2] == t[..at + 2]
  {
    ByteToAscii(b, str, at);
    assert str[..at + 2] == str[..at] + [str[at], str[at + 1]];
    assert t[..at + 2] == t[..at] + [t[at], t[at + 1]];
  }

  method PrintDash(str: array<char>, at: nat, ghost t: string)
    requires at < |t| <= str.Length && str[..at] == t[..at] && t[at] == '-'
    modifies str
    ensures str[..at + 1] == t[..at + 1]
  {
    str[at] := '-';
    assert str[..at + 1] == str[..at] + ['-'];
  }

  lemma GroupedTail(g: Guid, t: string)
    requires |t| == 36 && Grouped(g, t)
    ensures forall i: nat | 2 <= i < 8 :: PrintedAt(t, 20 + 2 * i, g.data4[i])
  {
    forall i: nat | 2 <= i < 8
      ensures PrintedAt(t, 20 + 2 * i, g.data4[i])
    {
      GroupAt(t, 24, g.data4[2..], i - 2);
    }
  }

  /** All 37 cells of the buffer are written. */
  method GuidToAsciiStr(g: Guid, str: array<char>)
    requires str.Length == 37
    modifies str
    ensures str[..] == Text(g) + ['\0']
  {
    ghost var t := Text(g);
    TextGroups(g);
    GroupedFront(g, t);
    GroupedTail(g, t);
    PrintNumbers(g, str, t);
    PrintOctets(g, str, t);
    assert str[..] == str[..36] + [str[36]];
  }

  method PrintNumbers(g: Guid, str: array<char>, ghost t: string)
    requires |t| <= str.Length && |t| >= 24 && Front(g, t)
    modifies str
    ensures str[..19] == t[..19]
  {
    PrintNext(g.data1 / 0x100_0000 % 0x100, str, 0, t);
    PrintNext(g.data1 / 0x1_0000 % 0x100, str, 2, t);
    PrintNext(g.data1 / 0x100 % 0x100, str, 4, t);
    PrintNext(g.data1 % 0x100, str, 6, t);
    PrintDash(str, 8, t);
    PrintNext(g.data2 / 0x100 % 0x100, str, 9, t);
    PrintNext(g.data2 % 0x100, str, 11, t);
    PrintDash(str, 13, t);
    PrintNext(g.data3 / 0x100 % 0x100, str, 14, t);
    PrintNext(g.data3 % 0x100, str, 16, t);
    PrintDash(str, 18, t);
  }

  method PrintOctets(g: Guid, str: array<char>, ghost t: string)
    requires str.Length == 37 && |t| == 36 && str[..19] == t[..19] && Front(g, t)
    requires forall i: nat | 2 <= i < 8 :: PrintedAt(t, 20 + 2 * i, g.data4[i])
    modifies str
    ensures str[..36] == t && str[36] == '\0'
  {
    PrintNext(g.data4[0], str, 19, t);
    PrintNext(g.data4[1], str, 21, t);
    PrintDash(str, 23, t);
    var idx1, idx2 := 2, 24;
    while idx2 < 36
      invariant 2 <= idx1 <= 8 && idx2 == 20 + 2 * idx1
      invariant str[..idx2] == t[..idx2]
    {
      PrintNext(g.data4[idx1], str, idx2, t);
      idx2 := idx2 + 2;
      idx1 := idx1 + 1;
    }
    str[36] := '\0';
  }
}
