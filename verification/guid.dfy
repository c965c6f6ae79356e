/** `GenerateUUID` (Windows): the text form of a GUID, printed with
    `"%08X-%04X-%04X-%02X%02X-%02X%02X%02X%02X%02X%02X"`. `CoCreateGuid`
    itself is left abstract: the fields are inputs. */
module Guid {
  import opened Ints
  import opened Wrappers

  /** The fields of the Win32 `GUID` structure. */
  datatype Guid = Guid(data1: UInt32, data2: UInt16, data3: UInt16, data4: seq<Byte>)

  function Pow16(n: nat): (r: nat)
    ensures r > 0
  {
    if n == 0 then 1 else 16 * Pow16(n - 1)
  }

  /** The field widths of a GUID hold exactly its field types. */
  lemma Pow16Widths()
    ensures Pow16(2) == 0x100 && Pow16(4) == 0x1_0000 && Pow16(8) == 0x1_0000_0000
  {
    assert Pow16(2) == 0x100;
    assert Pow16(4) == 0x1_0000;
  }

  /** The digits `%X` prints: upper-case hexadecimal. */
  predicate IsHexDigit(c: char) {
    '0' <= c <= '9' || 'A' <= c <= 'F'
  }

  function HexDigit(d: nat): (c: char)
    requires d < 16
    ensures IsHexDigit(c)
  {
    if d < 10 then ('0' as int + d) as char else ('A' as int + d - 10) as char
  }

  function DigitValue(c: char): (r: Option<nat>)
    ensures r.Some? <==> IsHexDigit(c)
    ensures r.Some? ==> r.value < 16
  {
    if '0' <= c <= '9' then Some(c as int - '0' as int)
    else if 'A' <= c <= 'F' then Some(c as int - 'A' as int + 10)
    else None
  }

  lemma DigitRoundTrip(d: nat)
    requires d < 16
    ensures DigitValue(HexDigit(d)) == Some(d)
  {
  }

  lemma DigitRoundTripBack(c: char)
    requires IsHexDigit(c)
    ensures HexDigit(DigitValue(c).value) == c
  {
  }

  /** `%0<width>X` of a value that fits in `width` digits: the digits of `v`
      in base 16, most significant first, zero-padded on the left. */
  function Hex(v: nat, width: nat): (r: string)
    requires v < Pow16(width)
    ensures |r| == width
    ensures forall i :: 0 <= i < |r| ==> IsHexDigit(r[i])
  {
    if width == 0 then []
    else Hex(v / 16, width - 1) + [HexDigit(v % 16)]
  }

  /** Reads a string of upper-case hex digits back into its value. */
  function ParseHex(s: string): (r: Option<nat>)
    ensures r.Some? ==> r.value < Pow16(|s|)
  {
    if |s| == 0 then Some(0)
    else
      match ParseHex(s[..|s| - 1])
      case None => None
      case Some(high) =>
        match DigitValue(s[|s| - 1])
        case None => None
        case Some(low) => Some(16 * high + low)
  }

  /** Reading the printed digits gives the value back. */
  lemma {:induction false} ParseHexOfHex(v: nat, width: nat)
    requires v < Pow16(width)
    ensures ParseHex(Hex(v, width)) == Some(v)
    decreases width
  {
    if width > 0 {
      var s := Hex(v, width);
      assert s[..|s| - 1] == Hex(v / 16, width - 1);
      ParseHexOfHex(v / 16, width - 1);
      DigitRoundTrip(v % 16);
    }
  }

  /** Printing a read value in the same width gives the digits back, so
      `Hex` and `ParseHex` are inverse on strings of hex digits. */
  lemma {:induction false} HexOfParseHex(s: string)
    requires forall i :: 0 <= i < |s| ==> IsHexDigit(s[i])
    ensures ParseHex(s).Some? && Hex(ParseHex(s).value, |s|) == s
    decreases |s|
  {
    if |s| > 0 {
      var init := s[..|s| - 1];
      HexOfParseHex(init);
      var high := ParseHex(init).value;
      var low := DigitValue(s[|s| - 1]).value;
      DigitRoundTripBack(s[|s| - 1]);
      assert (16 * high + low) / 16 == high && (16 * high + low) % 16 == low;
      assert s == init + [s[|s| - 1]];
    }
  }

  lemma SplitAt(a: string, b: string)
    ensures (a + b)[..|a|] == a && (a + b)[|a|..] == b
  {
  }

  /** `%02X` of each octet in turn. */
  function HexBytes(bs: seq<Byte>): (r: string)
    ensures |r| == 2 * |bs|
    ensures forall i :: 0 <= i < |r| ==> IsHexDigit(r[i])
  {
    if |bs| == 0 then []
    else
      Pow16Widths();
      Hex(bs[0], 2) + HexBytes(bs[1..])
  }

  /** Reads pairs of hex digits back into octets. */
  function ParseBytes(s: string): (r: Option<seq<Byte>>)
    ensures r.Some? ==> 2 * |r.value| == |s|
    decreases |s|
  {
    if |s| == 0 then Some([])
    else if |s| == 1 then None
    else
      match ParseHex(s[..2])
      case None => None
      case Some(b) =>
        match ParseBytes(s[2..])
        case None => None
        case Some(rest) => Some([b] + rest)
  }

  lemma {:induction false} ParseBytesOfHexBytes(bs: seq<Byte>)
    ensures ParseBytes(HexBytes(bs)) == Some(bs)
    decreases |bs|
  {
    if |bs| > 0 {
      Pow16Widths();
      var h := Hex(bs[0], 2);
      SplitAt(h, HexBytes(bs[1..]));
      ParseHexOfHex(bs[0], 2);
      ParseBytesOfHexBytes(bs[1..]);
      assert bs == [bs[0]] + bs[1..];
    }
  }

  lemma {:induction false} HexBytesOfParseBytes(s: string)
    requires forall i :: 0 <= i < |s| ==> IsHexDigit(s[i])
    requires |s| % 2 == 0
    ensures ParseBytes(s).Some? && HexBytes(ParseBytes(s).value) == s
    decreases |s|
  {
    if |s| > 0 {
      HexOfParseHex(s[..2]);
      HexBytesOfParseBytes(s[2..]);
      var bs := ParseBytes(s).value;
      assert bs[1..] == ParseBytes(s[2..]).value;
      assert s == s[..2] + s[2..];
    }
  }

  /** A string reads back exactly when it is all hex digits. */
  lemma {:induction false} ParseHexSucceeds(s: string)
    ensures ParseHex(s).Some? <==> forall i :: 0 <= i < |s| ==> IsHexDigit(s[i])
    decreases |s|
  {
    if |s| > 0 {
      ParseHexSucceeds(s[..|s| - 1]);
      assert forall i :: 0 <= i < |s| - 1 ==> s[..|s| - 1][i] == s[i];
    }
  }

  lemma {:induction false} ParseBytesSucceeds(s: string)
    ensures ParseBytes(s).Some? <==> |s| % 2 == 0 && forall i :: 0 <= i < |s| ==> IsHexDigit(s[i])
    decreases |s|
  {
    if |s| >= 2 {
      ParseHexSucceeds(s[..2]);
      ParseBytesSucceeds(s[2..]);
      assert forall i :: 2 <= i < |s| ==> s[2..][i - 2] == s[i];
      assert forall i :: 0 <= i < 2 ==> s[..2][i] == s[i];
    }
  }

  /** The positions of the four hyphens in the printed form. */
  predicate IsHyphenAt(i: int) {
    i == 8 || i == 13 || i == 18 || i == 23
  }

  /** The shape of every printed GUID: 36 characters, hyphens at positions
      8, 13, 18 and 23 and upper-case hex digits everywhere else. */
  predicate WellFormed(s: string) {
    |s| == 36 &&
    forall i :: 0 <= i < 36 ==> if IsHyphenAt(i) then s[i] == '-' else IsHexDigit(s[i])
  }

  /** The `sprintf_s` of `GenerateUUID`: Data1 in eight digits, Data2 and
      Data3 in four, the first two octets of Data4 together and the other
      six together, joined by hyphens. */
  function Format(g: Guid): (r: string)
    requires |g.data4| == 8
    ensures WellFormed(r)
  {
    Pow16Widths();
    var r := Hex(g.data1, 8) + "-" + Hex(g.data2, 4) + "-" + Hex(g.data3, 4) + "-"
      + HexBytes(g.data4[..2]) + "-" + HexBytes(g.data4[2..]);
    assert forall i :: 0 <= i < 8 ==> r[i] == Hex(g.data1, 8)[i];
    assert forall i :: 9 <= i < 13 ==> r[i] == Hex(g.data2, 4)[i - 9];
    assert forall i :: 14 <= i < 18 ==> r[i] == Hex(g.data3, 4)[i - 14];
    assert forall i :: 19 <= i < 23 ==> r[i] == HexBytes(g.data4[..2])[i - 19];
    assert forall i :: 24 <= i < 36 ==> r[i] == HexBytes(g.data4[2..])[i - 24];
    r
  }

  /** Reads the printed form back: `None` unless the string is well
      formed. */
  function Parse(s: string): (r: Option<Guid>)
    ensures r.Some? ==> |r.value.data4| == 8
  {
    if |s| != 36 || s[8] != '-' || s[13] != '-' || s[18] != '-' || s[23] != '-' then None
    else
      Pow16Widths();
      var d1 :- ParseHex(s[..8]);
      var d2 :- ParseHex(s[9..13]);
      var d3 :- ParseHex(s[14..18]);
      var a :- ParseBytes(s[19..23]);
      var b :- ParseBytes(s[24..]);
      Some(Guid(d1, d2, d3, a + b))
  }

  /** The slices `Parse` reads are the pieces `Format` printed. */
  lemma FormatPieces(g: Guid)
    requires |g.data4| == 8
    ensures var r := Format(g);
      r[..8] == Hex(g.data1, 8) && r[9..13] == Hex(g.data2, 4) && r[14..18] == Hex(g.data3, 4)
      && r[19..23] == HexBytes(g.data4[..2]) && r[24..] == HexBytes(g.data4[2..])
  {
    Pow16Widths();
  }

  /** Every GUID reads back from its printed form. */
  lemma ParseOfFormat(g: Guid)
    requires |g.data4| == 8
    ensures Parse(Format(g)) == Some(g)
  {
    Pow16Widths();
    FormatPieces(g);
    ParseHexOfHex(g.data1, 8);
    ParseHexOfHex(g.data2, 4);
    ParseHexOfHex(g.data3, 4);
    ParseBytesOfHexBytes(g.data4[..2]);
    ParseBytesOfHexBytes(g.data4[2..]);
    assert g.data4[..2] + g.data4[2..] == g.data4;
  }

  /** `Parse` accepts exactly the well-formed strings. */
  lemma ParseAcceptsWellFormed(s: string)
    ensures Parse(s).Some? <==> WellFormed(s)
  {
    if |s| == 36 && s[8] == '-' && s[13] == '-' && s[18] == '-' && s[23] == '-' {
      ParseHexSucceeds(s[..8]);
      ParseHexSucceeds(s[9..13]);
      ParseHexSucceeds(s[14..18]);
      ParseBytesSucceeds(s[19..23]);
      ParseBytesSucceeds(s[24..]);
      PiecesCover(s);
    }
  }

  /** Printing what `Parse` read gives the string back, so the printed
      forms are exactly the well-formed strings. */
  lemma FormatOfParse(s: string)
    requires WellFormed(s)
    ensures Parse(s).Some? && Format(Parse(s).value) == s
  {
    ParseAcceptsWellFormed(s);
    PiecesCover(s);
    HexOfParseHex(s[..8]);
    HexOfParseHex(s[9..13]);
    HexOfParseHex(s[14..18]);
    HexBytesOfParseBytes(s[19..23]);
    HexBytesOfParseBytes(s[24..]);
    var g := Parse(s).value;
    var a := ParseBytes(s[19..23]).value;
    assert g.data4[..2] == a && g.data4[2..] == ParseBytes(s[24..]).value;
    FormatPieces(g);
    Reassemble(Format(g), s);
  }

  /** A string with the hyphens in place is well formed exactly when its
      five pieces are all hex digits. */
  lemma PiecesCover(s: string)
    requires |s| == 36 && s[8] == '-' && s[13] == '-' && s[18] == '-' && s[23] == '-'
    ensures WellFormed(s) <==>
      (forall i :: 0 <= i < 8 ==> IsHexDigit(s[..8][i])) &&
      (forall i :: 0 <= i < 4 ==> IsHexDigit(s[9..13][i])) &&
      (forall i :: 0 <= i < 4 ==> IsHexDigit(s[14..18][i])) &&
      (forall i :: 0 <= i < 4 ==> IsHexDigit(s[19..23][i])) &&
      (forall i :: 0 <= i < 12 ==> IsHexDigit(s[24..][i]))
  {
    if !WellFormed(s) {
      var i :| 0 <= i < 36 && !(if IsHyphenAt(i) then s[i] == '-' else IsHexDigit(s[i]));
      if i < 8 { assert s[..8][i] == s[i]; }
      else if i < 13 { assert s[9..13][i - 9] == s[i]; }
      else if i < 18 { assert s[14..18][i - 14] == s[i]; }
      else if i < 23 { assert s[19..23][i - 19] == s[i]; }
      else { assert s[24..][i - 24] == s[i]; }
    }
  }

  /** Two strings of 36 characters with the same hyphens and the same
      pieces are equal. */
  lemma Reassemble(r: string, s: string)
    requires |r| == 36 && |s| == 36
    requires forall i :: 0 <= i < 36 && IsHyphenAt(i) ==> r[i] == '-' && s[i] == '-'
    requires r[..8] == s[..8] && r[9..13] == s[9..13] && r[14..18] == s[14..18]
    requires r[19..23] == s[19..23] && r[24..] == s[24..]
    ensures r == s
  {
    forall i | 0 <= i < 36
      ensures r[i] == s[i]
    {
      if i < 8 { assert r[..8][i] == s[..8][i]; }
      else if 9 <= i < 13 { assert r[9..13][i - 9] == s[9..13][i - 9]; }
      else if 14 <= i < 18 { assert r[14..18][i - 14] == s[14..18][i - 14]; }
      else if 19 <= i < 23 { assert r[19..23][i - 19] == s[19..23][i - 19]; }
      else if 24 <= i { assert r[24..][i - 24] == s[24..][i - 24]; }
    }
  }
}
