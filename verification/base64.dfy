/** Base 64 encoding as defined in section 4 of RFC 4648: the input is read
    in groups of three octets, each 24-bit group is cut into four 6-bit
    values, each value is replaced by its character from the standard
    alphabet (Table 1), and a final group of one or two octets is completed
    with zero bits and closed with `=` pads. This is the reference against
    which the Windows bit-buffer encoder is proved, and the encoding that
    `g_base64_encode` produces on Linux. */
module Base64 {
  import opened Ints
  import opened Wrappers
  import opened DivMod

  /** The 64-character alphabet as the Windows encoder spells it, written
      here in eight-character pieces. */
  const Alphabet: string :=
    "ABCDEFGH" + "IJKLMNOP" + "QRSTUVWX" + "YZabcdef" +
    "ghijklmn" + "opqrstuv" + "wxyz0123" + "456789+/"

  const Pad: char := '='

  /** Table 1 of RFC 4648 by ranges: values 0-25 are `A`-`Z`, 26-51 are
      `a`-`z`, 52-61 are `0`-`9`, then `+` and `/`. */
  function SextetChar(v: int): char
    requires 0 <= v < 64
  {
    if v < 26 then ('A' as int + v) as char
    else if v < 52 then ('a' as int + (v - 26)) as char
    else if v < 62 then ('0' as int + (v - 52)) as char
    else if v == 62 then '+'
    else '/'
  }

  /** The alphabet constant is Table 1, entry by entry. */
  lemma AlphabetIsTable(v: int)
    requires 0 <= v < 64
    ensures |Alphabet| == 64
    ensures Alphabet[v] == SextetChar(v)
  {
  }

  /** The inverse of Table 1: the value a character stands for, if any. */
  function SextetValue(c: char): (r: Option<int>)
    ensures r.Some? ==> 0 <= r.value < 64 && SextetChar(r.value) == c
  {
    if 'A' <= c <= 'Z' then Some(c as int - 'A' as int)
    else if 'a' <= c <= 'z' then Some(c as int - 'a' as int + 26)
    else if '0' <= c <= '9' then Some(c as int - '0' as int + 52)
    else if c == '+' then Some(62)
    else if c == '/' then Some(63)
    else None
  }

  lemma SextetValueOfChar(v: int)
    requires 0 <= v < 64
    ensures SextetValue(SextetChar(v)) == Some(v)
  {
  }

  /** A character of the alphabet, that is, one with a 6-bit value. */
  predicate IsAlphabetChar(c: char) {
    SextetValue(c).Some?
  }

  /** The characters with a 6-bit value are exactly those of the alphabet
      constant, and the pad is not one of them. */
  lemma AlphabetChars(c: char)
    ensures IsAlphabetChar(c) <==> c in Alphabet
    ensures !IsAlphabetChar(Pad)
  {
    if c in Alphabet {
      var v :| 0 <= v < |Alphabet| && Alphabet[v] == c;
      AlphabetIsTable(v);
      SextetValueOfChar(v);
    }
    if IsAlphabetChar(c) {
      AlphabetIsTable(SextetValue(c).value);
    }
  }

  predicate AreSextets(vs: seq<int>) {
    forall i :: 0 <= i < |vs| ==> 0 <= vs[i] < 64
  }

  /** Each 6-bit value replaced by its character. */
  function Chars(vs: seq<int>): (r: string)
    requires AreSextets(vs)
    ensures |r| == |vs|
  {
    seq(|vs|, i requires 0 <= i < |vs| => SextetChar(vs[i]))
  }

  lemma CharsAppend(a: seq<int>, b: seq<int>)
    requires AreSextets(a) && AreSextets(b)
    ensures AreSextets(a + b)
    ensures Chars(a + b) == Chars(a) + Chars(b)
  {
  }

  /** A 24-bit group cut into four 6-bit values, most significant first. */
  function GroupSextets(a: Byte, b: Byte, c: Byte): (r: seq<int>)
    ensures |r| == 4 && AreSextets(r)
  {
    [a / 4, (a % 4) * 16 + b / 16, (b % 16) * 4 + c / 64, c % 64]
  }

  /** The final quantum of fewer than three octets, completed with zero
      bits: one octet gives two values, two octets give three. */
  function TailSextets(s: seq<Byte>): (r: seq<int>)
    requires |s| < 3
    ensures |r| == (if |s| == 0 then 0 else |s| + 1) && AreSextets(r)
  {
    if |s| == 0 then []
    else if |s| == 1 then [s[0] / 4, (s[0] % 4) * 16]
    else [s[0] / 4, (s[0] % 4) * 16 + s[1] / 16, (s[1] % 16) * 4]
  }

  /** The 6-bit values of an octet sequence, group by group. There is one
      value for every six bits or part of six bits: `⌈8n/6⌉` of them. */
  function Sextets(s: seq<Byte>): (r: seq<int>)
    ensures AreSextets(r)
    decreases |s|
  {
    if |s| < 3 then TailSextets(s)
    else GroupSextets(s[0], s[1], s[2]) + Sextets(s[3..])
  }

  /** A whole group gives four values and a final quantum of `k` octets
      `k + 1`: `⌈8n/6⌉` in all. */
  lemma {:induction false} SextetsLength(s: seq<Byte>)
    ensures |Sextets(s)| == (8 * |s| + 5) / 6
    decreases |s|
  {
    if |s| >= 3 {
      SextetsLength(s[3..]);
      assert (8 * |s| + 5) / 6 == (8 * |s[3..]| + 5) / 6 + 4;
    }
  }

  /** Number of pad characters at the end of the encoding of `n` octets. */
  function PadCount(n: nat): nat {
    (3 - n % 3) % 3
  }

  function Pads(k: nat): (r: string)
    ensures |r| == k && forall i :: 0 <= i < k ==> r[i] == Pad
  {
    seq(k, _ => Pad)
  }

  /** RFC 4648 base 64 of an octet sequence: the characters of its 6-bit
      values, then the pads that complete the last quantum. */
  function Encode(s: seq<Byte>): string {
    Chars(Sextets(s)) + Pads(PadCount(|s|))
  }

  /** Base 64 of a three-octet group: its four characters. */
  function EncodeGroup(a: Byte, b: Byte, c: Byte): (r: string)
    ensures |r| == 4
  {
    Chars(GroupSextets(a, b, c))
  }

  /** The group structure of the encoding: the first three octets give
      the first four characters, independently of the rest. */
  lemma EncodeStep(s: seq<Byte>)
    requires |s| >= 3
    ensures Encode(s) == EncodeGroup(s[0], s[1], s[2]) + Encode(s[3..])
  {
    CharsAppend(GroupSextets(s[0], s[1], s[2]), Sextets(s[3..]));
    assert PadCount(|s|) == PadCount(|s[3..]|);
  }

  /** `⌈8n/6⌉` values and the pads make `4⌈n/3⌉` characters. */
  lemma CountWithPads(n: nat)
    ensures (8 * n + 5) / 6 + PadCount(n) == 4 * ((n + 2) / 3)
  {
    var q, r := n / 3, n % 3;
    assert n == 3 * q + r;
    if r == 0 {
      DivModUnique(8 * n + 5, 6, 4 * q, 5);
      DivModUnique(n + 2, 3, q, 2);
    } else if r == 1 {
      DivModUnique(8 * n + 5, 6, 4 * q + 2, 1);
      DivModUnique(n + 2, 3, q + 1, 0);
    } else {
      DivModUnique(8 * n + 5, 6, 4 * q + 3, 3);
      DivModUnique(n + 2, 3, q + 1, 1);
    }
  }

  /** The length of every encoding is `4⌈n/3⌉`, a multiple of four. */
  lemma EncodeLength(s: seq<Byte>)
    ensures |Encode(s)| == 4 * ((|s| + 2) / 3)
    ensures |Encode(s)| % 4 == 0
  {
    SextetsLength(s);
    CountWithPads(|s|);
  }

  /** The shape of every encoding: all characters before the last
      `PadCount` come from the alphabet, and exactly `PadCount` pads close
      it, so there are at most two and none appears anywhere else. */
  lemma EncodeShape(s: seq<Byte>)
    ensures PadCount(|s|) <= 2
    ensures forall i :: 0 <= i < |Encode(s)| - PadCount(|s|) ==> Encode(s)[i] in Alphabet
    ensures forall i :: |Encode(s)| - PadCount(|s|) <= i < |Encode(s)| ==> Encode(s)[i] == Pad
    ensures Pad !in Alphabet
  {
    var e := Encode(s);
    var vs := Sextets(s);
    assert |e| - PadCount(|s|) == |vs|;
    forall i | 0 <= i < |vs|
      ensures e[i] in Alphabet
    {
      AlphabetIsTable(vs[i]);
    }
    AlphabetChars(Pad);
  }

  /** Encoding a whole number of groups and then the rest is encoding the
      concatenation: the encoder never looks across a group boundary. */
  lemma {:induction false} SextetsAppend(p: seq<Byte>, q: seq<Byte>)
    requires |p| % 3 == 0
    ensures Sextets(p + q) == Sextets(p) + Sextets(q)
    decreases |p|
  {
    if |p| == 0 {
      assert p + q == q;
    } else {
      assert (p + q)[3..] == p[3..] + q;
      SextetsAppend(p[3..], q);
    }
  }

  lemma EncodeAppend(p: seq<Byte>, q: seq<Byte>)
    requires |p| % 3 == 0
    ensures Encode(p + q) == Encode(p) + Encode(q)
  {
    var pads := Pads(PadCount(|q|));
    calc {
      Encode(p + q);
      { assert PadCount(|p + q|) == PadCount(|q|); }
      Chars(Sextets(p + q)) + pads;
      { SextetsAppend(p, q); }
      Chars(Sextets(p) + Sextets(q)) + pads;
      { CharsAppend(Sextets(p), Sextets(q)); }
      Chars(Sextets(p)) + Chars(Sextets(q)) + pads;
      { assert Pads(PadCount(|p|)) == []; }
      Encode(p) + Encode(q);
    }
  }

  /** The four values of a group are the four 6-bit slices of the 24-bit
      number `a b c`, read from the most significant end. */
  lemma GroupIsFourSlices(a: Byte, b: Byte, c: Byte)
    ensures var n := a * 0x1_0000 + b * 0x100 + c;
            GroupSextets(a, b, c) == [n / 0x4_0000, n / 0x1000 % 64, n / 64 % 64, n % 64]
  {
    var n := a * 0x1_0000 + b * 0x100 + c;
    assert n / 0x4_0000 == a / 4 by {
      assert n == (a / 4) * 0x4_0000 + ((a % 4) * 0x1_0000 + b * 0x100 + c);
    }
    assert n / 0x1000 % 64 == (a % 4) * 16 + b / 16 by {
      assert n == (a * 16 + b / 16) * 0x1000 + ((b % 16) * 0x100 + c);
      assert n / 0x1000 == a * 16 + b / 16;
      assert a * 16 + b / 16 == (a / 4) * 64 + ((a % 4) * 16 + b / 16);
    }
    assert n / 64 % 64 == (b % 16) * 4 + c / 64 by {
      assert n == (a * 0x400 + b * 4 + c / 64) * 64 + c % 64;
      assert n / 64 == a * 0x400 + b * 4 + c / 64;
      assert a * 0x400 + b * 4 + c / 64 == (a * 16 + b / 16) * 64 + ((b % 16) * 4 + c / 64);
    }
    assert n % 64 == c % 64 by {
      assert n == (a * 0x400 + b * 4 + c / 64) * 64 + c % 64;
    }
  }

  /** Decodes one four-character quantum; pads are allowed only at its end. */
  function DecodeGroup(t: string): (r: Option<seq<Byte>>)
    requires |t| == 4
    ensures r.Some? ==> 1 <= |r.value| <= 3
  {
    var v0 :- SextetValue(t[0]);
    var v1 :- SextetValue(t[1]);
    if t[2] == Pad && t[3] == Pad then
      Some([v0 * 4 + v1 / 16])
    else
      var v2 :- SextetValue(t[2]);
      if t[3] == Pad then
        Some([v0 * 4 + v1 / 16, (v1 % 16) * 16 + v2 / 4])
      else
        var v3 :- SextetValue(t[3]);
        Some([v0 * 4 + v1 / 16, (v1 % 16) * 16 + v2 / 4, (v2 % 4) * 64 + v3])
  }

  /** A decoder for the encodings `Encode` produces: four characters at a
      time, with a short quantum allowed only at the end. */
  function Decode(t: string): (r: Option<seq<Byte>>)
    decreases |t|
  {
    if |t| == 0 then Some([])
    else if |t| < 4 then None
    else
      var g :- DecodeGroup(t[..4]);
      if |t| == 4 then Some(g)
      else if |g| != 3 then None
      else
        var rest :- Decode(t[4..]);
        Some(g + rest)
  }

  /** The decoder's octet formulas undo the encoder's 6-bit formulas. */
  lemma ByteFromSextets(a: Byte, b: Byte, c: Byte)
    ensures (a / 4) * 4 + ((a % 4) * 16 + b / 16) / 16 == a
    ensures (((a % 4) * 16 + b / 16) % 16) * 16 + ((b % 16) * 4 + c / 64) / 4 == b
    ensures (((b % 16) * 4 + c / 64) % 4) * 64 + c % 64 == c
  {
  }

  /** A group decodes back to its three octets. */
  lemma DecodeGroupOfGroup(a: Byte, b: Byte, c: Byte)
    ensures DecodeGroup(EncodeGroup(a, b, c)) == Some([a, b, c])
  {
    var vs := GroupSextets(a, b, c);
    SextetValueOfChar(vs[0]);
    SextetValueOfChar(vs[1]);
    SextetValueOfChar(vs[2]);
    SextetValueOfChar(vs[3]);
    ByteFromSextets(a, b, c);
  }

  /** A final quantum decodes back to its one or two octets. */
  lemma DecodeTail(s: seq<Byte>)
    requires 0 < |s| < 3
    ensures DecodeGroup(Encode(s)) == Some(s)
  {
    var vs := TailSextets(s);
    var e := Encode(s);
    SextetValueOfChar(vs[0]);
    SextetValueOfChar(vs[1]);
    if |s| == 1 {
      assert e == [SextetChar(vs[0]), SextetChar(vs[1]), Pad, Pad];
      ByteFromSextets(s[0], 0, 0);
      assert s == [s[0]];
    } else {
      SextetValueOfChar(vs[2]);
      assert e == [SextetChar(vs[0]), SextetChar(vs[1]), SextetChar(vs[2]), Pad];
      ByteFromSextets(s[0], s[1], 0);
      assert s == [s[0], s[1]];
    }
  }

  /** The decoder reads a full quantum and then the rest. */
  lemma DecodeCons(g: string, rest: string, x: seq<Byte>, y: seq<Byte>)
    requires |g| == 4 && DecodeGroup(g) == Some(x) && |x| == 3
    requires |rest| > 0 && Decode(rest) == Some(y)
    ensures Decode(g + rest) == Some(x + y)
  {
    var t := g + rest;
    assert t[..4] == g;
    assert t[4..] == rest;
  }

  /** Round trip for inputs of one quantum. */
  lemma DecodeEncodeShort(s: seq<Byte>)
    requires 0 < |s| <= 3
    ensures Decode(Encode(s)) == Some(s)
  {
    if |s| < 3 {
      DecodeTail(s);
      assert Encode(s)[..4] == Encode(s);
    } else {
      EncodeStep(s);
      DecodeGroupOfGroup(s[0], s[1], s[2]);
      assert Encode(s[3..]) == [];
      assert Encode(s)[..4] == Encode(s);
      assert s == [s[0], s[1], s[2]];
    }
  }

  /** Only the empty sequence has the empty encoding. */
  lemma EncodeNonEmpty(s: seq<Byte>)
    requires |s| > 0
    ensures |Encode(s)| > 0
  {
    assert |Sextets(s)| > 0;
  }

  /** Round trip: decoding an encoding gives back the octets, so no two
      octet sequences share an encoding. */
  lemma {:induction false} DecodeEncode(s: seq<Byte>)
    ensures Decode(Encode(s)) == Some(s)
    decreases |s|
  {
    if |s| == 0 {
      assert Encode(s) == [];
    } else if |s| <= 3 {
      DecodeEncodeShort(s);
    } else {
      var g, rest := [s[0], s[1], s[2]], s[3..];
      EncodeStep(s);
      DecodeGroupOfGroup(s[0], s[1], s[2]);
      DecodeEncode(rest);
      EncodeNonEmpty(rest);
      DecodeCons(EncodeGroup(s[0], s[1], s[2]), Encode(rest), g, rest);
      assert s == g + rest;
    }
  }
}
