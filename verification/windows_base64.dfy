/** The hand-written base 64 encoder of the Windows plugin
    (`ReadFileAsBase64`). It keeps a bit buffer `val` and a counter `valb`
    equal to the number of buffered bits minus six; every input octet adds
    eight bits, and while six or more bits are buffered the top six are
    emitted. The file read is a parameter: `bytes` is what `ReadFileBytes`
    returned, which is empty when the file could not be opened. */
module WindowsBase64 {
  import opened Ints
  import opened Wrappers
  import opened Base64
  import opened DivMod

  /** `int val` is 32 bits wide and never masked, so from the fourth octet
      on the shift `val << 8` overflows. The model keeps the 32-bit pattern
      of `val` as a value below `Word`. Before C++20 that left shift of a
      negative `int` is undefined; the model assumes the two's-complement
      wrap-around that C++20 defines and MSVC produces, under which the
      low bits that `>>` and `& 0x3F` read are the same as in the
      unbounded value. */
  const Word: int := 0x1_0000_0000

  function Pow2(n: nat): (r: nat)
    ensures r > 0
  {
    if n == 0 then 1 else 2 * Pow2(n - 1)
  }

  /** `v >> n` for a non-negative bit pattern. */
  function Shr(v: int, n: nat): int {
    v / Pow2(n)
  }

  /** The 6-bit values the inner `while (valb >= 0)` loop has emitted when
      it started at `hi` and has counted down to `lo`: one for each of
      `hi, hi - 6, …` above `lo`, each the six bits of `val` at that
      position. */
  function Drained(val: int, hi: int, lo: int): seq<int>
    requires -6 <= lo <= hi && (hi - lo) % 6 == 0
    decreases hi - lo
  {
    if lo == hi then [] else Drained(val, hi, lo + 6) + [Shr(val, lo + 6) % 64]
  }

  /** The emitted characters spell the emitted 6-bit values. */
  predicate Spells(result: string, vals: seq<int>) {
    AreSextets(vals) && |result| == |vals| &&
    forall i :: 0 <= i < |vals| ==> result[i] == SextetChar(vals[i])
  }

  /** The values already emitted for the octets `t` of an unfinished
      group: the top six bits of the first, then two bits of the first and
      the top four of the second. */
  function Partial(t: seq<Byte>): (r: seq<int>)
    requires |t| < 3
    ensures |r| == |t|
  {
    if |t| == 0 then []
    else if |t| == 1 then [t[0] / 4]
    else [t[0] / 4, (t[0] % 4) * 16 + t[1] / 16]
  }

  /** The bits still waiting in `val` for the unfinished group `t`: none,
      the low two of its first octet, or the low four of its second. */
  predicate Waiting(t: seq<Byte>, val: int, valb: int)
    requires |t| < 3
  {
    if |t| == 0 then valb == -6
    else if |t| == 1 then valb == -4 && val % 4 == t[0] % 4
    else valb == -2 && val % 16 == t[1] % 16
  }

  /** The outer loop invariant after the octets `g + t`, where `g` is a
      whole number of groups and `t` the unfinished rest: the values of
      `g` and the finished part of `t` are out, and the rest of `t` waits
      in the buffer. */
  predicate Pending(g: seq<Byte>, t: seq<Byte>, val: int, valb: int, vals: seq<int>) {
    |g| % 3 == 0 && |t| < 3 && Waiting(t, val, valb) && vals == Sextets(g) + Partial(t)
  }

  /** Shifting an octet into the 32-bit buffer keeps the octet as the low
      eight bits and moves the old low bits just above it: the low `8 + j`
      bits of the new buffer are the low `j` bits of the old one followed by
      the octet, for `j` up to 4. */
  lemma ShiftIn(val: int, c: Byte, m: int, k: int)
    requires 0 <= val < Word
    requires m > 0 && k > 0 && k * (256 * m) == Word
    ensures (val * 256 + c) % Word % (256 * m) == (val % m) * 256 + c
  {
    var d := 256 * m;
    var x := val * 256 + c;
    var q, w := x / Word, x % Word;
    assert x == q * Word + w;
    var vq, vr := val / m, val % m;
    assert val == vq * m + vr;
    assert val * 256 == vq * d + vr * 256;
    assert q * Word == (q * k) * d;
    assert w == (vq - q * k) * d + (vr * 256 + c);
    DivModUnique(w, d, vq - q * k, vr * 256 + c);
  }

  /** The six bits above the low `p` of a buffer whose low `64 * p` are
      known. */
  lemma SixBitsAt(w: int, p: int, low: int)
    requires p > 0 && 0 <= low < p * 64
    requires w >= 0 && w % (p * 64) == low
    ensures (w / p) % 64 == low / p
    ensures w % p == low % p
  {
    var hi := w / (p * 64);
    assert w == hi * (p * 64) + low;
    var lq, lr := low / p, low % p;
    assert low == lq * p + lr;
    assert hi * (p * 64) == (hi * 64) * p;
    assert w == (hi * 64 + lq) * p + lr;
    DivModUnique(w, p, hi * 64 + lq, lr);
    DivModUnique(hi * 64 + lq, 64, hi, lq);
  }

  /** The bits the inner loop reads after the first octet of a group. */
  lemma BitsAfterGroups(val: int, c: Byte)
    requires 0 <= val < Word
    ensures var w := (val * 256 + c) % Word;
            Shr(w, 2) % 64 == c / 4 && w % 4 == c % 4
  {
    var w := (val * 256 + c) % Word;
    ShiftIn(val, c, 1, 0x100_0000);
    assert Pow2(2) == 4;
    SixBitsAt(w, 4, c);
  }

  /** The bits the inner loop reads after the second octet of a group. */
  lemma BitsAfterOne(val: int, c: Byte)
    requires 0 <= val < Word
    ensures var w := (val * 256 + c) % Word;
            Shr(w, 4) % 64 == (val % 4) * 16 + c / 16 && w % 16 == c % 16
  {
    var w := (val * 256 + c) % Word;
    var low := (val % 4) * 256 + c;
    ShiftIn(val, c, 4, 0x40_0000);
    assert Pow2(4) == 16;
    SixBitsAt(w, 16, low);
    DivModUnique(low, 16, (val % 4) * 16 + c / 16, c % 16);
  }

  /** The bits the inner loop reads after the third octet of a group. */
  lemma BitsAfterTwo(val: int, c: Byte)
    requires 0 <= val < Word
    ensures var w := (val * 256 + c) % Word;
            Shr(w, 6) % 64 == (val % 16) * 4 + c / 64 && Shr(w, 0) % 64 == c % 64
  {
    var w := (val * 256 + c) % Word;
    var low := (val % 16) * 256 + c;
    ShiftIn(val, c, 16, 0x10_0000);
    assert Pow2(6) == 64;
    SixBitsAt(w, 64, low);
    DivModUnique(low, 64, (val % 16) * 4 + c / 64, c % 64);
    assert Pow2(0) == 1;
  }

  /** After the last octet the one pending value, if any, is read from
      `val << 8`: the two or four waiting bits followed by zero bits. */
  lemma TailBits(val: int, m: int)
    requires 0 <= val < Word && (m == 4 || m == 16)
    ensures var w := (val * 256) % Word;
            Shr(w, if m == 4 then 4 else 6) % 64 == (val % m) * (64 / m)
  {
    var w := (val * 256) % Word;
    ShiftIn(val, 0, m, if m == 4 then 0x40_0000 else 0x10_0000);
    var p := if m == 4 then 16 else 64;
    assert Pow2(if m == 4 then 4 else 6) == p;
    SixBitsAt(w, p, (val % m) * 256);
    DivModUnique((val % m) * 256, p, (val % m) * (64 / m), 0);
  }

  /** `k` octets past whole groups are `k` octets into a group. */
  lemma IntoGroup(n: int, k: int)
    requires n % 3 == 0 && 0 <= k <= 3
    ensures (n + k) % 3 == k % 3
  {
    DivModUnique(n, 3, n / 3, 0);
    DivModUnique(n + k, 3, n / 3 + k / 3, k % 3);
  }

  /** The values of a whole group appended after whole groups. */
  lemma SextetsThenGroup(g: seq<Byte>, a: Byte, b: Byte, c: Byte)
    requires |g| % 3 == 0
    ensures Sextets(g + [a, b, c]) == Sextets(g) + GroupSextets(a, b, c)
  {
    var s := [a, b, c];
    SextetsAppend(g, s);
    assert s[3..] == [] && Sextets(s[3..]) == [];
    assert Sextets(s) == GroupSextets(s[0], s[1], s[2]) + Sextets(s[3..]);
  }

  /** The values of a short final quantum appended after whole groups. */
  lemma SextetsThenTail(g: seq<Byte>, t: seq<Byte>)
    requires |g| % 3 == 0 && |t| < 3
    ensures Sextets(g + t) == Sextets(g) + TailSextets(t)
  {
    SextetsAppend(g, t);
  }

  /** The outer loop body at the start of a group: the inner loop runs once
      and emits the top six bits of the new octet. */
  lemma StepAfterGroups(g: seq<Byte>, c: Byte, val: int, vals: seq<int>, w: int)
    requires 0 <= val < Word && Pending(g, [], val, -6, vals)
    requires w == (val * 256 + c) % Word
    ensures Pending(g, [c], w, -4, vals + Drained(w, 2, -4))
  {
    BitsAfterGroups(val, c);
    assert Drained(w, 2, -4) == [c / 4];
  }

  /** One octet into a group: the inner loop runs once and emits the two
      buffered bits followed by the top four bits of the new octet. */
  lemma StepAfterOne(g: seq<Byte>, a: Byte, c: Byte, val: int, vals: seq<int>, w: int)
    requires 0 <= val < Word && Pending(g, [a], val, -4, vals)
    requires w == (val * 256 + c) % Word
    ensures Pending(g, [a, c], w, -2, vals + Drained(w, 4, -2))
  {
    BitsAfterOne(val, c);
    assert Drained(w, 4, -2) == [(a % 4) * 16 + c / 16];
  }

  /** Two octets into a group: the inner loop runs twice, emitting the last
      two values of the group, and nothing remains buffered. */
  lemma StepAfterTwo(g: seq<Byte>, a: Byte, b: Byte, c: Byte, val: int, vals: seq<int>, w: int)
    requires 0 <= val < Word && Pending(g, [a, b], val, -2, vals)
    requires w == (val * 256 + c) % Word
    ensures Pending(g + [a, b, c], [], w, -6, vals + Drained(w, 6, -6))
  {
    assert Drained(w, 6, -6) == [(b % 16) * 4 + c / 64, c % 64] by {
      BitsAfterTwo(val, c);
    }
    SextetsThenGroup(g, a, b, c);
    IntoGroup(|g|, 3);
  }

  /** Where the octet `c` leaves the split into whole groups and the
      unfinished rest. */
  function Advance(g: seq<Byte>, t: seq<Byte>, c: Byte): (r: (seq<Byte>, seq<Byte>))
    requires |t| < 3
    ensures r.0 + r.1 == g + t + [c]
  {
    if |t| == 2 then (g + t + [c], []) else (g, t + [c])
  }

  /** One pass of the outer loop, whatever the position in the group. */
  lemma Step(g: seq<Byte>, t: seq<Byte>, c: Byte, val: int, valb: int, vals: seq<int>, w: int)
    requires 0 <= val < Word && Pending(g, t, val, valb, vals)
    requires w == (val * 256 + c) % Word
    ensures var hi := valb + 8;
            var lo := hi - 6 * (hi / 6 + 1);
            -6 <= lo <= hi && (hi - lo) % 6 == 0 &&
            Pending(Advance(g, t, c).0, Advance(g, t, c).1, w, lo, vals + Drained(w, hi, lo))
  {
    if |t| == 0 {
      assert t == [] && valb == -6;
      StepAfterGroups(g, c, val, vals, w);
      assert Advance(g, t, c).0 == g && Advance(g, t, c).1 == [c];
      assert (valb + 8) / 6 == 0;
    } else if |t| == 1 {
      assert t == [t[0]] && valb == -4;
      StepAfterOne(g, t[0], c, val, vals, w);
      assert Advance(g, t, c).0 == g && Advance(g, t, c).1 == [t[0], c];
      assert (valb + 8) / 6 == 0;
    } else {
      assert t == [t[0], t[1]] && valb == -2;
      StepAfterTwo(g, t[0], t[1], c, val, vals, w);
      assert Advance(g, t, c).0 == g + [t[0], t[1], c] && Advance(g, t, c).1 == [];
      assert (valb + 8) / 6 == 1;
    }
  }

  /** After one octet of a group, the pushed value is its low two bits
      followed by four zero bits. */
  lemma FinishOne(g: seq<Byte>, t: seq<Byte>, val: int, vals: seq<int>)
    requires 0 <= val < Word && |g| % 3 == 0 && |t| == 1
    requires val % 4 == t[0] % 4 && vals == Sextets(g) + [t[0] / 4]
    ensures vals + [Shr((val * 256) % Word, 4) % 64] == Sextets(g + t)
  {
    SextetsThenTail(g, t);
    TailBits(val, 4);
    assert TailSextets(t) == [t[0] / 4, (t[0] % 4) * 16];
  }

  /** After two octets of a group, the pushed value is the low four bits of
      the second followed by two zero bits. */
  lemma FinishTwo(g: seq<Byte>, t: seq<Byte>, val: int, vals: seq<int>)
    requires 0 <= val < Word && |g| % 3 == 0 && |t| == 2
    requires val % 16 == t[1] % 16 && vals == Sextets(g) + [t[0] / 4, (t[0] % 4) * 16 + t[1] / 16]
    ensures vals + [Shr((val * 256) % Word, 6) % 64] == Sextets(g + t)
  {
    SextetsThenTail(g, t);
    TailBits(val, 16);
    assert TailSextets(t) == [t[0] / 4, (t[0] % 4) * 16 + t[1] / 16, (t[1] % 16) * 4];
  }

  /** The value pushed after the loop, `((val << 8) >> (valb + 8)) & 0x3F`,
      completes the values of the whole input. */
  lemma Finish(g: seq<Byte>, t: seq<Byte>, val: int, valb: int, vals: seq<int>)
    requires 0 <= val < Word && Pending(g, t, val, valb, vals)
    ensures valb > -6 ==>
              valb + 8 >= 0 && vals + [Shr((val * 256) % Word, valb + 8) % 64] == Sextets(g + t)
    ensures valb <= -6 ==> vals == Sextets(g + t)
  {
    if |t| == 0 {
      SextetsThenTail(g, t);
    } else if |t| == 1 {
      FinishOne(g, t, val, vals);
    } else {
      FinishTwo(g, t, val, vals);
    }
  }

  lemma SpellsSnoc(result: string, vals: seq<int>, x: int)
    requires Spells(result, vals) && 0 <= x < 64
    ensures Spells(result + [SextetChar(x)], vals + [x])
  {
    var r', v' := result + [SextetChar(x)], vals + [x];
    forall i | 0 <= i < |v'|
      ensures 0 <= v'[i] < 64 && r'[i] == SextetChar(v'[i])
    {
      if i < |vals| {
        assert r'[i] == result[i] && v'[i] == vals[i];
      }
    }
  }

  lemma SpellsChars(result: string, vals: seq<int>)
    requires Spells(result, vals)
    ensures result == Chars(vals)
  {
  }

  /** The `while (result.size() % 4)` loop stops after exactly as many pad
      characters as the encoding of `n` octets needs. */
  lemma PadsComplete(n: nat, d: nat)
    requires d <= PadCount(n)
    ensures ((8 * n + 5) / 6 + d) % 4 == 0 <==> d == PadCount(n)
  {
    var q, r := n / 3, n % 3;
    assert n == 3 * q + r;
    var len := if r == 0 then 0 else r + 1;
    DivModUnique(8 * n + 5, 6, 4 * q + len, 8 * r + 5 - 6 * len);
    DivModUnique(4 * q + len + d, 4, q + (len + d) / 4, (len + d) % 4);
  }

  /** The counter the inner loop stops at is the one in `[-6, 0)` that it
      reaches by steps of six. */
  lemma DrainedCounter(valb: int, v: int)
    requires -6 <= v < 0 && v <= valb && (valb - v) % 6 == 0
    ensures v == valb - 6 * (valb / 6 + 1)
  {
    var k := (valb - v) / 6;
    DivModUnique(valb - v, 6, k, 0);
    DivModUnique(valb, 6, k - 1, v + 6);
  }

  /** The inner `while (valb >= 0)` loop: emits the six bits at `valb`,
      `valb - 6`, … of the buffer while the counter is not negative. */
  method Drain(val: int, valb: int, result: string, ghost vals: seq<int>)
    returns (result': string, valb': int, ghost vals': seq<int>)
    requires valb >= -6 && Spells(result, vals)
    ensures -6 <= valb' < 0 && valb' <= valb && (valb - valb') % 6 == 0
    ensures valb' == valb - 6 * (valb / 6 + 1)
    ensures vals' == vals + Drained(val, valb, valb')
    ensures Spells(result', vals')
  {
    result', valb', vals' := result, valb, vals;
    while valb' >= 0
      invariant -6 <= valb' <= valb && (valb - valb') % 6 == 0
      invariant vals' == vals + Drained(val, valb, valb')
      invariant Spells(result', vals')
      decreases valb'
    {
      var x := Shr(val, valb') % 64;
      AlphabetIsTable(x);
      SpellsSnoc(result', vals', x);
      result' := result' + [Alphabet[x]];
      vals' := vals' + [x];
      valb' := valb' - 6;
    }
    DrainedCounter(valb, valb');
  }

  /** Between octets at most five bits wait in the buffer, and after `k`
      octets exactly `8k/6` (rounded down) values are out. */
  lemma PendingCount(g: seq<Byte>, t: seq<Byte>, val: int, valb: int, vals: seq<int>, k: nat)
    requires Pending(g, t, val, valb, vals) && k == |g + t|
    ensures -6 <= valb <= -2
    ensures |vals| == 8 * k / 6
  {
    SextetsLength(g);
    var q := |g| / 3;
    DivModUnique(8 * |g| + 5, 6, 4 * q, 5);
    DivModUnique(8 * k, 6, 4 * q + |t|, 2 * |t|);
  }

  lemma PrefixSnoc(s: seq<Byte>, k: nat)
    requires k < |s|
    ensures s[..k + 1] == s[..k] + [s[k]]
  {
  }

  /** The outer `for (uint8_t c : bytes)` loop: shift each octet into the
      buffer and drain it. */
  method ShiftAll(bytes: seq<Byte>) returns (result: string, val: int, valb: int, ghost vals: seq<int>, ghost g: seq<Byte>, ghost t: seq<Byte>)
    ensures 0 <= val < Word
    ensures Spells(result, vals)
    ensures -6 <= valb <= -1 && |result| == 8 * |bytes| / 6
    ensures g + t == bytes && Pending(g, t, val, valb, vals)
  {
    result, val, valb, vals, g, t := [], 0, -6, [], [], [];
    for k := 0 to |bytes|
      invariant 0 <= val < Word
      invariant Spells(result, vals)
      invariant g + t == bytes[..k] && Pending(g, t, val, valb, vals)
    {
      var c := bytes[k];
      PrefixSnoc(bytes, k);
      ghost var val0 := val;
      val := (val * 256 + c) % Word;
      Step(g, t, c, val0, valb, vals, val);
      result, valb, vals := Drain(val, valb + 8, result, vals);
      g, t := Advance(g, t, c).0, Advance(g, t, c).1;
    }
    assert bytes[..|bytes|] == bytes;
    PendingCount(g, t, val, valb, vals, |bytes|);
  }

  /** The closing `while (result.size() % 4)` loop appends pads until the
      length is a multiple of four. */
  method PadToQuantum(chars: string, ghost n: nat) returns (result: string)
    requires |chars| == (8 * n + 5) / 6
    ensures result == chars + Pads(PadCount(n))
  {
    result := chars;
    while |result| % 4 != 0
      invariant |result| - |chars| <= PadCount(n)
      invariant result == chars + Pads(|result| - |chars|)
      decreases PadCount(n) - (|result| - |chars|)
    {
      PadsComplete(n, |result| - |chars|);
      result := result + [Pad];
    }
    PadsComplete(n, |result| - |chars|);
  }

  /** `ReadFileAsBase64` after the file read: `None` for an empty read,
      otherwise the loop's text, which is the standard base 64 encoding of
      the octets read. */
  method ReadFileAsBase64(bytes: seq<Byte>) returns (r: Option<string>)
    ensures r.None? <==> |bytes| == 0
    ensures r.Some? ==> r.value == Encode(bytes)
  {
    if |bytes| == 0 {
      return None;
    }
    var result, val, valb;
    ghost var vals, g, t;
    result, val, valb, vals, g, t := ShiftAll(bytes);
    Finish(g, t, val, valb, vals);
    if valb > -6 {
      var x := Shr((val * 256) % Word, valb + 8) % 64;
      AlphabetIsTable(x);
      SpellsSnoc(result, vals, x);
      result := result + [Alphabet[x]];
      vals := vals + [x];
    }
    SpellsChars(result, vals);
    SextetsLength(bytes);
    result := PadToQuantum(result, |bytes|);
    return Some(result);
  }
}
