/** The charset registry of src/mp.c: the hex digit decoder, the six built-in
    charsets, the deduplicating slot filler `add_cs_buf`, the lookup
    `find_pos`, and the expansion `mp_expand` of a user charset expression. */
module Charsets {
  import opened Base

  const QMARK: byte := 0x3F   // '?'

  /** The selectors of the built-in charsets in `mp_sys` order. */
  const SEL_L: byte := 0x6C   // 'l'
  const SEL_U: byte := 0x75   // 'u'
  const SEL_D: byte := 0x64   // 'd'
  const SEL_S: byte := 0x73   // 's'
  const SEL_A: byte := 0x61   // 'a'
  const SEL_B: byte := 0x62   // 'b'

  // ---------------------------------------------------------------------------
  // Hex digits

  predicate IsHexDigit(c: byte) {
    0x30 <= c <= 0x39 || 0x61 <= c <= 0x66 || 0x41 <= c <= 0x46
  }

  /** The value of a hex digit, written out case by case. */
  function HexValue(c: byte): (v: int)
    requires IsHexDigit(c)
    ensures 0 <= v < 16
  {
    if c <= 0x39 then c - 0x30 else if c >= 0x61 then c - 0x61 + 10 else c - 0x41 + 10
  }

  /** `hex_convert`: `(c & 15) + (c >> 6) * 9` on a signed char, truncated back
      to a char.  For a byte c the arithmetic shift of the signed value is
      0, 1, -2 or -1 according to c / 64.  Only hex digits are given a
      meaning; any other byte yields whatever the formula gives. */
  function HexConvert(c: byte): (r: byte)
    ensures IsHexDigit(c) ==> r == HexValue(c)
  {
    var shift := if c < 0x40 then 0 else if c < 0x80 then 1 else if c < 0xC0 then -2 else -1;
    ((c % 16) + shift * 9) % 256
  }

  /** Bitwise or of two naturals, bit by bit from the least significant. */
  function BitOr(a: nat, b: nat): nat
    decreases a + b
  {
    if a == 0 then b
    else if b == 0 then a
    else 2 * BitOr(a / 2, b / 2) + (if a % 2 == 1 || b % 2 == 1 then 1 else 0)
  }

  /** `x << k` on naturals. */
  function Shl(x: nat, k: nat): nat
  {
    if k == 0 then x else 2 * Shl(x, k - 1)
  }

  function Pow2(k: nat): (p: nat)
    ensures p >= 1
  {
    if k == 0 then 1 else 2 * Pow2(k - 1)
  }

  /** A value below 2^k or-ed with a value shifted left by k is their sum:
      the two operands have no bit in common. */
  lemma {:induction false} BitOrDisjoint(x: nat, y: nat, k: nat)
    requires y < Pow2(k)
    ensures BitOr(Shl(x, k), y) == Shl(x, k) + y
  {
    if k > 0 && Shl(x, k) > 0 && y > 0 {
      BitOrDisjoint(x, y / 2, k - 1);
    }
  }

  /** The nibble l or-ed into h shifted left by four. */
  lemma Nibbles(h: nat, l: nat)
    requires h < 16 && l < 16
    ensures BitOr(Shl(h, 4), l) == 16 * h + l
  {
    assert Shl(h, 1) == 2 * h;
    assert Shl(h, 2) == 4 * h;
    assert Shl(h, 3) == 8 * h;
    assert Pow2(4) == 16;
    BitOrDisjoint(h, l, 4);
  }

  /** `l | h << 4` kept to the eight bits of a char, for a nibble h. */
  function OrNibble(h: nat, l: byte): (r: byte)
    requires h < 16
    ensures l < 16 ==> r == 16 * h + l
  {
    if l < 16 then Nibbles(h, l); BitOr(Shl(h, 4), l) % 256 else BitOr(Shl(h, 4), l) % 256
  }

  /** The byte that `mp_expand` and the mask loop build from the hex pair
      `hi lo`: `hex_convert(lo)` or-ed with `hex_convert(hi) << 4`, kept to
      the eight bits of a char (so only the low nibble of the shifted
      operand survives).  Neither digit is checked, so any byte pair gives
      some byte. */
  function HexPair(hi: byte, lo: byte): (r: byte)
    ensures IsHexDigit(hi) && IsHexDigit(lo) ==> r == 16 * HexValue(hi) + HexValue(lo)
  {
    var h := HexConvert(hi);
    if IsHexDigit(hi) then
      assert h < 16;
      assert h % 16 == h;
      OrNibble(h % 16, HexConvert(lo))
    else OrNibble(h % 16, HexConvert(lo))
  }

  /** The lower-case hex digit for a nibble. */
  function HexDigit(v: int): (c: byte)
    requires 0 <= v < 16
    ensures IsHexDigit(c) && HexValue(c) == v
  {
    if v < 10 then 0x30 + v else 0x61 + v - 10
  }

  /** Two hex digits per byte, high nibble first. */
  function HexEncode(bs: seq<byte>): (e: seq<byte>)
    ensures |e| == 2 * |bs|
  {
    if |bs| == 0 then [] else [HexDigit(bs[0] / 16), HexDigit(bs[0] % 16)] + HexEncode(bs[1..])
  }

  /** Decoding is exact: every byte is recovered from its two hex digits. */
  lemma HexPairRoundTrip(b: byte)
    ensures HexPair(HexDigit(b / 16), HexDigit(b % 16)) == b
  {
  }

  /** Upper-case and lower-case letters decode alike. */
  lemma HexPairCaseInsensitive(hi: byte, lo: byte)
    requires 0x61 <= hi <= 0x66 && 0x61 <= lo <= 0x66
    ensures HexPair(hi - 0x20, lo - 0x20) == HexPair(hi, lo)
  {
  }

  // ---------------------------------------------------------------------------
  // C string appends

  /** `strcat (out, s)` for the one-byte string `s = { b, 0 }`: a zero byte
      ends the string at once, so nothing is appended. */
  function Strcat1(acc: seq<byte>, b: byte): (r: seq<byte>)
  {
    if b == 0 then acc else acc + [b]
  }

  /** The bytes of `s` other than 0, in order. */
  function WithoutNul(s: seq<byte>): (r: seq<byte>)
  {
    if |s| == 0 then [] else (if s[0] == 0 then [] else [s[0]]) + WithoutNul(s[1..])
  }

  // ---------------------------------------------------------------------------
  // Built-in charsets

  predicate IsAlnum(c: byte) {
    0x61 <= c <= 0x7A || 0x41 <= c <= 0x5A || 0x30 <= c <= 0x39
  }

  function Lower(): seq<byte> { Range(0x61, 0x7B) }
  function Upper(): seq<byte> { Range(0x41, 0x5B) }
  function Digits(): seq<byte> { Range(0x30, 0x3A) }
  function Printable(): seq<byte> { Range(0x20, 0x7F) }
  function AnyByte(): seq<byte> { Range(0x00, 0x100) }

  /** The bytes of `s` that are not letters or digits, in order. */
  function DropAlnum(s: seq<byte>): seq<byte>
  {
    if |s| == 0 then [] else DropAlnum(s[..|s| - 1]) + (if IsAlnum(s[|s| - 1]) then [] else [s[|s| - 1]])
  }

  function Specials(): seq<byte> { DropAlnum(Printable()) }

  /** The six built-in charsets in `mp_sys` order: ?l ?u ?d ?s ?a ?b. */
  function Builtins(): (sys: seq<seq<byte>>)
    ensures |sys| == 6
  {
    [Lower(), Upper(), Digits(), Specials(), Printable(), AnyByte()]
  }

  /** The loops that fill `mp_sys`: the letters and digits are marked in the
      `donec` table as they are stored, and ?s takes every printable byte
      that is not marked. */
  method BuildBuiltins() returns (sys: seq<seq<byte>>)
    ensures sys == Builtins()
  {
    var donec := new bool[CHARSIZ](_ => false);
    var lower: seq<byte> := [];
    for chr := 0x61 to 0x7B
      invariant lower == Range(0x61, chr)
      invariant forall c :: 0 <= c < CHARSIZ ==> (donec[c] <==> 0x61 <= c < chr)
    {
      RangeSnoc(0x61, chr);
      donec[chr] := true;
      lower := lower + [chr];
    }
    var upper: seq<byte> := [];
    for chr := 0x41 to 0x5B
      invariant upper == Range(0x41, chr)
      invariant forall c :: 0 <= c < CHARSIZ ==> (donec[c] <==> 0x61 <= c <= 0x7A || 0x41 <= c < chr)
    {
      RangeSnoc(0x41, chr);
      donec[chr] := true;
      upper := upper + [chr];
    }
    var digits: seq<byte> := [];
    for chr := 0x30 to 0x3A
      invariant digits == Range(0x30, chr)
      invariant forall c :: 0 <= c < CHARSIZ ==> (donec[c] <==> 0x61 <= c <= 0x7A || 0x41 <= c <= 0x5A || 0x30 <= c < chr)
    {
      RangeSnoc(0x30, chr);
      donec[chr] := true;
      digits := digits + [chr];
    }
    var specials: seq<byte> := [];
    for chr := 0x20 to 0x7F
      invariant specials == DropAlnum(Range(0x20, chr))
      invariant forall c :: 0 <= c < CHARSIZ ==> (donec[c] <==> IsAlnum(c))
    {
      DropAlnumSnoc(0x20, chr);
      if !donec[chr] {
        specials := specials + [chr];
      }
    }
    var all: seq<byte> := [];
    for chr := 0x20 to 0x7F
      invariant all == Range(0x20, chr)
    {
      RangeSnoc(0x20, chr);
      all := all + [chr];
    }
    var any: seq<byte> := [];
    for chr := 0x00 to 0x100
      invariant any == Range(0x00, chr)
    {
      RangeSnoc(0x00, chr);
      any := any + [chr];
    }
    sys := [lower, upper, digits, specials, all, any];
  }

  /** DropAlnum keeps exactly the non-alphanumeric bytes, in their order. */
  lemma {:induction false} DropAlnumSpec(s: seq<byte>)
    ensures forall c :: c in DropAlnum(s) <==> c in s && !IsAlnum(c)
    ensures |DropAlnum(s)| <= |s|
    ensures NoDup(s) ==> NoDup(DropAlnum(s))
  {
    if |s| > 0 {
      DropAlnumSpec(s[..|s| - 1]);
      assert s == s[..|s| - 1] + [s[|s| - 1]];
    }
  }

  /** ?s is printable ASCII without letters and digits: the bytes
      0x20-0x2F, 0x3A-0x40, 0x5B-0x60 and 0x7B-0x7E, in that order. */
  lemma SpecialsLayout()
    ensures Specials() == Range(0x20, 0x30) + Range(0x3A, 0x41) + Range(0x5B, 0x61) + Range(0x7B, 0x7F)
  {
    assert Range(0x20, 0x20) == [];
    DropSegment(0x20, 0x20, 0x30, true);
    DropSegment(0x20, 0x30, 0x3A, false);
    DropSegment(0x20, 0x3A, 0x41, true);
    DropSegment(0x20, 0x41, 0x5B, false);
    DropSegment(0x20, 0x5B, 0x61, true);
    DropSegment(0x20, 0x61, 0x7B, false);
    DropSegment(0x20, 0x7B, 0x7F, true);
  }

  /** ?s holds exactly the 33 printable bytes that are neither letters nor
      digits, each once. */
  lemma SpecialsSpec()
    ensures forall c: byte :: c in Specials() <==> 0x20 <= c <= 0x7E && !IsAlnum(c)
    ensures NoDup(Specials())
    ensures |Specials()| == 33
  {
    DropAlnumSpec(Printable());
    RangeMembers(0x20, 0x7F);
    RangeNoDup(0x20, 0x7F);
    SpecialsLayout();
  }

  /** Extending a byte range by a stretch that is all plain (or all letters
      and digits) extends its DropAlnum by that stretch (or by nothing). */
  lemma {:induction false} DropSegment(a: byte, lo: int, hi: int, keep: bool)
    requires a <= lo <= hi <= 256
    requires forall c :: lo <= c < hi ==> IsAlnum(c) == !keep
    ensures keep ==> DropAlnum(Range(a, hi)) == DropAlnum(Range(a, lo)) + Range(lo, hi)
    ensures !keep ==> DropAlnum(Range(a, hi)) == DropAlnum(Range(a, lo))
    decreases hi - lo
  {
    if hi == lo {
      assert Range(lo, hi) == [];
    } else {
      DropSegment(a, lo, hi - 1, keep);
      DropAlnumSnoc(a, hi - 1);
      if keep {
        RangeSnoc(lo, hi - 1);
        AppendAssoc(DropAlnum(Range(a, lo)), Range(lo, hi - 1), [hi - 1]);
      }
    }
  }

  /** Extending a byte range by one byte extends its DropAlnum by that byte
      unless it is a letter or a digit. */
  lemma DropAlnumSnoc(a: int, b: int)
    requires 0 <= a <= b < 256
    ensures !IsAlnum(b) ==> DropAlnum(Range(a, b + 1)) == DropAlnum(Range(a, b)) + [b]
    ensures IsAlnum(b) ==> DropAlnum(Range(a, b + 1)) == DropAlnum(Range(a, b))
  {
    assert Range(a, b + 1)[..b - a] == Range(a, b);
  }

  /** A byte range is the shorter range followed by its last byte. */
  lemma RangeSnoc(a: int, b: int)
    requires 0 <= a <= b < 256
    ensures Range(a, b + 1) == Range(a, b) + [b]
  {
  }

  /** ?a lists the same bytes as ?l?u?d?s together, in byte order rather
      than in that order. */
  lemma PrintableIsUnion()
    ensures forall c: byte :: c in Printable() <==> c in Lower() || c in Upper() || c in Digits() || c in Specials()
  {
    SpecialsSpec();
    RangeMembers(0x20, 0x7F);
    RangeMembers(0x61, 0x7B);
    RangeMembers(0x41, 0x5B);
    RangeMembers(0x30, 0x3A);
  }

  /** Every built-in charset is free of duplicates. */
  lemma BuiltinsNoDup()
    ensures forall k :: 0 <= k < 6 ==> NoDup(Builtins()[k])
  {
    SpecialsSpec();
    RangeNoDup(0x61, 0x7B);
    RangeNoDup(0x41, 0x5B);
    RangeNoDup(0x30, 0x3A);
    RangeNoDup(0x20, 0x7F);
    RangeNoDup(0x00, 0x100);
  }

  // ---------------------------------------------------------------------------
  // Slot filling (add_cs_buf) and lookup (find_pos)

  /** The distinct bytes of `s` in order of first occurrence. */
  function Dedup(s: seq<byte>): seq<byte>
  {
    if |s| == 0 then []
    else
      var r := Dedup(s[..|s| - 1]);
      if s[|s| - 1] in r then r else r + [s[|s| - 1]]
  }

  /** `find_pos`: the least index holding `c`, or -1 when `c` is absent. */
  function FindPos(s: seq<byte>, c: byte): (i: int)
    ensures -1 <= i < |s|
    ensures i == -1 <==> c !in s
    ensures i >= 0 ==> s[i] == c && forall j :: 0 <= j < i ==> s[j] != c
  {
    if |s| == 0 then -1
    else if s[0] == c then 0
    else
      var i := FindPos(s[1..], c);
      if i == -1 then -1 else i + 1
  }

  /** `find_pos`: a linear search of the slot buffer for a byte. */
  method Locate(s: seq<byte>, c: byte) returns (i: int)
    ensures i == FindPos(s, c)
    ensures i >= 0 ==> s[i] == c
  {
    i := 0;
    while i < |s|
      invariant 0 <= i <= |s|
      invariant forall j :: 0 <= j < i ==> s[j] != c
    {
      if s[i] == c {
        return;
      }
      i := i + 1;
    }
    i := -1;
  }

  /** `add_cs_buf`: copies the input into a slot buffer, skipping every byte
      already marked in the `cs_uniq` table; the number of bytes kept is the
      slot length. */
  method AddCsBuf(input: seq<byte>) returns (symbols: seq<byte>)
    ensures symbols == Dedup(input)
  {
    var uniq := new bool[CHARSIZ](_ => false);
    var buf := new byte[CHARSIZ];
    var pos := 0;
    for i := 0 to |input|
      invariant 0 <= pos <= CHARSIZ
      invariant buf[..pos] == Dedup(input[..i])
      invariant forall b :: 0 <= b < CHARSIZ ==> (uniq[b] <==> b in buf[..pos])
    {
      assert input[..i + 1][..i] == input[..i];
      var u := input[i];
      if !uniq[u] {
        DedupNoDup(input[..i]);
        NoDupBound(buf[..pos]);
        CountTrueMark(Marks(buf[..pos]), u);
        uniq[u] := true;
        buf[pos] := u;
        pos := pos + 1;
        assert buf[..pos] == buf[..pos - 1] + [u];
      }
    }
    assert input[..|input|] == input;
    symbols := buf[..pos];
  }

  /** Deduplication keeps exactly the bytes of the input, once each, and so
      at most 256 of them. */
  lemma {:induction false} DedupNoDup(s: seq<byte>)
    ensures NoDup(Dedup(s))
    ensures forall c :: c in Dedup(s) <==> c in s
    ensures |Dedup(s)| <= CHARSIZ
  {
    if |s| > 0 {
      DedupNoDup(s[..|s| - 1]);
      assert s == s[..|s| - 1] + [s[|s| - 1]];
    }
    NoDupBound(Dedup(s));
  }

  /** Deduplication keeps first-occurrence order: of two kept bytes, the one
      kept first occurs first in the input. */
  lemma {:induction false} DedupOrder(s: seq<byte>)
    ensures forall i, j :: 0 <= i < j < |Dedup(s)| ==> FindPos(s, Dedup(s)[i]) < FindPos(s, Dedup(s)[j])
  {
    if |s| > 0 {
      var p := s[..|s| - 1];
      var x := s[|s| - 1];
      assert s == p + [x];
      DedupOrder(p);
      DedupNoDup(p);
      var rp := Dedup(p);
      var r := Dedup(s);
      forall i, j | 0 <= i < j < |r|
        ensures FindPos(s, r[i]) < FindPos(s, r[j])
      {
        assert r[i] in p by {
          assert i < |rp| && r[i] == rp[i];
        }
        FindPosExtend(p, x, r[i]);
        FindPosExtend(p, x, r[j]);
        if j < |rp| {
          assert r[j] == rp[j] && r[i] == rp[i];
        }
      }
    }
  }

  /** Appending a byte does not move the first occurrence of a byte already
      present; a new byte is found at the end. */
  lemma FindPosExtend(p: seq<byte>, x: byte, c: byte)
    requires c in p + [x]
    ensures c in p ==> FindPos(p + [x], c) == FindPos(p, c)
    ensures c !in p ==> FindPos(p + [x], c) == |p|
  {
    var i := FindPos(p + [x], c);
    if c in p {
      var k := FindPos(p, c);
      assert (p + [x])[k] == c;
    }
  }

  /** A duplicate-free input is kept as it is. */
  lemma {:induction false} DedupIdempotent(s: seq<byte>)
    requires NoDup(s)
    ensures Dedup(s) == s
  {
    if |s| > 0 {
      DedupIdempotent(s[..|s| - 1]);
      assert s[|s| - 1] !in s[..|s| - 1];
    }
  }

  // ---------------------------------------------------------------------------
  // Charset expressions (mp_expand)

  /** The index in `mp_sys` of a selector that `mp_expand` copies with
      `strcat`, or -1. */
  function CopySelector(sel: byte): (k: int)
    ensures -1 <= k < 5
  {
    if sel == SEL_L then 0
    else if sel == SEL_U then 1
    else if sel == SEL_D then 2
    else if sel == SEL_S then 3
    else if sel == SEL_A then 4
    else -1
  }

  /** What `mp_expand` leaves in `out_buf`, read as a C string, when it
      resumes at `pos` with `acc` already there.  `?` followed by l u d s a
      appends a built-in, `??` appends `?`, `?b` copies the 256-byte ?b
      charset over the buffer, whose first byte 0 leaves an empty string, and
      any other byte after `?` (the terminating 0 included) is a syntax
      error.  In hex mode a byte and its successor are decoded as a pair and
      a last unpaired byte is dropped; otherwise each byte is appended. */
  function ExpandFrom(e: seq<byte>, pos: nat, hex: bool, sys: seq<seq<byte>>, acc: seq<byte>): Result<seq<byte>>
    requires |sys| == 6
    decreases |e| - pos
  {
    if pos >= |e| then Ok(acc)
    else if e[pos] == QMARK then
      var sel := if pos + 1 < |e| then e[pos + 1] else 0;
      if sel == SEL_B then ExpandFrom(e, pos + 2, hex, sys, [])
      else if sel == QMARK then ExpandFrom(e, pos + 2, hex, sys, acc + [QMARK])
      else if CopySelector(sel) >= 0 then ExpandFrom(e, pos + 2, hex, sys, acc + sys[CopySelector(sel)])
      else Err(SyntaxError)
    else if hex then
      if pos + 1 == |e| then Ok(acc)
      else ExpandFrom(e, pos + 2, hex, sys, Strcat1(acc, HexPair(e[pos], e[pos + 1])))
    else ExpandFrom(e, pos + 1, hex, sys, Strcat1(acc, e[pos]))
  }

  function Expansion(e: seq<byte>, hex: bool, sys: seq<seq<byte>>): Result<seq<byte>>
    requires |sys| == 6
  {
    ExpandFrom(e, 0, hex, sys, [])
  }

  /** `mp_expand`: scans the expression once, appending to the output. */
  method Expand(e: seq<byte>, hex: bool, sys: seq<seq<byte>>) returns (r: Result<seq<byte>>)
    requires |sys| == 6
    ensures r == Expansion(e, hex, sys)
  {
    var out: seq<byte> := [];
    var pos := 0;
    while pos < |e|
      invariant 0 <= pos <= |e|
      invariant ExpandFrom(e, pos, hex, sys, out) == Expansion(e, hex, sys)
      decreases |e| - pos
    {
      var p0 := e[pos];
      if p0 == QMARK {
        pos := pos + 1;
        var p1 := if pos < |e| then e[pos] else 0;
        if p1 == SEL_L {
          out := out + sys[0];
        } else if p1 == SEL_U {
          out := out + sys[1];
        } else if p1 == SEL_D {
          out := out + sys[2];
        } else if p1 == SEL_S {
          out := out + sys[3];
        } else if p1 == SEL_A {
          out := out + sys[4];
        } else if p1 == SEL_B {
          out := [];
        } else if p1 == QMARK {
          out := out + [QMARK];
        } else {
          return Err(SyntaxError);
        }
      } else if hex {
        pos := pos + 1;
        if pos == |e| {
          break;
        }
        var p1 := e[pos];
        out := Strcat1(out, HexPair(p0, p1));
      } else {
        out := Strcat1(out, p0);
      }
      pos := pos + 1;
    }
    return Ok(out);
  }

  /** Without hex mode, bytes other than `?` are appended one by one. */
  lemma {:induction false} PlainPrefix(e: seq<byte>, pos: nat, stop: nat, sys: seq<seq<byte>>, acc: seq<byte>)
    requires |sys| == 6 && pos <= stop <= |e|
    requires QMARK !in e[pos..stop]
    ensures ExpandFrom(e, pos, false, sys, acc) == ExpandFrom(e, stop, false, sys, acc + WithoutNul(e[pos..stop]))
    decreases stop - pos
  {
    if pos < stop {
      var bs := e[pos..stop];
      assert e[pos] == bs[0] && e[pos + 1..stop] == bs[1..];
      PlainStep(e, pos, sys, acc);
      PlainPrefix(e, pos + 1, stop, sys, Strcat1(acc, e[pos]));
      StrcatThenRest(acc, bs);
    } else {
      assert WithoutNul(e[pos..stop]) == [];
      assert acc + [] == acc;
    }
  }

  /** Without hex mode, a byte other than `?` is appended with `strcat`. */
  lemma PlainStep(e: seq<byte>, pos: nat, sys: seq<seq<byte>>, acc: seq<byte>)
    requires |sys| == 6 && pos < |e| && e[pos] != QMARK
    ensures ExpandFrom(e, pos, false, sys, acc) == ExpandFrom(e, pos + 1, false, sys, Strcat1(acc, e[pos]))
  {
  }

  /** Without hex mode, an expression free of `?` stands for its own bytes
      (a byte 0 cannot be appended by `strcat`). */
  lemma ExpandLiteral(e: seq<byte>, sys: seq<seq<byte>>)
    requires |sys| == 6 && QMARK !in e
    ensures Expansion(e, false, sys) == Ok(WithoutNul(e))
  {
    assert e[0..|e|] == e;
    PlainPrefix(e, 0, |e|, sys, []);
    assert [] + WithoutNul(e) == WithoutNul(e);
  }

  /** In hex mode, the two hex digits of a byte append that byte. */
  lemma HexStep(e: seq<byte>, pos: nat, b: byte, sys: seq<seq<byte>>, acc: seq<byte>)
    requires |sys| == 6 && pos + 1 < |e|
    requires e[pos] == HexDigit(b / 16) && e[pos + 1] == HexDigit(b % 16)
    ensures ExpandFrom(e, pos, true, sys, acc) == ExpandFrom(e, pos + 2, true, sys, Strcat1(acc, b))
  {
    HexPairRoundTrip(b);
  }

  /** Appending the first byte with `strcat` and then the rest of the
      string appends the whole string less its zero bytes. */
  lemma StrcatThenRest(acc: seq<byte>, bs: seq<byte>)
    requires |bs| > 0
    ensures Strcat1(acc, bs[0]) + WithoutNul(bs[1..]) == acc + WithoutNul(bs)
  {
    var b, rest := bs[0], WithoutNul(bs[1..]);
    assert WithoutNul(bs) == (if b == 0 then [] else [b]) + rest;
    if b == 0 {
      assert WithoutNul(bs) == rest;
    } else {
      AppendAssoc(acc, [b], rest);
    }
  }

  /** The hex encoding of a non-empty string starts with the two digits of
      its first byte. */
  lemma HexEncodeHead(e: seq<byte>, pos: nat, bs: seq<byte>, t: seq<byte>)
    requires pos <= |e| && |bs| > 0
    requires e[pos..] == HexEncode(bs) + t
    ensures pos + 1 < |e|
    ensures e[pos] == HexDigit(bs[0] / 16) && e[pos + 1] == HexDigit(bs[0] % 16)
    ensures e[pos + 2..] == HexEncode(bs[1..]) + t
  {
    var pair, rest := [HexDigit(bs[0] / 16), HexDigit(bs[0] % 16)], HexEncode(bs[1..]) + t;
    assert HexEncode(bs) == pair + HexEncode(bs[1..]);
    AppendAssoc(pair, HexEncode(bs[1..]), t);
    var f := e[pos..];
    assert f == pair + rest;
    assert f[0] == pair[0] && f[1] == pair[1] && f[2..] == rest;
    assert e[pos] == f[0] && e[pos + 1] == f[1] && e[pos + 2..] == f[2..];
  }

  /** In hex mode, what follows the last complete pair (nothing, or one
      unpaired digit other than `?`) adds nothing. */
  lemma HexTail(e: seq<byte>, pos: nat, t: seq<byte>, sys: seq<seq<byte>>, acc: seq<byte>)
    requires |sys| == 6 && pos <= |e|
    requires |t| <= 1 && QMARK !in t
    requires e[pos..] == t
    ensures ExpandFrom(e, pos, true, sys, acc) == Ok(acc)
  {
    if pos < |e| {
      assert e[pos] == t[0] && pos + 1 == |e|;
    }
  }

  /** In hex mode, the hex encoding of a byte string decodes to the string
      (bytes 0 excepted: `strcat` cannot append them), and one trailing
      unpaired digit is dropped. */
  lemma {:induction false} ExpandHex(e: seq<byte>, pos: nat, bs: seq<byte>, t: seq<byte>, sys: seq<seq<byte>>, acc: seq<byte>)
    requires |sys| == 6 && pos <= |e|
    requires |t| <= 1 && QMARK !in t
    requires e[pos..] == HexEncode(bs) + t
    ensures ExpandFrom(e, pos, true, sys, acc) == Ok(acc + WithoutNul(bs))
    decreases |bs|
  {
    if |bs| == 0 {
      assert e[pos..] == t;
      HexTail(e, pos, t, sys, acc);
      assert acc + WithoutNul(bs) == acc;
    } else {
      HexEncodeHead(e, pos, bs, t);
      HexStep(e, pos, bs[0], sys, acc);
      ExpandHex(e, pos + 2, bs[1..], t, sys, Strcat1(acc, bs[0]));
      StrcatThenRest(acc, bs);
    }
  }

  /** The `?b` quirk: in an expression whose other bytes are plain, `?b`
      discards everything expanded before it and contributes nothing. */
  lemma ExpandAnyByteResets(p: seq<byte>, q: seq<byte>, sys: seq<seq<byte>>)
    requires |sys| == 6
    requires QMARK !in p && QMARK !in q
    ensures Expansion(p + [QMARK, SEL_B] + q, false, sys) == Ok(WithoutNul(q))
  {
    var e := p + [QMARK, SEL_B] + q;
    assert e[0..|p|] == p;
    PlainPrefix(e, 0, |p|, sys, []);
    assert e[|p|] == QMARK && e[|p| + 1] == SEL_B;
    assert e[|p| + 2..|e|] == q;
    PlainPrefix(e, |p| + 2, |e|, sys, []);
    assert [] + WithoutNul(q) == WithoutNul(q);
  }

  /** A `?` at the very end of an otherwise plain expression is a syntax
      error: the byte read after it is the terminating 0. */
  lemma TrailingQuestionMark(p: seq<byte>, sys: seq<seq<byte>>)
    requires |sys| == 6 && QMARK !in p
    ensures Expansion(p + [QMARK], false, sys) == Err(SyntaxError)
  {
    var e := p + [QMARK];
    assert e[0..|p|] == p;
    PlainPrefix(e, 0, |p|, sys, []);
  }

  /** `??` stands for one `?`: in an otherwise plain expression it appends
      a single question mark between the bytes around it. */
  lemma ExpandEscapedQuestionMark(p: seq<byte>, q: seq<byte>, sys: seq<seq<byte>>)
    requires |sys| == 6
    requires QMARK !in p && QMARK !in q
    ensures Expansion(p + [QMARK, QMARK] + q, false, sys) == Ok(WithoutNul(p) + [QMARK] + WithoutNul(q))
  {
    var e := p + [QMARK, QMARK] + q;
    assert e[0..|p|] == p;
    PlainPrefix(e, 0, |p|, sys, []);
    assert e[|p|] == QMARK && e[|p| + 1] == QMARK;
    assert e[|p| + 2..|e|] == q;
    var head := WithoutNul(p);
    assert [] + head == head;
    assert ExpandFrom(e, |p|, false, sys, head) == ExpandFrom(e, |p| + 2, false, sys, head + [QMARK]);
    PlainPrefix(e, |p| + 2, |e|, sys, head + [QMARK]);
  }

  /** `?` followed by a byte that names no charset (neither l u d s a b nor
      `?`) is a syntax error, whatever follows it. */
  lemma ExpandUnknownSelector(p: seq<byte>, x: byte, q: seq<byte>, sys: seq<seq<byte>>)
    requires |sys| == 6 && QMARK !in p
    requires x !in [SEL_L, SEL_U, SEL_D, SEL_S, SEL_A, SEL_B, QMARK]
    ensures Expansion(p + [QMARK, x] + q, false, sys) == Err(SyntaxError)
  {
    var e := p + [QMARK, x] + q;
    assert e[0..|p|] == p;
    PlainPrefix(e, 0, |p|, sys, []);
    assert e[|p|] == QMARK && e[|p| + 1] == x;
  }
}
