/** Mask compilation and the start-at / stop-at checks of src/mp.c.  The
    loop of `main` turns each mask position into a slot with `add_cs_buf`.
    The optional start-at and stop-at words are then checked against the
    slots with `find_pos`. */
module Mask {
  import opened Base
  import opened Charsets
  import opened Words

  const SEL_1: byte := 0x31   // '1'
  const SEL_4: byte := 0x34   // '4'

  /** The bytes of a zero-terminated buffer before its first 0: what
      `strlen` measures and `add_cs_buf` reads. */
  function CString(s: seq<byte>): seq<byte>
  {
    if |s| == 0 || s[0] == 0 then [] else [s[0]] + CString(s[1..])
  }

  /** CString is the longest prefix free of 0: it holds no 0, and it is
      either the whole buffer or followed by a 0. */
  lemma {:induction false} CStringSpec(s: seq<byte>)
    ensures 0 !in CString(s)
    ensures |CString(s)| <= |s| && CString(s) == s[..|CString(s)|]
    ensures |CString(s)| < |s| ==> s[|CString(s)|] == 0
  {
    if |s| > 0 && s[0] != 0 {
      CStringSpec(s[1..]);
    }
  }

  /** The index in `mp_user` of a selector `1` .. `4`, or -1. */
  function UserSelector(sel: byte): (k: int)
    ensures -1 <= k < 4
    ensures k >= 0 <==> SEL_1 <= sel <= SEL_4
  {
    if SEL_1 <= sel <= SEL_4 then sel - SEL_1 else -1
  }

  /** The slot that `?` followed by `sel` compiles to, or None for a syntax
      error.  The built-ins l u d s a and the custom charsets 1-4 go through
      `add_cs_buf`, `?b` copies all 256 bytes as they are, and `??` is the
      slot holding `?` alone. */
  function SelectorSlot(sel: byte, sys: seq<seq<byte>>, user: seq<seq<byte>>): Option<seq<byte>>
    requires |sys| == 6 && |user| == 4
  {
    if CopySelector(sel) >= 0 then Some(Dedup(sys[CopySelector(sel)]))
    else if sel == SEL_B then Some(sys[5])
    else if UserSelector(sel) >= 0 then Some(Dedup(user[UserSelector(sel)]))
    else if sel == QMARK then Some(Dedup([QMARK]))
    else None
  }

  /** The slot of a plain mask byte b, or of a hex pair that decodes to b:
      `add_cs_buf` of the two-byte string { b, 0 }.  A zero byte gives an
      empty slot. */
  function ByteSlot(b: byte): (r: seq<byte>)
    ensures b != 0 ==> r == [b]
    ensures b == 0 ==> r == []
  {
    assert Dedup([]) == [];
    assert b != 0 ==> Strcat1([], b) == [b] && [b][..0] == [];
    Dedup(Strcat1([], b))
  }

  /** Whether the compile loop stops at `pos`: at the end of the mask, or in
      hex mode at a last unpaired byte that is not `?`. */
  predicate Ended(mask: seq<byte>, pos: nat, hex: bool) {
    pos >= |mask| || (hex && mask[pos] != QMARK && pos + 1 == |mask|)
  }

  /** How many mask bytes the slot at `pos` consumes: two for a selector or
      a hex pair, one for a plain byte. */
  function Stride(mask: seq<byte>, pos: nat, hex: bool): (n: nat)
    requires pos < |mask|
    ensures n == 1 || n == 2
  {
    if mask[pos] == QMARK || hex then 2 else 1
  }

  /** The slot that starts at `pos`, or None for a syntax error.  After `?`
      the next byte selects the slot (the terminating 0 when the mask ends
      there, which no selector matches).  In hex mode a byte and its
      successor are decoded as a pair; otherwise each byte is a slot of its
      own. */
  function SlotAt(mask: seq<byte>, pos: nat, hex: bool, sys: seq<seq<byte>>, user: seq<seq<byte>>): Option<seq<byte>>
    requires |sys| == 6 && |user| == 4 && !Ended(mask, pos, hex)
  {
    if mask[pos] == QMARK then SelectorSlot(if pos + 1 < |mask| then mask[pos + 1] else 0, sys, user)
    else if hex then Some(ByteSlot(HexPair(mask[pos], mask[pos + 1])))
    else Some(ByteSlot(mask[pos]))
  }

  /** The slots the compile loop produces from position `pos` on, with the
      slots `acc` already built. */
  function CompileFrom(mask: seq<byte>, pos: nat, hex: bool, sys: seq<seq<byte>>, user: seq<seq<byte>>, acc: seq<seq<byte>>): (r: Result<seq<seq<byte>>>)
    requires |sys| == 6 && |user| == 4
    ensures r.Err? ==> r.error == SyntaxError
    decreases |mask| - pos
  {
    if Ended(mask, pos, hex) then Ok(acc)
    else
      match SlotAt(mask, pos, hex, sys, user)
      case None => Err(SyntaxError)
      case Some(slot) => CompileFrom(mask, pos + Stride(mask, pos, hex), hex, sys, user, acc + [slot])
  }

  function Compiled(mask: seq<byte>, hex: bool, sys: seq<seq<byte>>, user: seq<seq<byte>>): Result<seq<seq<byte>>>
    requires |sys| == 6 && |user| == 4
  {
    CompileFrom(mask, 0, hex, sys, user, [])
  }

  /** The selector branch of the compile loop: the charset named by the
      byte after `?`, or None when no branch matches. */
  method SelectorCharset(p1: byte, sys: seq<seq<byte>>, user: seq<seq<byte>>) returns (slot: Option<seq<byte>>)
    requires |sys| == 6 && |user| == 4
    ensures slot == SelectorSlot(p1, sys, user)
  {
    if p1 == SEL_L {
      var s := AddCsBuf(sys[0]);
      slot := Some(s);
    } else if p1 == SEL_U {
      var s := AddCsBuf(sys[1]);
      slot := Some(s);
    } else if p1 == SEL_D {
      var s := AddCsBuf(sys[2]);
      slot := Some(s);
    } else if p1 == SEL_S {
      var s := AddCsBuf(sys[3]);
      slot := Some(s);
    } else if p1 == SEL_A {
      var s := AddCsBuf(sys[4]);
      slot := Some(s);
    } else if p1 == SEL_B {
      slot := Some(sys[5]);
    } else if SEL_1 <= p1 <= SEL_4 {
      var s := AddCsBuf(user[p1 - SEL_1]);
      slot := Some(s);
    } else if p1 == QMARK {
      var s := AddCsBuf([QMARK]);
      slot := Some(s);
    } else {
      slot := None;
    }
  }

  /** The compile loop of `main`: one pass over the mask, one slot per
      position, each filled by `add_cs_buf` except `?b`, which is copied. */
  method Compile(mask: seq<byte>, hex: bool, sys: seq<seq<byte>>, user: seq<seq<byte>>)
    returns (r: Result<seq<seq<byte>>>)
    requires |sys| == 6 && |user| == 4
    ensures r == Compiled(mask, hex, sys, user)
  {
    var css: seq<seq<byte>> := [];
    var pos := 0;
    while pos < |mask|
      invariant 0 <= pos <= |mask|
      invariant CompileFrom(mask, pos, hex, sys, user, css) == Compiled(mask, hex, sys, user)
      decreases |mask| - pos
    {
      ghost var start := pos;
      var p0 := mask[pos];
      var slot: seq<byte>;
      if p0 == QMARK {
        pos := pos + 1;
        var p1 := if pos < |mask| then mask[pos] else 0;
        var found := SelectorCharset(p1, sys, user);
        assert SlotAt(mask, start, hex, sys, user) == found;
        if found.None? {
          CompileStuck(mask, start, hex, sys, user, css);
          return Err(SyntaxError);
        }
        slot := found.value;
      } else if hex {
        pos := pos + 1;
        if pos == |mask| {
          assert Ended(mask, start, hex);
          break;
        }
        slot := AddCsBuf(Strcat1([], HexPair(p0, mask[pos])));
        assert SlotAt(mask, start, hex, sys, user) == Some(slot);
      } else {
        slot := AddCsBuf(Strcat1([], p0));
        assert SlotAt(mask, start, hex, sys, user) == Some(slot);
      }
      CompileAdvance(mask, start, pos + 1, hex, sys, user, css, slot);
      css := css + [slot];
      pos := pos + 1;
    }
    return Ok(css);
  }

  /** A slot that compiles moves compilation past the bytes it consumed. */
  lemma CompileAdvance(mask: seq<byte>, pos: nat, next: nat, hex: bool, sys: seq<seq<byte>>, user: seq<seq<byte>>, acc: seq<seq<byte>>, slot: seq<byte>)
    requires |sys| == 6 && |user| == 4 && !Ended(mask, pos, hex)
    requires SlotAt(mask, pos, hex, sys, user) == Some(slot) && next == pos + Stride(mask, pos, hex)
    ensures CompileFrom(mask, pos, hex, sys, user, acc) == CompileFrom(mask, next, hex, sys, user, acc + [slot])
  {
  }

  /** A selector that names no charset ends compilation with a syntax error. */
  lemma CompileStuck(mask: seq<byte>, pos: nat, hex: bool, sys: seq<seq<byte>>, user: seq<seq<byte>>, acc: seq<seq<byte>>)
    requires |sys| == 6 && |user| == 4 && !Ended(mask, pos, hex)
    requires SlotAt(mask, pos, hex, sys, user).None?
    ensures CompileFrom(mask, pos, hex, sys, user, acc) == Err(SyntaxError)
  {
  }

  /** A slot the enumeration accepts: no byte twice, at most 256 bytes. */
  predicate SlotOk(s: seq<byte>) {
    NoDup(s) && |s| <= CHARSIZ
  }

  predicate SlotsOk(S: seq<seq<byte>>) {
    forall i :: 0 <= i < |S| ==> SlotOk(S[i])
  }

  lemma SlotsSnoc(S: seq<seq<byte>>, s: seq<byte>)
    requires SlotsOk(S) && SlotOk(s)
    ensures SlotsOk(S + [s])
  {
    forall i | 0 <= i < |S| + 1
      ensures SlotOk((S + [s])[i])
    {
      if i < |S| {
        assert (S + [s])[i] == S[i];
      }
    }
  }

  // ---------------------------------------------------------------------------
  // What compilation produces

  /** Every slot compilation builds is free of duplicates and at most 256
      bytes long, given that the copied ?b table is. */
  lemma SlotAtShape(mask: seq<byte>, pos: nat, hex: bool, sys: seq<seq<byte>>, user: seq<seq<byte>>)
    requires |sys| == 6 && SlotOk(sys[5]) && |user| == 4 && !Ended(mask, pos, hex)
    requires SlotAt(mask, pos, hex, sys, user).Some?
    ensures SlotOk(SlotAt(mask, pos, hex, sys, user).value)
  {
    if mask[pos] == QMARK {
      var sel := if pos + 1 < |mask| then mask[pos + 1] else 0;
      if CopySelector(sel) >= 0 {
        DedupNoDup(sys[CopySelector(sel)]);
      } else if sel == SEL_B {
      } else if UserSelector(sel) >= 0 {
        DedupNoDup(user[UserSelector(sel)]);
      } else {
        DedupNoDup([QMARK]);
      }
    }
  }

  /** Compiled slots are free of duplicates and at most 256 bytes long, and
      there are no more of them than mask bytes. */
  lemma {:induction false} CompileFromShape(mask: seq<byte>, pos: nat, hex: bool, sys: seq<seq<byte>>, user: seq<seq<byte>>, acc: seq<seq<byte>>)
    requires |sys| == 6 && SlotOk(sys[5]) && |user| == 4 && pos <= |mask|
    requires SlotsOk(acc) && |acc| <= pos
    ensures CompileFrom(mask, pos, hex, sys, user, acc).Ok? ==>
              |CompileFrom(mask, pos, hex, sys, user, acc).value| <= |mask| &&
              SlotsOk(CompileFrom(mask, pos, hex, sys, user, acc).value)
    decreases |mask| - pos
  {
    if !Ended(mask, pos, hex) && SlotAt(mask, pos, hex, sys, user).Some? {
      var slot := SlotAt(mask, pos, hex, sys, user).value;
      SlotAtShape(mask, pos, hex, sys, user);
      SlotsSnoc(acc, slot);
      CompileFromShape(mask, pos + Stride(mask, pos, hex), hex, sys, user, acc + [slot]);
    }
  }

  /** A mask that compiles to at most 256 slots (the size of `css`) gives
      slots the enumeration accepts, never more slots than mask bytes. */
  lemma CompiledWellFormed(mask: seq<byte>, hex: bool, sys: seq<seq<byte>>, user: seq<seq<byte>>)
    requires sys == Builtins() && |user| == 4
    requires Compiled(mask, hex, sys, user).Ok? && |Compiled(mask, hex, sys, user).value| <= PW_MAX
    ensures |Compiled(mask, hex, sys, user).value| <= |mask|
    ensures WellFormed(Compiled(mask, hex, sys, user).value)
  {
    BuiltinsNoDup();
    CompileFromShape(mask, 0, hex, sys, user, []);
  }

  /** One slot per byte: what a run of plain bytes, or of hex pairs,
      compiles to. */
  function ByteSlots(bs: seq<byte>): (S: seq<seq<byte>>)
    ensures |S| == |bs|
    ensures forall i :: 0 <= i < |bs| ==> S[i] == ByteSlot(bs[i])
  {
    if |bs| == 0 then [] else [ByteSlot(bs[0])] + ByteSlots(bs[1..])
  }

  /** Without hex mode, a mask with no `?` compiles to one slot per byte,
      holding that byte (nothing for a zero byte). */
  lemma PlainMask(mask: seq<byte>, sys: seq<seq<byte>>, user: seq<seq<byte>>)
    requires |sys| == 6 && |user| == 4 && QMARK !in mask
    ensures Compiled(mask, false, sys, user) == Ok(ByteSlots(mask))
  {
    assert mask[..|mask|] == mask && mask[0..|mask|] == mask;
    PlainPrefixFrom(mask, |mask|, 0, sys, user, []);
    assert [] + ByteSlots(mask) == ByteSlots(mask);
  }

  /** In hex mode a stretch of the mask that hex-encodes a byte string
      compiles to one slot per byte, holding that byte. */
  lemma {:induction false} HexFrom(e: seq<byte>, bs: seq<byte>, pos: nat, end: nat, sys: seq<seq<byte>>, user: seq<seq<byte>>, acc: seq<seq<byte>>)
    requires |sys| == 6 && |user| == 4
    requires end == pos + 2 * |bs| && end <= |e| && e[pos..end] == HexEncode(bs)
    ensures CompileFrom(e, pos, true, sys, user, acc) == CompileFrom(e, end, true, sys, user, acc + ByteSlots(bs))
    decreases |bs|
  {
    if |bs| == 0 {
      assert acc + ByteSlots(bs) == acc;
    } else {
      var b, rest := bs[0], bs[1..];
      HexFromStep(e, bs, pos, end, sys, user);
      CompileAdvance(e, pos, pos + 2, true, sys, user, acc, ByteSlot(b));
      var acc' := acc + [ByteSlot(b)];
      HexFrom(e, rest, pos + 2, end, sys, user, acc');
      AppendAssoc(acc, [ByteSlot(b)], ByteSlots(rest));
      assert acc' + ByteSlots(rest) == acc + ByteSlots(bs);
    }
  }

  /** The first hex pair of an encoded stretch compiles to the slot of the
      first byte, and the rest of the stretch encodes the rest. */
  lemma HexFromStep(e: seq<byte>, bs: seq<byte>, pos: nat, end: nat, sys: seq<seq<byte>>, user: seq<seq<byte>>)
    requires |sys| == 6 && |user| == 4 && |bs| > 0
    requires end == pos + 2 * |bs| && end <= |e| && e[pos..end] == HexEncode(bs)
    ensures !Ended(e, pos, true) && Stride(e, pos, true) == 2
    ensures SlotAt(e, pos, true, sys, user) == Some(ByteSlot(bs[0]))
    ensures e[pos + 2..end] == HexEncode(bs[1..])
  {
    HexHead(e, bs, pos, end);
    HexPairSlot(e, pos, bs[0], sys, user);
  }

  /** An encoded stretch starts with the two digits of its first byte. */
  lemma HexHead(e: seq<byte>, bs: seq<byte>, pos: nat, end: nat)
    requires |bs| > 0 && end == pos + 2 * |bs| && end <= |e| && e[pos..end] == HexEncode(bs)
    ensures e[pos] == HexDigit(bs[0] / 16) && e[pos + 1] == HexDigit(bs[0] % 16)
    ensures e[pos + 2..end] == HexEncode(bs[1..])
  {
    var seg := e[pos..end];
    var t := HexEncode(bs[1..]);
    assert seg == [HexDigit(bs[0] / 16), HexDigit(bs[0] % 16)] + t;
    assert seg[0] == e[pos] && seg[1] == e[pos + 1];
    assert seg[2..] == e[pos + 2..end];
  }

  /** The two digits of a byte compile, in hex mode, to the slot of that byte. */
  lemma HexPairSlot(e: seq<byte>, pos: nat, b: byte, sys: seq<seq<byte>>, user: seq<seq<byte>>)
    requires |sys| == 6 && |user| == 4 && pos + 1 < |e|
    requires e[pos] == HexDigit(b / 16) && e[pos + 1] == HexDigit(b % 16)
    ensures !Ended(e, pos, true) && Stride(e, pos, true) == 2
    ensures SlotAt(e, pos, true, sys, user) == Some(ByteSlot(b))
  {
    HexPairRoundTrip(b);
  }

  /** In hex mode the mask that hex-encodes a byte string compiles to one
      slot per byte, holding that byte: hex decoding of masks is exact. */
  lemma HexMask(bs: seq<byte>, sys: seq<seq<byte>>, user: seq<seq<byte>>)
    requires |sys| == 6 && |user| == 4
    ensures Compiled(HexEncode(bs), true, sys, user) == Ok(ByteSlots(bs))
  {
    var e := HexEncode(bs);
    assert e[0..|e|] == e;
    HexFrom(e, bs, 0, |e|, sys, user, []);
    assert [] + ByteSlots(bs) == ByteSlots(bs);
  }

  /** In hex mode a last unpaired byte other than `?` is dropped: the mask
      compiles as if it were not there. */
  lemma {:induction false} HexOddFrom(e: seq<byte>, x: byte, pos: nat, pairs: nat, sys: seq<seq<byte>>, user: seq<seq<byte>>, acc: seq<seq<byte>>)
    requires |sys| == 6 && |user| == 4 && x != QMARK && |e| == pos + 2 * pairs
    ensures CompileFrom(e + [x], pos, true, sys, user, acc) == CompileFrom(e, pos, true, sys, user, acc)
    decreases pairs
  {
    if pairs > 0 {
      HexOddStep(e, x, pos, sys, user);
      var slot := SlotAt(e, pos, true, sys, user);
      if slot.Some? {
        CompileAdvance(e + [x], pos, pos + 2, true, sys, user, acc, slot.value);
        CompileAdvance(e, pos, pos + 2, true, sys, user, acc, slot.value);
        HexOddFrom(e, x, pos + 2, pairs - 1, sys, user, acc + [slot.value]);
      } else {
        CompileStuck(e + [x], pos, true, sys, user, acc);
        CompileStuck(e, pos, true, sys, user, acc);
      }
    } else {
      assert Ended(e + [x], pos, true);
    }
  }

  /** Before the last byte, the slots of e + [x] and of e are built alike. */
  lemma HexOddStep(e: seq<byte>, x: byte, pos: nat, sys: seq<seq<byte>>, user: seq<seq<byte>>)
    requires |sys| == 6 && |user| == 4 && pos + 1 < |e|
    ensures !Ended(e + [x], pos, true) && !Ended(e, pos, true)
    ensures Stride(e + [x], pos, true) == 2 && Stride(e, pos, true) == 2
    ensures SlotAt(e + [x], pos, true, sys, user) == SlotAt(e, pos, true, sys, user)
  {
    assert (e + [x])[pos] == e[pos] && (e + [x])[pos + 1] == e[pos + 1];
  }

  lemma HexOddDropped(e: seq<byte>, x: byte, sys: seq<seq<byte>>, user: seq<seq<byte>>)
    requires |sys| == 6 && |user| == 4 && x != QMARK && |e| % 2 == 0
    ensures Compiled(e + [x], true, sys, user) == Compiled(e, true, sys, user)
  {
    HexOddFrom(e, x, 0, |e| / 2, sys, user, []);
  }

  /** A `?` at the very end of an otherwise plain mask is a syntax error:
      the byte read after it is the terminating 0. */
  lemma TrailingSelector(p: seq<byte>, sys: seq<seq<byte>>, user: seq<seq<byte>>)
    requires |sys| == 6 && |user| == 4 && QMARK !in p
    ensures Compiled(p + [QMARK], false, sys, user) == Err(SyntaxError)
  {
    var e := p + [QMARK];
    assert e[..|p|] == p;
    PlainPrefixFrom(e, |p|, 0, sys, user, []);
  }

  /** Without hex mode the plain bytes before position n each become a
      slot, and compilation goes on from n. */
  lemma {:induction false} PlainPrefixFrom(e: seq<byte>, n: nat, pos: nat, sys: seq<seq<byte>>, user: seq<seq<byte>>, acc: seq<seq<byte>>)
    requires |sys| == 6 && |user| == 4 && pos <= n <= |e| && QMARK !in e[..n]
    ensures CompileFrom(e, pos, false, sys, user, acc)
            == CompileFrom(e, n, false, sys, user, acc + ByteSlots(e[pos..n]))
    decreases n - pos
  {
    if pos == n {
      assert acc + ByteSlots(e[pos..n]) == acc;
    } else {
      assert e[pos] == e[..n][pos];
      PlainPrefixFrom(e, n, pos + 1, sys, user, acc + [ByteSlot(e[pos])]);
      assert e[pos..n][0] == e[pos] && e[pos..n][1..] == e[pos + 1..n];
      AppendAssoc(acc, [ByteSlot(e[pos])], ByteSlots(e[pos + 1..n]));
    }
  }

  // ---------------------------------------------------------------------------
  // Start-at and stop-at (find_pos against every slot)

  /** The first position at or after i whose byte is not in its slot, or
      |S| when there is none. */
  function Missing(S: seq<seq<byte>>, w: seq<byte>, i: int): (j: int)
    requires |w| == |S| && 0 <= i <= |S|
    ensures i <= j <= |S|
    ensures forall k :: i <= k < j ==> w[k] in S[k]
    ensures j < |S| ==> w[j] !in S[j]
    decreases |S| - i
  {
    if i == |S| then |S| else if w[i] !in S[i] then i else Missing(S, w, i + 1)
  }

  /** The verdict on one start-at or stop-at word: its length must be the
      number of slots, and each byte must be found in its slot. */
  function WordCheck(S: seq<seq<byte>>, w: seq<byte>): Result<()>
  {
    if |w| != |S| then Err(LengthMismatch)
    else
      var j := Missing(S, w, 0);
      if j == |S| then Ok(()) else Err(NotFound(j))
  }

  /** The check accepts a word exactly when it has one byte of its slot per
      slot; a rejected byte is the first one missing from its slot. */
  lemma WordCheckSpec(S: seq<seq<byte>>, w: seq<byte>)
    ensures WordCheck(S, w).Ok? <==> |w| == |S| && InSlots(S, w)
    ensures WordCheck(S, w) == Err(LengthMismatch) <==> |w| != |S|
    ensures WordCheck(S, w).Err? && WordCheck(S, w).error.NotFound? ==>
              var p := WordCheck(S, w).error.pos;
              p < |S| && w[p] !in S[p] && forall k :: 0 <= k < p ==> w[k] in S[k]
  {
    if |w| == |S| && !InSlots(S, w) {
      var k :| 0 <= k < |S| && w[k] !in S[k];
      assert Missing(S, w, 0) <= k;
    }
  }

  /** The check of one word: the length test, then `find_pos` of each byte
      in its slot, stopping at the first miss. */
  method CheckWord(S: seq<seq<byte>>, w: seq<byte>) returns (r: Result<()>)
    ensures r == WordCheck(S, w)
  {
    if |w| != |S| {
      return Err(LengthMismatch);
    }
    var i := 0;
    while i < |S|
      invariant 0 <= i <= |S|
      invariant Missing(S, w, i) == Missing(S, w, 0)
    {
      var p := Locate(S[i], w[i]);
      if p == -1 {
        return Err(NotFound(i));
      }
      i := i + 1;
    }
    return Ok(());
  }

  /** Start-at is checked first, then stop-at; the first failure is
      reported. */
  function OptionCheck(S: seq<seq<byte>>, start: Option<seq<byte>>, stop: Option<seq<byte>>): Result<()>
  {
    if start.Some? && WordCheck(S, start.value).Err? then WordCheck(S, start.value)
    else if stop.Some? then WordCheck(S, stop.value)
    else Ok(())
  }

  method CheckOptions(S: seq<seq<byte>>, start: Option<seq<byte>>, stop: Option<seq<byte>>) returns (r: Result<()>)
    ensures r == OptionCheck(S, start, stop)
  {
    if start.Some? {
      r := CheckWord(S, start.value);
      if r.Err? {
        return;
      }
    }
    if stop.Some? {
      r := CheckWord(S, stop.value);
      return;
    }
    r := Ok(());
  }

  /** Compiled slots that pass both checks, with the filters off whenever a
      start-at or stop-at word is given, are the options under which the
      enumeration runs. */
  lemma ChecksAdmit(S: seq<seq<byte>>, start: Option<seq<byte>>, stop: Option<seq<byte>>, m: int, o: int)
    requires WellFormed(S) && (m == 0 || m >= 2)
    requires start.Some? || stop.Some? ==> m == 0 && o == 0
    ensures OptionCheck(S, start, stop).Ok? <==> Options(S, start, stop, m, o)
  {
    if start.Some? {
      WordCheckSpec(S, start.value);
    }
    if stop.Some? {
      WordCheckSpec(S, stop.value);
    }
  }

  // ---------------------------------------------------------------------------
  // Custom charsets as the compile loop reads them

  /** `mp_expand` never leaves a 0 byte in its result, so `add_cs_buf` reads
      a custom charset whole. */
  lemma {:induction false} ExpandFromNoNul(e: seq<byte>, pos: nat, hex: bool, acc: seq<byte>)
    requires 0 !in acc
    requires ExpandFrom(e, pos, hex, Builtins(), acc).Ok?
    ensures 0 !in ExpandFrom(e, pos, hex, Builtins(), acc).value
    decreases |e| - pos
  {
    var sys := Builtins();
    if pos < |e| {
      if e[pos] == QMARK {
        var sel := if pos + 1 < |e| then e[pos + 1] else 0;
        if sel == SEL_B {
          ExpandFromNoNul(e, pos + 2, hex, []);
        } else if sel == QMARK {
          ExpandFromNoNul(e, pos + 2, hex, acc + [QMARK]);
        } else {
          var k := CopySelector(sel);
          BuiltinsNoNul(k);
          ExpandFromNoNul(e, pos + 2, hex, acc + sys[k]);
        }
      } else if hex {
        if pos + 1 < |e| {
          ExpandFromNoNul(e, pos + 2, hex, Strcat1(acc, HexPair(e[pos], e[pos + 1])));
        }
      } else {
        ExpandFromNoNul(e, pos + 1, hex, Strcat1(acc, e[pos]));
      }
    }
  }

  /** The built-ins that `mp_expand` appends with `strcat` hold no 0 byte. */
  lemma BuiltinsNoNul(k: int)
    requires 0 <= k < 5
    ensures 0 !in Builtins()[k]
  {
    RangeMembers(0x61, 0x7B);
    RangeMembers(0x41, 0x5B);
    RangeMembers(0x30, 0x3A);
    RangeMembers(0x20, 0x7F);
    SpecialsSpec();
  }

  /** A custom charset that `mp_expand` built from the built-ins is a C
      string read whole: the `strlen` in `add_cs_buf` stops at its end. */
  lemma ExpansionIsCString(e: seq<byte>, hex: bool)
    requires Expansion(e, hex, Builtins()).Ok?
    ensures CString(Expansion(e, hex, Builtins()).value) == Expansion(e, hex, Builtins()).value
  {
    ExpandFromNoNul(e, 0, hex, []);
    CStringWhole(Expansion(e, hex, Builtins()).value);
  }

  /** A byte string without a 0 byte is its own C string. */
  lemma CStringWhole(s: seq<byte>)
    requires 0 !in s
    ensures CString(s) == s
  {
  }

  /** `?l ?u ?d ?s ?a` compile to the built-in charsets themselves. */
  lemma BuiltinSlot(sel: byte, sys: seq<seq<byte>>, user: seq<seq<byte>>)
    requires sys == Builtins() && |user| == 4 && CopySelector(sel) >= 0
    ensures SelectorSlot(sel, sys, user) == Some(sys[CopySelector(sel)])
  {
    var k := CopySelector(sel);
    BuiltinsNoDup();
    DedupIdempotent(Builtins()[k]);
  }
}
