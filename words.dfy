/** The word space of a compiled mask and what one length pass of the
    enumeration emits, stated without the odometer: the word of rank k is
    the mixed-radix numeral k read through the slots, and a pass emits the
    words of consecutive ranks that the filters keep. */
module Words {
  import opened Base
  import opened MixedRadix
  import opened Charsets

  /** Compiled slots: slot i lists, without repetition, the bytes allowed at
      position i (at most 256 slots of at most 256 bytes). */
  predicate WellFormed(S: seq<seq<byte>>) {
    |S| <= PW_MAX && forall i :: 0 <= i < |S| ==> NoDup(S[i]) && |S[i]| <= CHARSIZ
  }

  /** The radix a slot contributes to the odometer: its size, or 1 for an
      empty slot, whose zero-filled buffer makes the odometer roll straight
      over it writing byte 0. */
  function Width(s: seq<byte>): int {
    if |s| == 0 then 1 else |s|
  }

  function Radix(T: seq<seq<byte>>): (R: seq<int>)
    ensures |R| == |T| && Radices(R)
    ensures forall i :: 0 <= i < |T| ==> R[i] == Width(T[i])
  {
    seq(|T|, i requires 0 <= i < |T| => Width(T[i]))
  }

  /** The byte of slot `s` at index `d` (byte 0 for an empty slot). */
  function Sym(s: seq<byte>, d: int): byte
    requires 0 <= d < Width(s)
  {
    if |s| == 0 then 0 else s[d]
  }

  /** The word spelled by the digit sequence `d`. */
  function WordOf(T: seq<seq<byte>>, d: seq<int>): (w: seq<byte>)
    requires InRange(d, Radix(T))
    ensures |w| == |T|
    ensures forall i :: 0 <= i < |T| ==> w[i] == Sym(T[i], d[i])
  {
    seq(|T|, i requires 0 <= i < |T| => Sym(T[i], d[i]))
  }

  /** The number of words the odometer steps through. */
  function Total(T: seq<seq<byte>>): (n: int)
    ensures n >= 1
  {
    ProdPositive(Radix(T));
    Prod(Radix(T))
  }

  /** The word of rank `k`: the digits of `k` in the slot radices. */
  function WordAt(T: seq<seq<byte>>, k: int): (w: seq<byte>)
    requires 0 <= k < Total(T)
    ensures |w| == |T|
  {
    DigitsOfCorrect(k, Radix(T));
    WordOf(T, DigitsOf(k, Radix(T)))
  }

  /** Every byte of `w` belongs to the slot at its position. */
  predicate InSlots(T: seq<seq<byte>>, w: seq<byte>) {
    |w| == |T| && forall i :: 0 <= i < |T| ==> w[i] in T[i]
  }

  /** The index of each byte of `w` in its slot, as `find_pos` reports it. */
  function Positions(T: seq<seq<byte>>, w: seq<byte>): (d: seq<int>)
    requires InSlots(T, w)
    ensures InRange(d, Radix(T))
    ensures forall i :: 0 <= i < |T| ==> T[i][d[i]] == w[i]
  {
    seq(|T|, i requires 0 <= i < |T| => FindPos(T[i], w[i]))
  }

  /** The rank of a word whose bytes all lie in their slots. */
  function RankOfWord(T: seq<seq<byte>>, w: seq<byte>): (k: int)
    requires InSlots(T, w)
    ensures 0 <= k < Total(T)
  {
    HornerBounds(Positions(T, w), Radix(T));
    Horner(Positions(T, w), Radix(T))
  }

  /** Within a duplicate-free slot, different indices give different bytes. */
  lemma SymInjective(s: seq<byte>, d1: int, d2: int)
    requires NoDup(s) && 0 <= d1 < Width(s) && 0 <= d2 < Width(s)
    requires Sym(s, d1) == Sym(s, d2)
    ensures d1 == d2
  {
  }

  /** Different digit sequences spell different words. */
  lemma WordOfInjective(T: seq<seq<byte>>, d1: seq<int>, d2: seq<int>)
    requires WellFormed(T) && InRange(d1, Radix(T)) && InRange(d2, Radix(T))
    requires WordOf(T, d1) == WordOf(T, d2)
    ensures d1 == d2
  {
    forall i | 0 <= i < |T|
      ensures d1[i] == d2[i]
    {
      assert WordOf(T, d1)[i] == WordOf(T, d2)[i];
      SymInjective(T[i], d1[i], d2[i]);
    }
  }

  /** Different ranks give different words, so no word is emitted twice. */
  lemma WordAtInjective(T: seq<seq<byte>>, k1: int, k2: int)
    requires WellFormed(T) && 0 <= k1 < Total(T) && 0 <= k2 < Total(T)
    requires WordAt(T, k1) == WordAt(T, k2)
    ensures k1 == k2
  {
    var R := Radix(T);
    DigitsOfCorrect(k1, R);
    DigitsOfCorrect(k2, R);
    WordOfInjective(T, DigitsOf(k1, R), DigitsOf(k2, R));
  }

  /** Every word drawn from the slots has a rank, and the word of that rank
      is the word itself. */
  lemma WordRankRoundTrip(T: seq<seq<byte>>, w: seq<byte>)
    requires InSlots(T, w)
    ensures WordAt(T, RankOfWord(T, w)) == w
  {
    var R := Radix(T);
    var d := Positions(T, w);
    HornerDigits(d, R);
  }

  /** When no slot is empty, every word of the space lies in the slots and
      its rank is recovered from it. */
  lemma RankWordRoundTrip(T: seq<seq<byte>>, k: int)
    requires WellFormed(T) && 0 <= k < Total(T)
    requires forall i :: 0 <= i < |T| ==> |T[i]| > 0
    ensures InSlots(T, WordAt(T, k))
    ensures RankOfWord(T, WordAt(T, k)) == k
  {
    var R := Radix(T);
    var w := WordAt(T, k);
    DigitsOfCorrect(k, R);
    var d := DigitsOf(k, R);
    forall i | 0 <= i < |T|
      ensures w[i] in T[i]
    {
      assert w[i] == T[i][d[i]];
    }
    var p := Positions(T, w);
    forall i | 0 <= i < |T|
      ensures p[i] == d[i]
    {
      SymInjective(T[i], p[i], d[i]);
    }
    assert p == d;
  }

  // ---------------------------------------------------------------------------
  // Filters

  /** Positions x-m+1 .. x of `w` all hold the same byte. */
  predicate RunEndsAt(w: seq<byte>, m: int, x: int) {
    1 <= m && m - 1 <= x < |w| && forall j :: x - m + 1 <= j <= x ==> w[j] == w[x]
  }

  /** The sequence filter (`--seq-max`, 0 when off) keeps a word with no run
      of `m` equal consecutive bytes. */
  predicate SeqOk(w: seq<byte>, m: int) {
    m == 0 || forall x :: 0 <= x < |w| ==> !RunEndsAt(w, m, x)
  }

  /** The occurrence filter (`-r`, long name `--occur-max`; 0 when off) keeps a word in
      which no byte occurs `o` times or more. */
  predicate OccurOk(w: seq<byte>, o: int) {
    o == 0 || forall i :: 0 <= i < |w| ==> Count(w, w[i]) < o
  }

  /** How often the byte b occurs in w. */
  function Count(w: seq<byte>, b: int): (n: nat)
    ensures n <= |w|
  {
    if |w| == 0 then 0 else Count(w[..|w| - 1], b) + (if w[|w| - 1] == b then 1 else 0)
  }

  /** Writing c at position i counts one less of the byte it replaces and
      one more of c. */
  lemma {:induction false} CountUpdate(w: seq<byte>, i: int, c: byte, b: int)
    requires 0 <= i < |w|
    ensures Count(w[i := c], b) == Count(w, b) - (if w[i] == b then 1 else 0) + (if c == b then 1 else 0)
    decreases |w|
  {
    var n := |w| - 1;
    var u := w[i := c];
    if i < n {
      assert u[..n] == w[..n][i := c];
      CountUpdate(w[..n], i, c, b);
    } else {
      assert u[..n] == w[..n];
    }
  }

  /** The occurrence test against a table that counts the bytes of `w`
      minus those of `base`: what the program tests when its table starts
      from zero while the word buffer holds `base`. */
  predicate OccurOkAgainst(w: seq<byte>, base: seq<byte>, o: int) {
    o == 0 || forall i :: 0 <= i < |w| ==> Count(w, w[i]) - Count(base, w[i]) < o
  }

  /** Against an empty base the test is the occurrence filter itself. */
  lemma OccurAgainstEmpty(w: seq<byte>, o: int)
    ensures OccurOkAgainst(w, [], o) <==> OccurOk(w, o)
  {
  }

  /** The pass of length 2 over `?d?d` that follows the pass of length 1:
      the table starts from zero while the word buffer still holds the '0'
      the previous pass left at position 0 (and any byte x after it), so
      the word "00" passes `-r 2` although '0' occurs twice. */
  lemma StaleTableAdmits(x: byte)
    ensures OccurOkAgainst([0x30, 0x30], [0x30, x], 2)
    ensures !OccurOk([0x30, 0x30], 2)
  {
    var w: seq<byte> := [0x30, 0x30];
    var base: seq<byte> := [0x30, x];
    assert w[..1] == [0x30] && base[..1] == [0x30];
    assert Count(w, 0x30) == 2;
    assert Count(base, 0x30) >= 1;
  }


  predicate Keep(w: seq<byte>, m: int, o: int, base: seq<byte>) {
    SeqOk(w, m) && OccurOkAgainst(w, base, o)
  }

  /** The kept words of ranks lo .. hi-1, in rank order. */
  function Accepted(T: seq<seq<byte>>, lo: int, hi: int, m: int, o: int, base: seq<byte>): seq<seq<byte>>
    requires 0 <= lo && hi <= Total(T)
    decreases hi - lo
  {
    if hi <= lo then []
    else if Keep(WordAt(T, hi - 1), m, o, base) then Accepted(T, lo, hi - 1, m, o, base) + [WordAt(T, hi - 1)]
    else Accepted(T, lo, hi - 1, m, o, base)
  }

  /** One more rank: its word is appended when it passes the filters. */
  lemma AcceptedNext(T: seq<seq<byte>>, lo: int, r: int, m: int, o: int, base: seq<byte>)
    requires 0 <= lo <= r < Total(T)
    ensures Keep(WordAt(T, r), m, o, base) ==> Accepted(T, lo, r + 1, m, o, base) == Accepted(T, lo, r, m, o, base) + [WordAt(T, r)]
    ensures !Keep(WordAt(T, r), m, o, base) ==> Accepted(T, lo, r + 1, m, o, base) == Accepted(T, lo, r, m, o, base)
  {
  }

  /** Every emitted word passes the filters and is the word of a rank in
      [lo, hi). */
  lemma {:induction false} AcceptedSound(T: seq<seq<byte>>, lo: int, hi: int, m: int, o: int, base: seq<byte>, w: seq<byte>)
    requires 0 <= lo && hi <= Total(T)
    requires w in Accepted(T, lo, hi, m, o, base)
    ensures Keep(w, m, o, base)
    ensures exists k :: lo <= k < hi && WordAt(T, k) == w
    decreases hi - lo
  {
    var A := Accepted(T, lo, hi - 1, m, o, base);
    var x := WordAt(T, hi - 1);
    assert Accepted(T, lo, hi, m, o, base) == A + (if Keep(x, m, o, base) then [x] else []);
    if w in A {
      AcceptedSound(T, lo, hi - 1, m, o, base, w);
    } else {
      assert w == x;
    }
  }

  /** Every word of a rank in [lo, hi) that passes the filters is emitted. */
  lemma {:induction false} AcceptedComplete(T: seq<seq<byte>>, lo: int, hi: int, m: int, o: int, base: seq<byte>, k: int)
    requires 0 <= lo <= k < hi <= Total(T)
    requires Keep(WordAt(T, k), m, o, base)
    ensures WordAt(T, k) in Accepted(T, lo, hi, m, o, base)
    decreases hi - lo
  {
    var A := Accepted(T, lo, hi - 1, m, o, base);
    var x := WordAt(T, hi - 1);
    assert Accepted(T, lo, hi, m, o, base) == A + (if Keep(x, m, o, base) then [x] else []);
    if k < hi - 1 {
      AcceptedComplete(T, lo, hi - 1, m, o, base, k);
    }
  }

  /** The words of ranks lo .. hi-1, in rank order. */
  function Span(T: seq<seq<byte>>, lo: int, hi: int): (ws: seq<seq<byte>>)
    requires 0 <= lo <= hi <= Total(T)
    ensures |ws| == hi - lo
  {
    seq(hi - lo, j requires 0 <= j < hi - lo => WordAt(T, lo + j))
  }

  /** With both filters off, every rank in [lo, hi) is emitted, in order. */
  lemma {:induction false} AcceptedUnfiltered(T: seq<seq<byte>>, lo: int, hi: int)
    requires 0 <= lo <= hi <= Total(T)
    ensures Accepted(T, lo, hi, 0, 0, []) == Span(T, lo, hi)
    decreases hi - lo
  {
    if hi > lo {
      AcceptedUnfiltered(T, lo, hi - 1);
      assert Span(T, lo, hi) == Span(T, lo, hi - 1) + [WordAt(T, hi - 1)];
    }
  }

  /** No entry of `s` appears twice. */
  predicate NoRepeats(s: seq<seq<byte>>) {
    forall i, j :: 0 <= i < j < |s| ==> s[i] != s[j]
  }

  /** Appending a fresh entry keeps a sequence free of repeats. */
  lemma SnocNoRepeats(s: seq<seq<byte>>, w: seq<byte>)
    requires NoRepeats(s) && w !in s
    ensures NoRepeats(s + [w])
  {
  }

  /** The word of a rank is not among those accepted before it. */
  lemma AcceptedFresh(T: seq<seq<byte>>, lo: int, hi: int, m: int, o: int, base: seq<byte>)
    requires WellFormed(T) && 0 <= lo && 0 <= hi < Total(T)
    ensures WordAt(T, hi) !in Accepted(T, lo, hi, m, o, base)
  {
    var w := WordAt(T, hi);
    if w in Accepted(T, lo, hi, m, o, base) {
      AcceptedSound(T, lo, hi, m, o, base, w);
      var k :| lo <= k < hi && WordAt(T, k) == w;
      WordAtInjective(T, k, hi);
    }
  }

  /** No word is emitted twice within a pass. */
  lemma {:induction false} AcceptedDistinct(T: seq<seq<byte>>, lo: int, hi: int, m: int, o: int, base: seq<byte>)
    requires WellFormed(T) && 0 <= lo && hi <= Total(T)
    ensures NoRepeats(Accepted(T, lo, hi, m, o, base))
    decreases hi - lo
  {
    if hi > lo {
      AcceptedDistinct(T, lo, hi - 1, m, o, base);
      AcceptedFresh(T, lo, hi - 1, m, o, base);
      if Keep(WordAt(T, hi - 1), m, o, base) {
        SnocNoRepeats(Accepted(T, lo, hi - 1, m, o, base), WordAt(T, hi - 1));
      }
    }
  }

  /** Ranks that the filters all reject add nothing. */
  lemma {:induction false} AcceptedSkip(T: seq<seq<byte>>, lo: int, k: int, k': int, m: int, o: int, base: seq<byte>)
    requires 0 <= lo && 0 <= k <= k' <= Total(T)
    requires forall j :: k <= j < k' ==> !Keep(WordAt(T, j), m, o, base)
    ensures Accepted(T, lo, k', m, o, base) == Accepted(T, lo, k, m, o, base)
    decreases k' - k
  {
    if k' > k {
      AcceptedSkip(T, lo, k, k' - 1, m, o, base);
      var x := WordAt(T, k' - 1);
      assert !Keep(x, m, o, base);
    }
  }

  // ---------------------------------------------------------------------------
  // One length pass

  /** The conditions under which the program reaches a length pass: slots
      compiled, start-at and stop-at validated against every slot, and the
      filters off whenever start-at or stop-at is given. */
  predicate Admissible(S: seq<seq<byte>>, L: int, start: Option<seq<byte>>, stop: Option<seq<byte>>, m: int, o: int) {
    0 <= L <= |S| && Options(S, start, stop, m, o)
  }

  predicate Options(S: seq<seq<byte>>, start: Option<seq<byte>>, stop: Option<seq<byte>>, m: int, o: int) {
    WellFormed(S) && (m == 0 || m >= 2) && Validated(S, start, m, o) && Validated(S, stop, m, o)
  }

  /** A start-at or stop-at word, when given, has one byte of its slot per
      slot, and is accepted only with both filters off. */
  predicate Validated(S: seq<seq<byte>>, w: Option<seq<byte>>, m: int, o: int) {
    w.Some? ==> |w.value| == |S| && InSlots(S, w.value) && m == 0 && o == 0
  }

  lemma InSlotsPrefix(S: seq<seq<byte>>, w: seq<byte>, L: int)
    requires InSlots(S, w) && 0 <= L <= |S|
    ensures InSlots(S[..L], w[..L])
  {
  }

  /** The rank of the first word the odometer reaches after priming: 0,
      unless the pass is empty (length 0) or slot 0 is empty, where the
      first step already rolls over. */
  function FirstRank(T: seq<seq<byte>>): (k: int)
    ensures 0 <= k <= Total(T)
  {
    if |T| == 0 || |T[0]| == 0 then Total(T) else 0
  }

  /** The first rank the loop reaches: after the start-at word, or after
      priming. */
  function LoopStart(S: seq<seq<byte>>, L: int, start: Option<seq<byte>>, stop: Option<seq<byte>>, m: int, o: int): (k: int)
    requires Admissible(S, L, start, stop, m, o)
    ensures 0 <= k <= Total(S[..L])
  {
    if start.Some? then RankAt(S, L, start.value) + 1 else FirstRank(S[..L])
  }

  /** The rank at length L of a validated start-at or stop-at word: the
      rank of its first L bytes. */
  function RankAt(S: seq<seq<byte>>, L: int, w: seq<byte>): (k: int)
    requires WellFormed(S) && 0 <= L <= |S| && InSlots(S, w)
    ensures 0 <= k < Total(S[..L])
  {
    InSlotsPrefix(S, w, L);
    RankOfWord(S[..L], w[..L])
  }

  /** The pass ends at the stop-at word when the loop reaches its rank. */
  predicate Halts(S: seq<seq<byte>>, L: int, start: Option<seq<byte>>, stop: Option<seq<byte>>, m: int, o: int)
    requires Admissible(S, L, start, stop, m, o)
  {
    stop.Some? && LoopStart(S, L, start, stop, m, o) <= RankAt(S, L, stop.value)
  }

  /** The words one length pass emits: the start-at word first when given,
      then the kept words of the ranks the loop reaches, up to and
      including the stop-at word when the loop reaches it. */
  function PassOutput(S: seq<seq<byte>>, L: int, start: Option<seq<byte>>, stop: Option<seq<byte>>, m: int, o: int, base: seq<byte>): seq<seq<byte>>
    requires Admissible(S, L, start, stop, m, o)
  {
    (if start.Some? then [start.value[..L]] else []) + Accepted(S[..L], LoopStart(S, L, start, stop, m, o), LoopEnd(S, L, start, stop, m, o), m, o, base)
  }

  /** The two shapes of a pass: with a start-at word it leads the output,
      without one the output is the kept words alone. */
  lemma PassOutputShape(S: seq<seq<byte>>, L: int, start: Option<seq<byte>>, stop: Option<seq<byte>>, m: int, o: int, base: seq<byte>)
    requires Admissible(S, L, start, stop, m, o)
    ensures start.None? ==> PassOutput(S, L, start, stop, m, o, base)
                            == Accepted(S[..L], LoopStart(S, L, start, stop, m, o), LoopEnd(S, L, start, stop, m, o), m, o, base)
    ensures start.Some? ==> PassOutput(S, L, start, stop, m, o, base)
                            == [start.value[..L]] + Accepted(S[..L], LoopStart(S, L, start, stop, m, o), LoopEnd(S, L, start, stop, m, o), m, o, base)
  {
    var A := Accepted(S[..L], LoopStart(S, L, start, stop, m, o), LoopEnd(S, L, start, stop, m, o), m, o, base);
    if start.None? {
      assert [] + A == A;
    }
  }

  /** One past the last rank the loop reaches: the stop-at rank plus one
      when the loop halts there, otherwise the number of words. */
  function LoopEnd(S: seq<seq<byte>>, L: int, start: Option<seq<byte>>, stop: Option<seq<byte>>, m: int, o: int): (k: int)
    requires Admissible(S, L, start, stop, m, o)
    ensures LoopStart(S, L, start, stop, m, o) <= k <= Total(S[..L])
  {
    if Halts(S, L, start, stop, m, o) then RankAt(S, L, stop.value) + 1 else Total(S[..L])
  }

  /** The whole run over lengths lo .. hi: start-at applies to the first pass
      only, and stop-at is dropped after the pass that reaches it. */
  function RunOutput(S: seq<seq<byte>>, lo: int, hi: int, start: Option<seq<byte>>, stop: Option<seq<byte>>, m: int, o: int): seq<seq<byte>>
    requires 0 <= lo && hi <= |S|
    requires Options(S, start, stop, m, o)
    decreases hi - lo
  {
    if lo > hi then []
    else
      var next := if Halts(S, lo, start, stop, m, o) then None else stop;
      PassOutput(S, lo, start, stop, m, o, []) + RunOutput(S, lo + 1, hi, None, next, m, o)
  }

  /** The word at a rank equals the first L bytes of a validated stop-at
      word exactly at the stop-at rank. */
  lemma StopRank(S: seq<seq<byte>>, L: int, stop: seq<byte>, k: int)
    requires WellFormed(S) && 0 <= L <= |S| && |stop| == |S| && InSlots(S, stop)
    requires 0 <= k < Total(S[..L])
    ensures WordAt(S[..L], k) == stop[..L] <==> k == RankAt(S, L, stop)
  {
    var T := S[..L];
    InSlotsPrefix(S, stop, L);
    WordRankRoundTrip(T, stop[..L]);
    if WordAt(T, k) == stop[..L] {
      WordAtInjective(T, k, RankOfWord(T, stop[..L]));
    }
  }

  /** How the loop of a pass ends: at the last rank, having passed no
      stop-at rank, or at the stop-at rank.  Either way the words it emitted
      after the start-at word are the pass's output. */
  lemma PassFinish(S: seq<seq<byte>>, L: int, start: Option<seq<byte>>, stop: Option<seq<byte>>, m: int, o: int, base: seq<byte>,
                   k: int, halted: bool, words: seq<seq<byte>>)
    requires Admissible(S, L, start, stop, m, o)
    requires LoopStart(S, L, start, stop, m, o) - 1 <= k < Total(S[..L])
    requires words == Accepted(S[..L], LoopStart(S, L, start, stop, m, o), k + 1, m, o, base)
    requires halted ==> stop.Some? && k == RankAt(S, L, stop.value) && LoopStart(S, L, start, stop, m, o) <= k
    requires !halted ==> k == Total(S[..L]) - 1
    requires !halted && stop.Some? ==> !(LoopStart(S, L, start, stop, m, o) <= RankAt(S, L, stop.value) <= k)
    ensures halted == Halts(S, L, start, stop, m, o)
    ensures (if start.Some? then [start.value[..L]] else []) + words == PassOutput(S, L, start, stop, m, o, base)
  {
    assert LoopEnd(S, L, start, stop, m, o) == k + 1;
  }

  /** The accounting of the run over lengths: the words emitted so far,
      followed by the passes from len on (start-at for the pass at len
      only, stop-at dropped after the pass that reaches it), make up total. */
  predicate Accounted(S: seq<seq<byte>>, out: seq<seq<byte>>, len: int, hi: int,
                      from: Option<seq<byte>>, until: Option<seq<byte>>, m: int, o: int, total: seq<seq<byte>>)
    requires Options(S, from, until, m, o) && 0 <= len && hi <= |S|
    decreases hi - len
  {
    if len > hi then out == total
    else
      var next := if Halts(S, len, from, until, m, o) then None else until;
      Accounted(S, out + PassOutput(S, len, from, until, m, o, []), len + 1, hi, None, next, m, o, total)
  }

  /** The words emitted so far followed by the run from len are accounted
      for. */
  lemma {:induction false} AccountedRun(S: seq<seq<byte>>, out: seq<seq<byte>>, len: int, hi: int,
                                        from: Option<seq<byte>>, until: Option<seq<byte>>, m: int, o: int, total: seq<seq<byte>>)
    requires Options(S, from, until, m, o) && 0 <= len && hi <= |S|
    requires out + RunOutput(S, len, hi, from, until, m, o) == total
    ensures Accounted(S, out, len, hi, from, until, m, o, total)
    decreases hi - len
  {
    if len > hi {
      assert out + [] == out;
    } else {
      var next := if Halts(S, len, from, until, m, o) then None else until;
      var words, rest := PassOutput(S, len, from, until, m, o, []), RunOutput(S, len + 1, hi, None, next, m, o);
      AppendAssoc(out, words, rest);
      AccountedRun(S, out + words, len + 1, hi, None, next, m, o, total);
    }
  }

  /** Before the first pass nothing is emitted and the whole run is still
      to come. */
  lemma RunAccounted(S: seq<seq<byte>>, lo: int, hi: int, start: Option<seq<byte>>, stop: Option<seq<byte>>, m: int, o: int)
    requires Options(S, start, stop, m, o) && 0 <= lo && hi <= |S|
    ensures Accounted(S, [], lo, hi, start, stop, m, o, RunOutput(S, lo, hi, start, stop, m, o))
  {
    var total := RunOutput(S, lo, hi, start, stop, m, o);
    assert [] + total == total;
    AccountedRun(S, [], lo, hi, start, stop, m, o, total);
  }

  // ---------------------------------------------------------------------------
  // What a pass promises

  /** Without filters, start-at or stop-at, a pass over slots that are all
      non-empty emits every word of the slots in mixed-radix order (so as
      many words as the product of the slot sizes), and nothing else. */
  lemma PassEnumeratesAll(S: seq<seq<byte>>, L: int)
    requires Admissible(S, L, None, None, 0, 0) && L >= 1
    requires forall i :: 0 <= i < L ==> |S[i]| > 0
    ensures PassOutput(S, L, None, None, 0, 0, []) == Span(S[..L], 0, Total(S[..L]))
    ensures forall w :: w in PassOutput(S, L, None, None, 0, 0, []) <==> InSlots(S[..L], w)
  {
    var T := S[..L];
    assert |T[0]| > 0 && LoopStart(S, L, None, None, 0, 0) == 0;
    PassOutputShape(S, L, None, None, 0, 0, []);
    AcceptedUnfiltered(T, 0, Total(T));
    SpanMembers(T);
  }

  /** With no slot empty, the span of all ranks holds exactly the words
      drawn from the slots. */
  lemma SpanMembers(T: seq<seq<byte>>)
    requires WellFormed(T) && forall i :: 0 <= i < |T| ==> |T[i]| > 0
    ensures forall w :: w in Span(T, 0, Total(T)) <==> InSlots(T, w)
  {
    var A := Span(T, 0, Total(T));
    forall w | w in A
      ensures InSlots(T, w)
    {
      var k :| 0 <= k < |A| && A[k] == w;
      RankWordRoundTrip(T, k);
    }
    forall w | InSlots(T, w)
      ensures w in A
    {
      WordRankRoundTrip(T, w);
      assert A[RankOfWord(T, w)] == w;
    }
  }

  /** A pass resumed at a start-at word emits that word and then, in order,
      the word of every higher rank, up to the stop-at word when the loop
      reaches it. */
  lemma PassResumes(S: seq<seq<byte>>, L: int, start: seq<byte>, stop: Option<seq<byte>>)
    requires Admissible(S, L, Some(start), stop, 0, 0)
    ensures RankAt(S, L, start) < LoopEnd(S, L, Some(start), stop, 0, 0)
    ensures PassOutput(S, L, Some(start), stop, 0, 0, [])
            == [start[..L]] + Span(S[..L], RankAt(S, L, start) + 1, LoopEnd(S, L, Some(start), stop, 0, 0))
    ensures stop.None? ==> LoopEnd(S, L, Some(start), stop, 0, 0) == Total(S[..L])
  {
    PassOutputShape(S, L, Some(start), stop, 0, 0, []);
    AcceptedUnfiltered(S[..L], RankAt(S, L, start) + 1, LoopEnd(S, L, Some(start), stop, 0, 0));
  }

  /** A pass given a start-at word emits it first, whatever the filters. */
  lemma PassStartsWith(S: seq<seq<byte>>, L: int, start: seq<byte>, stop: Option<seq<byte>>, m: int, o: int, base: seq<byte>)
    requires Admissible(S, L, Some(start), stop, m, o)
    ensures |PassOutput(S, L, Some(start), stop, m, o, base)| >= 1
    ensures PassOutput(S, L, Some(start), stop, m, o, base)[0] == start[..L]
  {
    PassOutputShape(S, L, Some(start), stop, m, o, base);
  }

  /** When the loop reaches the stop-at word, it is the last word of the
      pass. */
  lemma PassStopsAt(S: seq<seq<byte>>, L: int, start: Option<seq<byte>>, stop: seq<byte>)
    requires Admissible(S, L, start, Some(stop), 0, 0)
    requires Halts(S, L, start, Some(stop), 0, 0)
    ensures |PassOutput(S, L, start, Some(stop), 0, 0, [])| >= 1
    ensures PassOutput(S, L, start, Some(stop), 0, 0, [])[|PassOutput(S, L, start, Some(stop), 0, 0, [])| - 1] == stop[..L]
  {
    var T := S[..L];
    var lo := LoopStart(S, L, start, Some(stop), 0, 0);
    var rs := RankAt(S, L, stop);
    StopShape(S, L, start, stop);
    InSlotsPrefix(S, stop, L);
    SpanEndsAt(T, lo, stop[..L]);
  }

  lemma StopShape(S: seq<seq<byte>>, L: int, start: Option<seq<byte>>, stop: seq<byte>)
    requires Admissible(S, L, start, Some(stop), 0, 0)
    requires Halts(S, L, start, Some(stop), 0, 0)
    ensures start.None? ==> PassOutput(S, L, start, Some(stop), 0, 0, [])
                            == Span(S[..L], LoopStart(S, L, start, Some(stop), 0, 0), RankAt(S, L, stop) + 1)
    ensures start.Some? ==> PassOutput(S, L, start, Some(stop), 0, 0, [])
                            == [start.value[..L]] + Span(S[..L], LoopStart(S, L, start, Some(stop), 0, 0), RankAt(S, L, stop) + 1)
  {
    var lo, hi := LoopStart(S, L, start, Some(stop), 0, 0), RankAt(S, L, stop) + 1;
    assert LoopEnd(S, L, start, Some(stop), 0, 0) == hi;
    PassOutputShape(S, L, start, Some(stop), 0, 0, []);
    AcceptedUnfiltered(S[..L], lo, hi);
    if start.Some? {
      assert PassOutput(S, L, start, Some(stop), 0, 0, []) == [start.value[..L]] + Accepted(S[..L], lo, hi, 0, 0, []);
    } else {
      assert PassOutput(S, L, start, Some(stop), 0, 0, []) == Accepted(S[..L], lo, hi, 0, 0, []);
    }
  }

  /** The last word of a span that ends at the rank of `w` is `w`. */
  lemma SpanEndsAt(T: seq<seq<byte>>, lo: int, w: seq<byte>)
    requires InSlots(T, w) && 0 <= lo <= RankOfWord(T, w)
    ensures Span(T, lo, RankOfWord(T, w) + 1)[RankOfWord(T, w) - lo] == w
  {
    WordRankRoundTrip(T, w);
  }

  /** Every word a filtered pass emits has the pass length and passes both
      filters, when the occurrence table counts the word's own bytes. */
  lemma PassFiltered(S: seq<seq<byte>>, L: int, m: int, o: int)
    requires Admissible(S, L, None, None, m, o)
    ensures forall w :: w in PassOutput(S, L, None, None, m, o, []) ==> |w| == L && SeqOk(w, m) && OccurOk(w, o)
  {
    var T := S[..L];
    forall w | w in PassOutput(S, L, None, None, m, o, [])
      ensures |w| == L && SeqOk(w, m) && OccurOk(w, o)
    {
      PassOutputShape(S, L, None, None, m, o, []);
      assert w in Accepted(T, FirstRank(T), Total(T), m, o, []);
      AcceptedSound(T, FirstRank(T), Total(T), m, o, [], w);
      OccurAgainstEmpty(w, o);
    }
  }

  /** The slots of `?d?d` are well formed. */
  lemma DigitSlots()
    ensures WellFormed([Digits(), Digits()])
  {
    var D := Digits();
    assert NoDup(D) by {
      forall i, j | 0 <= i < j < |D|
        ensures D[i] != D[j]
      {
      }
    }
  }

  /** The pass of length 2 over the slots of `?d?d` with `-r 2`, its
      occurrence table counting against a buffer whose first byte is '0'
      (what the pass of length 1 leaves behind): the word "00" is emitted
      although '0' occurs twice in it. */
  lemma StalePassEmits(S: seq<seq<byte>>, base: seq<byte>)
    requires S == [Digits(), Digits()]
    requires |base| == 2 && base[0] == 0x30
    ensures [0x30, 0x30] in PassOutput(S, 2, None, None, 0, 2, base)
  {
    var w: seq<byte> := [0x30, 0x30];
    assert S[..2] == S;
    assert Digits()[0] == 0x30;
    WordRankRoundTrip(S, w);
    assert base == [0x30, base[1]];
    StaleTableAdmits(base[1]);
    AcceptedComplete(S, 0, Total(S), 0, 2, base, RankOfWord(S, w));
  }

  /** The same pass with the table counting each word's own bytes does not
      emit "00". */
  lemma CountedPassRejects()
    ensures [0x30, 0x30] !in PassOutput([Digits(), Digits()], 2, None, None, 0, 2, [])
  {
    var S := [Digits(), Digits()];
    DigitSlots();
    PassFiltered(S, 2, 0, 2);
    StaleTableAdmits(0);
  }
}
