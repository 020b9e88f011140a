/** How the slot cursors (`cs_pos`) of src/mp.c encode a rank: after `next`
    has written position j, its cursor is one past the index of the byte it
    wrote, so cursor - 1 is the digit of that position; a cursor at the slot
    size marks a position that the next step will roll over.  The lemmas
    here carry the odometer's steps over to ranks. */
module Odometer {
  import opened Base
  import opened MixedRadix
  import opened Charsets
  import opened Words

  /** The digit a cursor stands for (0 for an empty slot). */
  function Digit(s: seq<byte>, c: int): int {
    if |s| == 0 then 0 else c - 1
  }

  function Digits(T: seq<seq<byte>>, c: seq<int>): (d: seq<int>)
    requires |c| == |T|
    ensures |d| == |T|
    ensures forall j :: 0 <= j < |T| ==> d[j] == Digit(T[j], c[j])
  {
    seq(|T|, j requires 0 <= j < |T| => Digit(T[j], c[j]))
  }

  /** The rank the odometer stands at. */
  function CursorRank(T: seq<seq<byte>>, c: seq<int>): int
    requires |c| == |T|
  {
    Horner(Digits(T, c), Radix(T))
  }

  /** Every cursor lies between 0 and the slot's width. */
  predicate CursorsIn(T: seq<seq<byte>>, c: seq<int>) {
    |c| == |T| && forall j :: 0 <= j < |T| ==> 0 <= c[j] <= Width(T[j])
  }

  /** Position j holds the byte its cursor says was written last. */
  predicate Consistent(T: seq<seq<byte>>, c: seq<int>, w: seq<byte>, j: int)
    requires 0 <= j < |T| && |c| == |T| && |w| == |T|
  {
    (|T[j]| == 0 || 1 <= c[j]) && c[j] <= Width(T[j]) && w[j] == Sym(T[j], Digit(T[j], c[j]))
  }

  /** The digits of a consistent state are in range. */
  lemma ConsistentDigits(T: seq<seq<byte>>, c: seq<int>, w: seq<byte>)
    requires |c| == |T| && |w| == |T|
    requires forall j :: 0 <= j < |T| ==> Consistent(T, c, w, j)
    ensures InRange(Digits(T, c), Radix(T))
    ensures WordOf(T, Digits(T, c)) == w
  {
    var d := Digits(T, c);
    var R := Radix(T);
    forall j | 0 <= j < |T|
      ensures 0 <= d[j] < R[j] && w[j] == Sym(T[j], d[j])
    {
      assert Consistent(T, c, w, j);
    }
  }

  /** A consistent state spells the word of its rank. */
  lemma ConsistentWord(T: seq<seq<byte>>, c: seq<int>, w: seq<byte>)
    requires |c| == |T| && |w| == |T|
    requires forall j :: 0 <= j < |T| ==> Consistent(T, c, w, j)
    ensures 0 <= CursorRank(T, c) < Total(T)
    ensures w == WordAt(T, CursorRank(T, c))
  {
    var d := Digits(T, c);
    var R := Radix(T);
    ConsistentDigits(T, c, w);
    HornerBounds(d, R);
    HornerDigits(d, R);
  }

  /** When every cursor is at its slot size, the rank is the last one. */
  lemma ExhaustedRank(T: seq<seq<byte>>, c: seq<int>)
    requires CursorsIn(T, c)
    requires forall j :: 0 <= j < |T| ==> c[j] >= |T[j]|
    ensures CursorRank(T, c) == Total(T) - 1
  {
    HornerMax(Digits(T, c), Radix(T));
  }

  /** One step of `next` that stops at position r adds one to the rank. */
  lemma StepRank(T: seq<seq<byte>>, c: seq<int>, c': seq<int>, r: int)
    requires CursorsIn(T, c) && |c'| == |T| && 0 <= r < |T|
    requires c'[..r] == c[..r] && c[r] < |T[r]| && c'[r] == c[r] + 1
    requires forall j :: r < j < |T| ==> c[j] >= |T[j]| && c'[j] == 1
    ensures CursorRank(T, c') == CursorRank(T, c) + 1
  {
    var d, d' := Digits(T, c), Digits(T, c');
    assert d'[..r] == d[..r] by {
      forall j | 0 <= j < r
        ensures d'[j] == d[j]
      {
        assert c'[j] == c'[..r][j];
      }
    }
    Increment(d, d', Radix(T), r);
  }

  /** The primed state (slot 0 at cursor 0, every later slot at its size)
      stands just before the first rank the loop reaches. */
  lemma PrimedRank(T: seq<seq<byte>>, c: seq<int>)
    requires |c| == |T|
    requires |T| > 0 ==> c[0] == 0
    requires forall j :: 0 < j < |T| ==> c[j] == |T[j]|
    ensures CursorRank(T, c) == FirstRank(T) - 1
  {
    var R := Radix(T);
    var d := Digits(T, c);
    if |T| == 0 {
    } else if |T[0]| == 0 {
      HornerMax(d, R);
    } else {
      SplitAfter(d, R, 1);
      HornerMax(d[1..], R[1..]);
      assert Horner(d[..1], R[..1]) == -1;
      AddOneBlock(-1, Prod(R[1..]));
    }
  }

  /** Cursors set one past the positions of a word's bytes stand at the
      word's rank, consistently. */
  lemma ResumedRank(T: seq<seq<byte>>, c: seq<int>, w: seq<byte>)
    requires InSlots(T, w) && |c| == |T|
    requires forall j :: 0 <= j < |T| ==> c[j] == FindPos(T[j], w[j]) + 1
    ensures CursorRank(T, c) == RankOfWord(T, w)
    ensures forall j :: 0 <= j < |T| ==> Consistent(T, c, w, j)
  {
    assert Digits(T, c) == Positions(T, w);
  }

  /** Forcing every position after e to its slot size jumps forward, to the
      last rank of the block that shares digits 0..e with the current
      state. */
  lemma ForcedRank(T: seq<seq<byte>>, c: seq<int>, c': seq<int>, w: seq<byte>, e: int)
    requires CursorsIn(T, c) && CursorsIn(T, c') && |w| == |T| && 0 <= e < |T|
    requires forall j :: 0 <= j < |T| ==> Consistent(T, c, w, j)
    requires c'[..e + 1] == c[..e + 1]
    requires forall j :: e < j < |T| ==> c'[j] >= |T[j]|
    ensures 0 <= CursorRank(T, c) <= CursorRank(T, c') < Total(T)
  {
    var R := Radix(T);
    var d, d' := Digits(T, c), Digits(T, c');
    ForcedDigits(T, c, c', e);
    ConsistentDigits(T, c, w);
    MaxTailForward(d, d', R, e + 1);
    HornerBounds(d, R);
    MaxTail(d, d', R, e + 1, CursorRank(T, c'));
  }

  /** The digits of a forced state. */
  lemma ForcedDigits(T: seq<seq<byte>>, c: seq<int>, c': seq<int>, e: int)
    requires |c| == |T| && CursorsIn(T, c') && 0 <= e < |T|
    requires c'[..e + 1] == c[..e + 1]
    requires forall j :: e < j < |T| ==> c'[j] >= |T[j]|
    ensures Digits(T, c')[..e + 1] == Digits(T, c)[..e + 1]
    ensures AllMax(Digits(T, c')[e + 1..], Radix(T)[e + 1..])
  {
    var d, d' := Digits(T, c), Digits(T, c');
    forall j | 0 <= j <= e
      ensures d'[j] == d[j]
    {
      assert c'[j] == c'[..e + 1][j];
    }
  }

  /** Every rank from the current one to the end of the forced block has the
      same digits at positions 0..e as the current state. */
  lemma ForcedBlock(T: seq<seq<byte>>, c: seq<int>, c': seq<int>, w: seq<byte>, e: int, k: int)
    requires CursorsIn(T, c) && CursorsIn(T, c') && |w| == |T| && 0 <= e < |T|
    requires forall j :: 0 <= j < |T| ==> Consistent(T, c, w, j)
    requires c'[..e + 1] == c[..e + 1]
    requires forall j :: e < j < |T| ==> c'[j] >= |T[j]|
    requires CursorRank(T, c) <= k <= CursorRank(T, c')
    ensures 0 <= k < Total(T) && InRange(Digits(T, c), Radix(T))
    ensures DigitsOf(k, Radix(T))[..e + 1] == Digits(T, c)[..e + 1]
  {
    ForcedDigits(T, c, c', e);
    ConsistentDigits(T, c, w);
    MaxTail(Digits(T, c), Digits(T, c'), Radix(T), e + 1, k);
  }

  /** Digit sequences that agree on a prefix spell words that agree on it. */
  lemma WordOfPrefix(T: seq<seq<byte>>, d: seq<int>, d': seq<int>, i: int)
    requires InRange(d, Radix(T)) && InRange(d', Radix(T)) && 0 <= i <= |T|
    requires d[..i] == d'[..i]
    ensures WordOf(T, d)[..i] == WordOf(T, d')[..i]
  {
    forall j | 0 <= j < i
      ensures WordOf(T, d)[j] == WordOf(T, d')[j]
    {
      assert d[j] == d[..i][j];
    }
  }

  /** Every rank from the current one to the end of the forced block spells
      the same bytes at positions 0..e as the current word. */
  lemma ForcedWord(T: seq<seq<byte>>, c: seq<int>, c': seq<int>, w: seq<byte>, e: int, k: int)
    requires CursorsIn(T, c) && CursorsIn(T, c') && |w| == |T| && 0 <= e < |T|
    requires forall j :: 0 <= j < |T| ==> Consistent(T, c, w, j)
    requires c'[..e + 1] == c[..e + 1]
    requires forall j :: e < j < |T| ==> c'[j] >= |T[j]|
    requires CursorRank(T, c) <= k <= CursorRank(T, c')
    ensures 0 <= k < Total(T)
    ensures WordAt(T, k)[..e + 1] == w[..e + 1]
  {
    ForcedBlock(T, c, c', w, e, k);
    ConsistentDigits(T, c, w);
    DigitsOfCorrect(k, Radix(T));
    WordOfPrefix(T, DigitsOf(k, Radix(T)), Digits(T, c), e + 1);
  }

  // ---------------------------------------------------------------------------
  // Runs as the scan of the sequence filter counts them

  /** The number of equal bytes ending at x, counting back no further than
      s: the `seq_cnt` of the scan when it reaches x. */
  function RunCount(w: seq<byte>, s: int, x: int): (n: int)
    requires 0 <= s <= x < |w|
    ensures 1 <= n <= x - s + 1
    decreases x - s
  {
    if x == s then 1
    else if w[x - 1] == w[x] then RunCount(w, s, x - 1) + 1
    else 1
  }

  /** The count reaches m exactly when a run of m equal bytes ends at x and
      starts no earlier than s. */
  lemma {:induction false} RunCountSpec(w: seq<byte>, s: int, x: int, m: int)
    requires 0 <= s <= x < |w| && m >= 1
    ensures RunCount(w, s, x) >= m <==> s <= x - m + 1 && RunEndsAt(w, m, x)
    decreases x - s
  {
    if x > s && w[x - 1] == w[x] && m >= 2 {
      RunCountSpec(w, s, x - 1, m - 1);
      if s <= x - m + 1 && RunEndsAt(w, m, x) {
        assert RunEndsAt(w, m - 1, x - 1);
      }
      if RunEndsAt(w, m - 1, x - 1) {
        assert RunEndsAt(w, m, x);
      }
    } else if x > s && w[x - 1] != w[x] && m >= 2 {
      assert !RunEndsAt(w, m, x) by {
        assert x - m + 1 <= x - 1;
      }
    }
  }

  /** Under the sequence filter a run ending inside the first x+1 bytes
      depends on those bytes only. */
  lemma RunPrefix(w: seq<byte>, w': seq<byte>, m: int, e: int)
    requires RunEndsAt(w, m, e) && |w'| == |w| && w'[..e + 1] == w[..e + 1]
    ensures RunEndsAt(w', m, e)
  {
    forall j | e - m + 1 <= j <= e
      ensures w'[j] == w'[e]
    {
      assert w'[j] == w'[..e + 1][j] && w'[e] == w'[..e + 1][e];
    }
  }

  /** A prefix of a word without a run has none either. */
  lemma SeqOkPrefix(w: seq<byte>, n: int, m: int)
    requires SeqOk(w, m) && 0 <= n <= |w|
    ensures SeqOk(w[..n], m)
  {
    if m != 0 {
      forall x | 0 <= x < n
        ensures !RunEndsAt(w[..n], m, x)
      {
        if RunEndsAt(w[..n], m, x) {
          assert RunEndsAt(w, m, x);
        }
      }
    }
  }

  /** `seq_start[len]`: the first position the sequence scan looks at after
      position len changed. */
  function SeqStartOf(len: int, m: int): int {
    if len - m + 1 > 0 then len - m + 1 else 0
  }

  /** Scanning from `seq_start[first]` misses no run when the bytes before
      `first` have none: a run ending before seq_start[first] + m - 1 lies
      wholly before `first`. */
  lemma ScanCovers(w: seq<byte>, first: int, m: int, x: int)
    requires 0 <= first < |w| && m >= 2 && SeqOk(w[..first], m)
    requires 0 <= x < SeqStartOf(first, m) + m - 1 && x < |w|
    ensures !RunEndsAt(w, m, x)
  {
    if RunEndsAt(w, m, x) {
      assert x < first;
      assert RunEndsAt(w[..first], m, x);
    }
  }

  /** One step of `next` that returns position r from a standing state: r
      is at most the frontier, the new state is consistent everywhere, one
      rank further, spells the word of that rank, and its bytes before r
      still hold no run. */
  lemma StepState(T: seq<seq<byte>>, c: seq<int>, w: seq<byte>, c': seq<int>, w': seq<byte>, r: int, front: int, m: int)
    requires Stands(T, c, w, front, m) && CursorsIn(T, c') && |w'| == |T|
    requires 0 <= r < |T| && c[r] < |T[r]| && c'[r] == c[r] + 1 && w'[r] == T[r][c[r]]
    requires forall j :: r < j < |T| ==> c[j] >= |T[j]| && c'[j] == 1 && w'[j] == Sym(T[j], 0)
    requires forall j :: 0 <= j < r ==> c'[j] == c[j] && w'[j] == w[j]
    ensures r <= front
    ensures forall j :: 0 <= j < |T| ==> Consistent(T, c', w', j)
    ensures CursorRank(T, c') == CursorRank(T, c) + 1
    ensures 0 <= CursorRank(T, c') < Total(T)
    ensures w' == WordAt(T, CursorRank(T, c'))
    ensures m != 0 ==> SeqOk(w'[..r], m)
  {
    assert r <= front;
    forall j | 0 <= j < |T|
      ensures Consistent(T, c', w', j)
    {
      if j < r {
        assert Consistent(T, c, w, j);
      }
    }
    assert c'[..r] == c[..r];
    StepRank(T, c, c', r);
    ConsistentWord(T, c', w');
    if m != 0 {
      SeqOkPrefix(w[..front], r, m);
      assert w'[..r] == w[..front][..r];
    }
  }

  /** After the scan finds a run ending at e, forcing the later positions
      skips only words that contain that run, so the kept words up to the
      end of the forced block are those before the current rank. */
  lemma SkipForced(T: seq<seq<byte>>, c: seq<int>, c': seq<int>, w: seq<byte>, e: int, lo: int, m: int, o: int, base: seq<byte>)
    requires CursorsIn(T, c) && CursorsIn(T, c') && |w| == |T| && 0 <= e < |T|
    requires forall j :: 0 <= j < |T| ==> Consistent(T, c, w, j)
    requires c'[..e + 1] == c[..e + 1]
    requires forall j :: e < j < |T| ==> c'[j] >= |T[j]|
    requires RunEndsAt(w, m, e) && 0 <= lo
    ensures 0 <= CursorRank(T, c) <= CursorRank(T, c') < Total(T)
    ensures Accepted(T, lo, CursorRank(T, c') + 1, m, o, base) == Accepted(T, lo, CursorRank(T, c), m, o, base)
  {
    ForcedRank(T, c, c', w, e);
    var k0, k1 := CursorRank(T, c), CursorRank(T, c');
    forall k | k0 <= k < k1 + 1
      ensures !Keep(WordAt(T, k), m, o, base)
    {
      ForcedRejected(T, c, c', w, e, m, k);
    }
    AcceptedSkip(T, lo, k0, k1 + 1, m, o, base);
  }

  lemma ForcedRejected(T: seq<seq<byte>>, c: seq<int>, c': seq<int>, w: seq<byte>, e: int, m: int, k: int)
    requires CursorsIn(T, c) && CursorsIn(T, c') && |w| == |T| && 0 <= e < |T|
    requires forall j :: 0 <= j < |T| ==> Consistent(T, c, w, j)
    requires c'[..e + 1] == c[..e + 1]
    requires forall j :: e < j < |T| ==> c'[j] >= |T[j]|
    requires RunEndsAt(w, m, e)
    requires CursorRank(T, c) <= k <= CursorRank(T, c')
    ensures 0 <= k < Total(T) && !SeqOk(WordAt(T, k), m)
  {
    ForcedWord(T, c, c', w, e, k);
    RunPrefix(w, WordAt(T, k), m, e);
  }

  /** In a slot without repetitions a byte is found at its own index. */
  lemma FindPosAt(s: seq<byte>, i: int)
    requires NoDup(s) && 0 <= i < |s|
    ensures FindPos(s, s[i]) == i
  {
  }

  /** What the scan from `seq_start[first]` decides, given that the bytes
      before `first` hold no run: no run found means the word passes the
      sequence filter; a run found ending at e means it fails, and the bytes
      before e still hold no run. */
  lemma ScanVerdict(w: seq<byte>, first: int, m: int, e: int)
    requires 0 <= first < |w| && m >= 2 && SeqOk(w[..first], m)
    requires e == -1 || SeqStartOf(first, m) + m - 1 <= e < |w|
    requires e >= 0 ==> RunEndsAt(w, m, e)
    requires forall x :: SeqStartOf(first, m) + m - 1 <= x < |w| && (e == -1 || x < e) ==> !RunEndsAt(w, m, x)
    ensures e == -1 ==> SeqOk(w, m)
    ensures e >= 0 ==> !SeqOk(w, m) && SeqOk(w[..e], m)
  {
    forall x | 0 <= x < |w| && (e == -1 || x < e)
      ensures !RunEndsAt(w, m, x)
    {
      if x < SeqStartOf(first, m) + m - 1 {
        ScanCovers(w, first, m, x);
      }
    }
    if e >= 0 {
      forall x | 0 <= x < e
        ensures !RunEndsAt(w[..e], m, x)
      {
        if RunEndsAt(w[..e], m, x) {
          assert RunEndsAt(w, m, x);
        }
      }
    }
  }

  /** The state the loop of a pass keeps between steps: positions before
      `front` hold the bytes their cursors name, positions after it are
      exhausted (the next step rolls them over), and under the sequence
      filter the bytes before `front` hold no run of m equal bytes. */
  predicate Stands(T: seq<seq<byte>>, c: seq<int>, w: seq<byte>, front: int, m: int) {
    && CursorsIn(T, c) && |w| == |T| && 0 <= front <= |T|
    && (forall j :: 0 <= j < front ==> Consistent(T, c, w, j))
    && (forall j :: front < j < |T| ==> c[j] >= |T[j]|)
    && (m != 0 ==> SeqOk(w[..front], m))
  }

  /** After forcing the positions after e, the state stands at e. */
  lemma ForcedStands(T: seq<seq<byte>>, c: seq<int>, c': seq<int>, w: seq<byte>, e: int, m: int)
    requires CursorsIn(T, c) && CursorsIn(T, c') && |w| == |T| && 0 <= e < |T|
    requires forall j :: 0 <= j < |T| ==> Consistent(T, c, w, j)
    requires c'[..e + 1] == c[..e + 1]
    requires forall j :: e < j < |T| ==> c'[j] >= |T[j]|
    requires m != 0 ==> SeqOk(w[..e], m)
    ensures Stands(T, c', w, e, m)
  {
    forall j | 0 <= j < e
      ensures Consistent(T, c', w, j)
    {
      assert c'[j] == c'[..e + 1][j];
      assert Consistent(T, c, w, j);
    }
  }
}
