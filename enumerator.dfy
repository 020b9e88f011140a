/** The enumeration engine of src/mp.c: the slot cursors (`cs_pos`), the
    word buffer (`word_buf`) and the occurrence table (`occurs`), updated in
    place by `next` and by the per-length loop of `main`, which applies the
    sequence and occurrence filters and honours start-at and stop-at. */
module Enumeration {
  import opened Base
  import opened MixedRadix
  import opened Charsets
  import opened Words
  import opened Odometer

  /** The `seq_start` table: entry len is SeqStartOf(len, m). */
  method SeqStartTable(m: int) returns (t: seq<int>)
    ensures |t| == PW_MAX
    ensures forall len :: 0 <= len < PW_MAX ==> t[len] == SeqStartOf(len, m)
  {
    var a := new int[PW_MAX];
    for len := 0 to PW_MAX
      invariant forall j :: 0 <= j < len ==> a[j] == SeqStartOf(j, m)
    {
      var off := len - m + 1;
      a[len] := if off > 0 then off else 0;
    }
    t := a[..];
  }

  class Enumerator {
    /** The compiled slots `css[0 .. css_cnt)`. */
    const slots: seq<seq<byte>>
    /** `cs_pos` of each of the PW_MAX slot buffers. */
    const cursor: array<int>
    /** `word_buf`. */
    const word: array<byte>
    /** `occurs`: how often each byte value occurs in the word. */
    const occurs: array<int>

    ghost predicate Valid() {
      |slots| <= PW_MAX && cursor.Length == PW_MAX && word.Length == PW_MAX
      && occurs.Length == CHARSIZ && cursor != occurs
    }

    /** The occurrence table is the histogram of the first L bytes of the
        word minus that of `base`: with `base` empty, the word's own
        histogram; with `base` the word the pass began from, the table of a
        pass that started from zero. */
    ghost predicate Hist(L: int, base: seq<byte>)
      requires Valid() && 0 <= L <= PW_MAX
      reads word, occurs
    {
      forall b :: 0 <= b < CHARSIZ ==> occurs[b] == Count(word[..L], b) - Count(base, b)
    }

    /** The slot buffers as `add_cs_buf` leaves them (every cursor 0); the
        word buffer, uninitialised in the program, starts out as zeros. */
    constructor (S: seq<seq<byte>>)
      requires WellFormed(S)
      ensures slots == S && Valid()
      ensures fresh(cursor) && fresh(word) && fresh(occurs)
      ensures forall j :: 0 <= j < PW_MAX ==> cursor[j] == 0 && word[j] == 0
      ensures forall b :: 0 <= b < CHARSIZ ==> occurs[b] == 0
    {
      slots := S;
      cursor := new int[PW_MAX](_ => 0);
      word := new byte[PW_MAX](_ => 0);
      occurs := new int[CHARSIZ](_ => 0);
    }

    /** `next`: the odometer step.  Positions from L-1 down roll over (cursor
        1, first byte of the slot) until one whose cursor is below its slot
        size takes the byte at its cursor; that position is returned, or -1
        when every position rolled over.  The occurrence table moves with
        the word: its difference from the word's histogram is kept. */
    method Next(L: int) returns (r: int)
      requires Valid() && 0 <= L <= |slots|
      requires CursorsIn(slots[..L], cursor[..L])
      modifies cursor, word, occurs
      ensures CursorsIn(slots[..L], cursor[..L])
      ensures -1 <= r < L
      ensures r >= 0 ==> old(cursor[r]) < |slots[r]| && cursor[r] == old(cursor[r]) + 1 && word[r] == slots[r][old(cursor[r])]
      ensures forall j :: r < j < L ==> old(cursor[j]) >= |slots[j]| && cursor[j] == 1 && word[j] == Sym(slots[j], 0)
      ensures forall j :: 0 <= j < PW_MAX && (j < r || L <= j) ==> cursor[j] == old(cursor[j]) && word[j] == old(word[j])
      ensures forall b :: 0 <= b < CHARSIZ ==> occurs[b] - Count(word[..L], b) == old(occurs[b] - Count(word[..L], b))
    {
      var i := L - 1;
      while i >= 0
        invariant -1 <= i < L
        invariant forall j :: i < j < L ==> old(cursor[j]) >= |slots[j]| && cursor[j] == 1 && word[j] == Sym(slots[j], 0)
        invariant forall j :: 0 <= j < PW_MAX && (j <= i || L <= j) ==> cursor[j] == old(cursor[j]) && word[j] == old(word[j])
        invariant forall b :: 0 <= b < CHARSIZ ==> occurs[b] - Count(word[..L], b) == old(occurs[b] - Count(word[..L], b))
      {
        if cursor[i] < |slots[i]| {
          Put(L, i, slots[i][cursor[i]]);
          cursor[i] := cursor[i] + 1;
          return i;
        }
        Put(L, i, Sym(slots[i], 0));
        cursor[i] := 1;
        i := i - 1;
      }
      r := -1;
    }

    /** The byte at position i leaves the word and c takes its place; the
        occurrence table counts one less of the old byte and one more of c. */
    method Put(L: int, i: int, c: byte)
      requires Valid() && 0 <= i < L <= PW_MAX
      modifies word, occurs
      ensures word[..] == old(word[..])[i := c]
      ensures forall b :: 0 <= b < CHARSIZ ==> occurs[b] - Count(word[..L], b) == old(occurs[b] - Count(word[..L], b))
    {
      ghost var w0 := word[..L];
      var cOld := word[i];
      occurs[cOld] := occurs[cOld] - 1;
      occurs[c] := occurs[c] + 1;
      word[i] := c;
      assert word[..L] == w0[i := c];
      forall b | 0 <= b < CHARSIZ
        ensures Count(word[..L], b) == Count(w0, b) - (if cOld == b then 1 else 0) + (if c == b then 1 else 0)
      {
        CountUpdate(w0, i, c, b);
      }
    }

    /** Priming for a pass without start-at: every cursor below L at its
        slot size, then cursor 0 reset to 0 (also when L is 0). */
    method Prime(L: int)
      requires Valid() && 0 <= L <= |slots|
      modifies cursor
      ensures cursor[0] == 0
      ensures forall j :: 0 < j < L ==> cursor[j] == |slots[j]|
      ensures forall j :: L <= j < PW_MAX && j != 0 ==> cursor[j] == old(cursor[j])
    {
      for i := 0 to L
        invariant forall j :: 0 <= j < i ==> cursor[j] == |slots[j]|
        invariant forall j :: i <= j < PW_MAX ==> cursor[j] == old(cursor[j])
      {
        cursor[i] := |slots[i]|;
      }
      cursor[0] := 0;
    }

    /** Positioning at a validated start-at word: each position takes the
        start-at byte and its cursor goes one past that byte's index. */
    method Resume(L: int, start: seq<byte>)
      requires Valid() && 0 <= L <= |slots| && InSlots(slots, start)
      modifies cursor, word
      ensures word[..L] == start[..L]
      ensures forall j :: 0 <= j < L ==> cursor[j] == FindPos(slots[j], start[j]) + 1
      ensures forall j :: L <= j < PW_MAX ==> cursor[j] == old(cursor[j]) && word[j] == old(word[j])
    {
      for i := 0 to L
        invariant forall j :: 0 <= j < i ==> cursor[j] == FindPos(slots[j], start[j]) + 1 && word[j] == start[j]
        invariant forall j :: i <= j < PW_MAX ==> cursor[j] == old(cursor[j]) && word[j] == old(word[j])
      {
        cursor[i] := Locate(slots[i], start[i]);
        word[i] := slots[i][cursor[i]];
        cursor[i] := cursor[i] + 1;
      }
    }

    /** The occurrence table set to the histogram of the current word. */
    method CountWord(L: int)
      requires Valid() && 0 <= L <= PW_MAX
      modifies occurs
      ensures Hist(L, [])
    {
      for b := 0 to CHARSIZ
        invariant forall c :: 0 <= c < b ==> occurs[c] == 0
      {
        occurs[b] := 0;
      }
      for i := 0 to L
        invariant forall c :: 0 <= c < CHARSIZ ==> occurs[c] == Count(word[..i], c)
      {
        assert word[..i + 1][..i] == word[..i];
        occurs[word[i]] := occurs[word[i]] + 1;
      }
    }

    /** The occurrence table zeroed, as `main` does at the top of every
        length, while the word buffer keeps what it holds: the table then
        counts the word's bytes minus those of the word it holds now. */
    method ZeroTable(L: int)
      requires Valid() && 0 <= L <= PW_MAX
      modifies occurs
      ensures forall b :: 0 <= b < CHARSIZ ==> occurs[b] == 0
      ensures Hist(L, word[..L])
    {
      for b := 0 to CHARSIZ
        invariant forall c :: 0 <= c < b ==> occurs[c] == 0
      {
        occurs[b] := 0;
      }
    }

    /** The scan of the sequence filter from `seq_start[first]`: the first
        position e at which a run of m equal bytes starting at or after s
        ends, or -1 when there is none. */
    method ScanRun(L: int, s: int, m: int) returns (e: int)
      requires Valid() && 0 <= s < L <= PW_MAX && m >= 2
      ensures e == -1 || s + m - 1 <= e < L
      ensures e >= 0 ==> RunEndsAt(word[..L], m, e)
      ensures forall x :: s + m - 1 <= x < L && (e == -1 || x < e) ==> !RunEndsAt(word[..L], m, x)
    {
      e := -1;
      if L - s >= m {
        var prev := word[s];
        var count := 1;
        var i := s + 1;
        while i < L
          invariant s + 1 <= i <= L
          invariant prev == word[i - 1] && count == RunCount(word[..L], s, i - 1) && count < m
          invariant forall x :: s + m - 1 <= x < i ==> !RunEndsAt(word[..L], m, x)
        {
          var cur := word[i];
          if cur == prev {
            count := count + 1;
          } else {
            count := 1;
            prev := cur;
          }
          RunCountSpec(word[..L], s, i, m);
          if count >= m {
            e := i;
            return;
          }
          i := i + 1;
        }
      }
    }

    /** After a run is found: every cursor from `from` up to L goes to its
        slot size, so the next step carries through those positions. */
    method ForceExhausted(from: int, L: int)
      requires Valid() && 0 <= from <= L <= |slots|
      modifies cursor
      ensures forall j :: from <= j < L ==> cursor[j] == |slots[j]|
      ensures forall j :: 0 <= j < PW_MAX && !(from <= j < L) ==> cursor[j] == old(cursor[j])
    {
      for i := from to L
        invariant forall j :: from <= j < i ==> cursor[j] == |slots[j]|
        invariant forall j :: 0 <= j < PW_MAX && !(from <= j < i) ==> cursor[j] == old(cursor[j])
      {
        cursor[i] := |slots[i]|;
      }
    }

    /** The occurrence filter: some byte of the word has reached `o`
        occurrences according to the table.  The table is read as it is:
        when it counts the word's bytes minus those of `base`, the verdict
        is the test against `base`. */
    method OccurrenceExceeded(L: int, o: int, ghost base: seq<byte>) returns (bad: bool)
      requires Valid() && 0 <= L <= PW_MAX && o != 0
      requires forall b :: 0 <= b < CHARSIZ ==> occurs[b] == Count(word[..L], b) - Count(base, b)
      ensures bad <==> !OccurOkAgainst(word[..L], base, o)
    {
      var i := 0;
      while i < L
        invariant 0 <= i <= L
        invariant forall j :: 0 <= j < i ==> Count(word[..L], word[..L][j]) - Count(base, word[..L][j]) < o
      {
        if occurs[word[i]] >= o {
          break;
        }
        i := i + 1;
      }
      bad := i < L;
    }

    /** The state the loop of a pass keeps between steps (see Stands),
        with the occurrence table equal to the word's histogram. */
    ghost predicate Frontier(L: int, front: int, m: int, base: seq<byte>)
      requires Valid() && 0 <= L <= |slots|
      reads cursor, word, occurs
    {
      Hist(L, base) && Stands(slots[..L], cursor[..L], word[..L], front, m)
    }

    /** The set-up of a pass: positioned at the start-at word, or primed;
        either way the odometer stands one rank before the first rank the
        loop reaches.  Then the occurrence table: with `recount` it is set
        to the word's histogram (base empty); without, it is only zeroed, as
        `main` does, so it counts the word's bytes minus those of the word
        the set-up left in the buffer (base). */
    method Begin(L: int, start: Option<seq<byte>>, m: int, recount: bool) returns (ghost front: int, ghost base: seq<byte>)
      requires Valid() && WellFormed(slots) && 0 <= L <= |slots| && (m == 0 || m >= 2)
      requires start.Some? ==> InSlots(slots, start.value) && m == 0
      modifies cursor, word, occurs
      ensures Frontier(L, front, m, base)
      ensures recount ==> base == []
      ensures !recount ==> base == word[..L]
      ensures start.None? ==> word[..L] == old(word[..L])
      ensures start.Some? ==> CursorRank(slots[..L], cursor[..L]) == RankAt(slots, L, start.value)
      ensures start.None? ==> CursorRank(slots[..L], cursor[..L]) == FirstRank(slots[..L]) - 1
      ensures start.Some? ==> word[..L] == start.value[..L]
      ensures forall j :: L <= j < PW_MAX ==> word[j] == old(word[j])
      ensures forall j :: L <= j < PW_MAX && j != 0 ==> cursor[j] == old(cursor[j])
    {
      ghost var T := slots[..L];
      if start.Some? {
        Resume(L, start.value);
        InSlotsPrefix(slots, start.value, L);
        ResumedRank(T, cursor[..L], start.value[..L]);
        front := L;
      } else {
        Prime(L);
        PrimedRank(T, cursor[..L]);
        front := 0;
      }
      if recount {
        CountWord(L);
        base := [];
      } else {
        ZeroTable(L);
        base := word[..L];
      }
    }

    /** The rank the odometer stands at over the first L slots. */
    ghost function Rank(L: int): int
      requires Valid() && 0 <= L <= |slots|
      reads cursor
    {
      CursorRank(slots[..L], cursor[..L])
    }

    /** `next` seen from the loop: from a standing state, either every
        position rolled over, which happens exactly from the last rank, or
        the odometer moved to the next rank, every position holds the byte
        its cursor names and the bytes before `first` are unchanged, so they
        still pass the sequence filter. */
    method Step(L: int, m: int, ghost front: int, ghost base: seq<byte>) returns (first: int)
      requires Valid() && 0 <= L <= |slots|
      requires Frontier(L, front, m, base)
      modifies cursor, word, occurs
      ensures Hist(L, base) && -1 <= first < L && CursorsIn(slots[..L], cursor[..L])
      ensures first == -1 ==> old(Rank(L)) == Total(slots[..L]) - 1
      ensures first == -1 ==> forall j :: 0 <= j < L ==> cursor[j] == 1 && word[j] == Sym(slots[j], 0)
      ensures first >= 0 ==> Rank(L) == old(Rank(L)) + 1 && 0 <= Rank(L) < Total(slots[..L])
      ensures first >= 0 ==> word[..L] == WordAt(slots[..L], Rank(L))
      ensures first >= 0 ==> forall j :: 0 <= j < L ==> Consistent(slots[..L], cursor[..L], word[..L], j)
      ensures first >= 0 && m != 0 ==> SeqOk(word[..first], m)
      ensures forall j :: L <= j < PW_MAX ==> cursor[j] == old(cursor[j]) && word[j] == old(word[j])
    {
      ghost var T := slots[..L];
      ghost var c0, w0 := cursor[..L], word[..L];
      first := Next(L);
      if first == -1 {
        ExhaustedRank(T, c0);
        return;
      }
      StepState(T, c0, w0, cursor[..L], word[..L], first, front, m);
      assert word[..first] == word[..L][..first];
    }

    /** The sequence filter of one turn, on a word the odometer has just
        reached at rank r: the scan from `seq_start[first]` for a run of m
        equal bytes.  On a run ending at e it forces the positions after e to
        exhausted, so the odometer now stands at the last rank sharing the
        run's prefix, and none of the ranks skipped passes the filter.  With
        no run the cursors are untouched and the word passes the filter. */
    method SeqSkip(L: int, first: int, m: int, o: int, table: seq<int>, ghost base: seq<byte>, ghost lo: int, ghost r: int)
      returns (e: int)
      requires Valid() && 0 <= first < L <= |slots| && m >= 2
      requires |table| == PW_MAX && forall len :: 0 <= len < PW_MAX ==> table[len] == SeqStartOf(len, m)
      requires Hist(L, base) && CursorsIn(slots[..L], cursor[..L])
      requires r == Rank(L) && 0 <= lo <= r < Total(slots[..L])
      requires forall j :: 0 <= j < L ==> Consistent(slots[..L], cursor[..L], word[..L], j)
      requires SeqOk(word[..first], m)
      modifies cursor
      ensures -1 <= e < L
      ensures e == -1 ==> SeqOk(word[..L], m) && cursor[..L] == old(cursor[..L])
      ensures e >= 0 ==> Frontier(L, e, m, base) && r <= Rank(L) < Total(slots[..L])
      ensures e >= 0 ==> Accepted(slots[..L], lo, Rank(L) + 1, m, o, base) == Accepted(slots[..L], lo, r, m, o, base)
      ensures forall j :: 0 <= j < PW_MAX && !(first < j < L) ==> cursor[j] == old(cursor[j])
    {
      ghost var T := slots[..L];
      ghost var c1, w1 := cursor[..L], word[..L];
      var s := table[first];
      assert s == SeqStartOf(first, m);
      assert w1[..first] == word[..first];
      e := ScanRun(L, s, m);
      assert word[..L] == w1;
      ScanVerdict(w1, first, m, e);
      if e >= 0 {
        ForceExhausted(e + 1, L);
        ghost var c2 := cursor[..L];
        assert c2[..e + 1] == c1[..e + 1];
        SkipForced(T, c1, c2, w1, e, lo, m, o, base);
        ForcedStands(T, c1, c2, w1, e, m);
      }
    }

    /** The filters of one turn, on a word the odometer has just reached at
        rank r: the sequence filter (`SeqSkip`), then, when it found no run,
        the occurrence filter.  Either way the kept words up to the new rank
        are those before r plus the word at r when `keep` holds. */
    method Filter(L: int, first: int, m: int, o: int, table: seq<int>, ghost base: seq<byte>, ghost lo: int, ghost r: int)
      returns (keep: bool, ghost front': int)
      requires Valid() && 0 <= first < L <= |slots| && (m == 0 || m >= 2)
      requires |table| == PW_MAX && forall len :: 0 <= len < PW_MAX ==> table[len] == SeqStartOf(len, m)
      requires Hist(L, base) && CursorsIn(slots[..L], cursor[..L])
      requires r == Rank(L) && 0 <= lo <= r < Total(slots[..L])
      requires word[..L] == WordAt(slots[..L], r)
      requires forall j :: 0 <= j < L ==> Consistent(slots[..L], cursor[..L], word[..L], j)
      requires m != 0 ==> SeqOk(word[..first], m)
      modifies cursor
      ensures Frontier(L, front', m, base)
      ensures r <= Rank(L) < Total(slots[..L])
      ensures keep ==> Accepted(slots[..L], lo, Rank(L) + 1, m, o, base) == Accepted(slots[..L], lo, r, m, o, base) + [word[..L]]
      ensures !keep ==> Accepted(slots[..L], lo, Rank(L) + 1, m, o, base) == Accepted(slots[..L], lo, r, m, o, base)
      ensures keep ==> Rank(L) == r
      ensures m == 0 && o == 0 ==> keep
      ensures forall j :: 0 <= j < PW_MAX && !(first < j < L) ==> cursor[j] == old(cursor[j])
    {
      ghost var T := slots[..L];
      ghost var c1, w1 := cursor[..L], word[..L];
      keep := false;
      front' := L;
      if m != 0 {
        var e := SeqSkip(L, first, m, o, table, base, lo, r);
        if e >= 0 {
          front' := e;
          return;
        }
      }
      assert w1[..L] == w1 && cursor[..L] == c1;
      assert Stands(T, c1, w1, L, m);
      AcceptedNext(T, lo, r, m, o, base);
      if o != 0 {
        var bad := OccurrenceExceeded(L, o, base);
        if bad {
          assert !Keep(w1, m, o, base);
          return;
        }
      }
      assert Keep(w1, m, o, base);
      keep := true;
    }

    /** One turn of the loop before emission: `next`, then the filters.
        `first` is -1 when the odometer rolled over from the last rank;
        otherwise the odometer has moved forward, and the kept words up to its
        new rank are those up to the old one plus the word it stands at when
        `keep` holds. */
    method Advance(L: int, m: int, o: int, table: seq<int>, ghost base: seq<byte>, ghost lo: int, ghost front: int)
      returns (first: int, keep: bool, ghost front': int)
      requires Valid() && 0 <= L <= |slots| && (m == 0 || m >= 2)
      requires |table| == PW_MAX && forall len :: 0 <= len < PW_MAX ==> table[len] == SeqStartOf(len, m)
      requires Frontier(L, front, m, base)
      requires 0 <= lo <= Rank(L) + 1
      modifies cursor, word, occurs
      ensures Hist(L, base) && -1 <= first < L
      ensures first >= 0 ==> Frontier(L, front', m, base)
      ensures first == -1 ==> old(Rank(L)) == Total(slots[..L]) - 1
      ensures first == -1 ==> forall j :: 0 <= j < L ==> cursor[j] == 1 && word[j] == Sym(slots[j], 0)
      ensures first >= 0 ==> old(Rank(L)) < Rank(L) < Total(slots[..L])
      ensures first >= 0 && keep ==> Accepted(slots[..L], lo, Rank(L) + 1, m, o, base) == Accepted(slots[..L], lo, old(Rank(L)) + 1, m, o, base) + [word[..L]]
      ensures first >= 0 && !keep ==> Accepted(slots[..L], lo, Rank(L) + 1, m, o, base) == Accepted(slots[..L], lo, old(Rank(L)) + 1, m, o, base)
      ensures keep ==> first >= 0 && Rank(L) == old(Rank(L)) + 1
      ensures keep ==> word[..L] == WordAt(slots[..L], Rank(L))
      ensures first >= 0 && m == 0 && o == 0 ==> keep
      ensures forall j :: L <= j < PW_MAX ==> cursor[j] == old(cursor[j]) && word[j] == old(word[j])
    {
      keep := false;
      front' := front;
      ghost var r := Rank(L) + 1;
      first := Step(L, m, front, base);
      if first >= 0 {
        ghost var w1 := word[..L];
        keep, front' := Filter(L, first, m, o, table, base, lo, r);
        assert word[..L] == w1;
      }
    }

    /** The stop-at test after an emitted word: the bytes from `first` on
        are compared first (those before it did not change since the last
        comparison), then the whole word.  The word the odometer stands at
        is the stop-at word exactly at the stop-at rank. */
    method AtStop(L: int, first: int, stop: seq<byte>) returns (hit: bool)
      requires Valid() && WellFormed(slots) && 0 <= first < L <= |slots| && |stop| == |slots| && InSlots(slots, stop)
      requires 0 <= Rank(L) < Total(slots[..L])
      requires word[..L] == WordAt(slots[..L], Rank(L))
      ensures hit <==> Rank(L) == RankAt(slots, L, stop)
      ensures hit <==> word[..L] == stop[..L]
    {
      StopRank(slots, L, stop, Rank(L));
      hit := false;
      if word[first..L] == stop[first..L] {
        if word[..L] == stop[..L] {
          hit := true;
        }
      }
      assert word[..L] == stop[..L] ==> word[first..L] == stop[first..L] by {
        assert word[first..L] == word[..L][first..] && stop[first..L] == stop[..L][first..];
      }
    }

    /** The loop of a pass between two turns: the odometer stands at rank
        k, and the stop-at rank, when given, lies outside lo .. k (the ranks
        the loop has reached). */
    ghost predicate Going(L: int, stop: Option<seq<byte>>, m: int, base: seq<byte>, lo: int, front: int, k: int)
      requires Valid() && WellFormed(slots) && 0 <= L <= |slots|
      requires stop.Some? ==> |stop.value| == |slots| && InSlots(slots, stop.value)
      reads cursor, word, occurs
    {
      Frontier(L, front, m, base) && k == Rank(L) && (stop.Some? ==> !(lo <= RankAt(slots, L, stop.value) <= k))
    }

    /** How the loop of a pass ends at rank k: either (not halted) after the
        last rank, with every position rolled over and no stop-at rank
        passed, or (halted) at the stop-at rank, right after emitting the
        stop-at word.  Either way the occurrence table is the word's
        histogram. */
    ghost predicate Finished(L: int, stop: Option<seq<byte>>, base: seq<byte>, lo: int, k: int, halted: bool)
      requires Valid() && WellFormed(slots) && 0 <= L <= |slots|
      requires stop.Some? ==> |stop.value| == |slots| && InSlots(slots, stop.value)
      reads cursor, word, occurs
    {
      && Hist(L, base)
      && (halted ==> stop.Some? && k == RankAt(slots, L, stop.value) && lo <= k && word[..L] == stop.value[..L])
      && (!halted ==> k == Total(slots[..L]) - 1 && (stop.Some? ==> !(lo <= RankAt(slots, L, stop.value) <= k)))
      && (!halted ==> forall j :: 0 <= j < L ==> cursor[j] == 1 && word[j] == Sym(slots[j], 0))
    }

    /** One turn of the loop: `Advance`, then the emission of a kept word
        and the stop-at test.  The output stays the kept words of the ranks
        from lo up to the rank k' reached; the loop goes on from a new rank,
        or is done. */
    method Turn(L: int, stop: Option<seq<byte>>, m: int, o: int, table: seq<int>, ghost base: seq<byte>, ghost lo: int, ghost front: int,
                out: seq<seq<byte>>, ghost k: int)
      returns (done: bool, hit: bool, out': seq<seq<byte>>, ghost front': int, ghost k': int)
      requires Valid() && WellFormed(slots) && 0 <= L <= |slots| && (m == 0 || m >= 2)
      requires stop.Some? ==> |stop.value| == |slots| && InSlots(slots, stop.value) && m == 0 && o == 0
      requires |table| == PW_MAX && forall len :: 0 <= len < PW_MAX ==> table[len] == SeqStartOf(len, m)
      requires Going(L, stop, m, base, lo, front, k) && 0 <= lo && lo - 1 <= k < Total(slots[..L])
      requires out == Accepted(slots[..L], lo, k + 1, m, o, base)
      modifies cursor, word, occurs
      ensures k <= k' < Total(slots[..L]) && out' == Accepted(slots[..L], lo, k' + 1, m, o, base)
      ensures !done ==> Going(L, stop, m, base, lo, front', k') && k < k'
      ensures done ==> Finished(L, stop, base, lo, k', hit)
      ensures forall j :: L <= j < PW_MAX ==> cursor[j] == old(cursor[j]) && word[j] == old(word[j])
    {
      var first, keep;
      first, keep, front' := Advance(L, m, o, table, base, lo, front);
      k' := if first >= 0 then Rank(L) else k;
      out' := out;
      hit := false;
      if first >= 0 && keep {
        out' := out + [word[..L]];
        if stop.Some? {
          hit := AtStop(L, first, stop.value);
        }
      }
      done := first == -1 || hit;
    }

    /** The loop of a length pass, from the rank before lo: the kept words
        of the ranks it reaches, in rank order, until it is finished. */
    method Drive(L: int, stop: Option<seq<byte>>, m: int, o: int, table: seq<int>, ghost base: seq<byte>, ghost lo: int, ghost front0: int)
      returns (out: seq<seq<byte>>, halted: bool, ghost k: int)
      requires Valid() && WellFormed(slots) && 0 <= L <= |slots| && (m == 0 || m >= 2)
      requires stop.Some? ==> |stop.value| == |slots| && InSlots(slots, stop.value) && m == 0 && o == 0
      requires |table| == PW_MAX && forall len :: 0 <= len < PW_MAX ==> table[len] == SeqStartOf(len, m)
      requires Frontier(L, front0, m, base) && 0 <= lo <= Total(slots[..L]) && Rank(L) == lo - 1
      modifies cursor, word, occurs
      ensures lo - 1 <= k < Total(slots[..L]) && out == Accepted(slots[..L], lo, k + 1, m, o, base)
      ensures Finished(L, stop, base, lo, k, halted)
      ensures forall j :: L <= j < PW_MAX ==> cursor[j] == old(cursor[j]) && word[j] == old(word[j])
    {
      out := [];
      k := Rank(L);
      halted := false;
      ghost var front := front0;
      var done := false;
      while !done
        invariant lo - 1 <= k < Total(slots[..L]) && out == Accepted(slots[..L], lo, k + 1, m, o, base)
        invariant !done ==> Going(L, stop, m, base, lo, front, k)
        invariant done ==> Finished(L, stop, base, lo, k, halted)
        invariant forall j :: L <= j < PW_MAX ==> cursor[j] == old(cursor[j]) && word[j] == old(word[j])
        decreases Total(slots[..L]) - k, !done
      {
        done, halted, out, front, k := Turn(L, stop, m, o, table, base, lo, front, out, k);
      }
    }

    /** One length pass of the loop in `main`, over the first L slots: the
        start-at word when given, then every word the odometer reaches that
        passes the filters, in rank order, up to the stop-at word when the
        pass reaches it (which ends this pass only).  The pass leaves the
        odometer rolled over, or standing at the stop-at word.  With
        `recount` the occurrence filter counts each word's own bytes; without,
        the table starts from zero as in `main`, and the filter counts against
        the word the buffer held after the set-up (base): the stale buffer
        left by the previous pass, or the start-at word. */
    method RunLength(L: int, start: Option<seq<byte>>, stop: Option<seq<byte>>, m: int, o: int, table: seq<int>, recount: bool)
      returns (out: seq<seq<byte>>, halted: bool, ghost base: seq<byte>)
      requires Valid() && Admissible(slots, L, start, stop, m, o)
      requires |table| == PW_MAX && forall len :: 0 <= len < PW_MAX ==> table[len] == SeqStartOf(len, m)
      modifies cursor, word, occurs
      ensures recount ==> base == []
      ensures !recount && start.Some? ==> base == start.value[..L]
      ensures !recount && start.None? ==> base == old(word[..L])
      ensures out == PassOutput(slots, L, start, stop, m, o, base)
      ensures halted == Halts(slots, L, start, stop, m, o)
      ensures Hist(L, base)
      ensures !halted ==> forall j :: 0 <= j < L ==> cursor[j] == 1 && word[j] == Sym(slots[j], 0)
      ensures halted ==> word[..L] == stop.value[..L]
      ensures forall j :: L <= j < PW_MAX ==> word[j] == old(word[j])
      ensures forall j :: L <= j < PW_MAX && j != 0 ==> cursor[j] == old(cursor[j])
    {
      ghost var lo := LoopStart(slots, L, start, stop, m, o);
      ghost var front;
      front, base := Begin(L, start, m, recount);
      var head := if start.Some? then [word[..L]] else [];
      assert head == if start.Some? then [start.value[..L]] else [];
      var words;
      ghost var k;
      words, halted, k := Drive(L, stop, m, o, table, base, lo, front);
      out := head + words;
      PassFinish(slots, L, start, stop, m, o, base, k, halted, words);
    }

    /** The passes of lengths 1 and 2 as `main` runs them, the table only
        zeroed at each length: the second pass counts against the word the
        first one left, whose head is the first byte of slot 0. */
    method StalePasses(o: int, table: seq<int>) returns (one: seq<seq<byte>>, two: seq<seq<byte>>, ghost left: seq<byte>)
      requires Valid() && Options(slots, None, None, 0, o) && |slots| >= 2
      requires |table| == PW_MAX && forall len :: 0 <= len < PW_MAX ==> table[len] == SeqStartOf(len, 0)
      modifies cursor, word, occurs
      ensures |left| == 2 && left[0] == Sym(slots[0], 0)
      ensures one == PassOutput(slots, 1, None, None, 0, o, old(word[..1]))
      ensures two == PassOutput(slots, 2, None, None, 0, o, left)
    {
      var halted;
      ghost var base;
      one, halted, base := RunLength(1, None, None, 0, o, table, false);
      left := word[..2];
      two, halted, base := RunLength(2, None, None, 0, o, table, false);
    }

    /** One pass of the run over lengths: the pass at len appended to the
        output, and stop-at dropped when the pass reached it.  The words
        emitted so far followed by the run from the next length are still
        the whole run. */
    method RunStep(len: int, hi: int, from: Option<seq<byte>>, until: Option<seq<byte>>, m: int, o: int, table: seq<int>,
                   out: seq<seq<byte>>, ghost total: seq<seq<byte>>)
      returns (out': seq<seq<byte>>, until': Option<seq<byte>>)
      requires Valid() && Options(slots, from, until, m, o) && 0 <= len <= hi <= |slots|
      requires |table| == PW_MAX && forall n :: 0 <= n < PW_MAX ==> table[n] == SeqStartOf(n, m)
      requires Accounted(slots, out, len, hi, from, until, m, o, total)
      modifies cursor, word, occurs
      ensures Options(slots, None, until', m, o)
      ensures Accounted(slots, out', len + 1, hi, None, until', m, o, total)
    {
      var words, halted, base := RunLength(len, from, until, m, o, table, true);
      until' := if halted then None else until;
      out' := out + words;
    }

    /** The run over lengths lo .. hi: one pass per length, start-at for the
        first pass only, stop-at dropped once a pass reaches it. */
    method Run(lo: int, hi: int, start: Option<seq<byte>>, stop: Option<seq<byte>>, m: int, o: int) returns (out: seq<seq<byte>>)
      requires Valid() && Options(slots, start, stop, m, o) && 0 <= lo && hi <= |slots|
      modifies cursor, word, occurs
      ensures out == RunOutput(slots, lo, hi, start, stop, m, o)
    {
      var table := SeqStartTable(m);
      ghost var total := RunOutput(slots, lo, hi, start, stop, m, o);
      out := [];
      RunAccounted(slots, lo, hi, start, stop, m, o);
      var from, until := start, stop;
      var len := lo;
      while len <= hi
        invariant lo <= len && (lo <= hi ==> len <= hi + 1)
        invariant Options(slots, from, until, m, o)
        invariant Accounted(slots, out, len, hi, from, until, m, o, total)
      {
        out, until := RunStep(len, hi, from, until, m, o, table, out, total);
        from := None;
        len := len + 1;
      }
    }
  }

  /** `-i 1:2 -r 2 ?d?d` run as `main` runs it, the occurrence table only
      zeroed at each length: the pass of length 1 leaves '0' at the head of
      the word buffer, and the pass of length 2 then emits "00". */
  method StaleOccurrenceRun() returns (out: seq<seq<byte>>)
    ensures [0x30, 0x30] in out
  {
    DigitSlots();
    var e := new Enumerator([Charsets.Digits(), Charsets.Digits()]);
    var table := SeqStartTable(0);
    var one, two, left := e.StalePasses(2, table);
    out := one + two;
    assert e.slots[0] == Charsets.Digits();
    assert left[0] == 0x30;
    StalePassEmits(e.slots, left);
  }
}
