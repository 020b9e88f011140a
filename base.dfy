/** Shared vocabulary of the mask processor model: bytes, the fixed capacities of
    the C program, the error kinds it reports, and small facts about sequences. */
module Base {

  /** A C `char` read as an unsigned byte value. */
  type byte = b: int | 0 <= b < 256

  /** Number of byte values; the size of a charset buffer (`CHARSIZ`). */
  const CHARSIZ: int := 0x100

  /** Maximum number of mask positions (`PW_MAX`). */
  const PW_MAX: int := 0x100

  /** The fatal conditions the program reports before enumerating. */
  datatype Error =
    | SyntaxError            // unknown selector after `?`, or `?` at the end
    | LengthMismatch         // start-at / stop-at length differs from the slot count
    | NotFound(pos: nat)     // start-at / stop-at byte at `pos` is not in its slot

  datatype Result<T> = Ok(value: T) | Err(error: Error)

  datatype Option<T> = None | Some(value: T)

  /** No byte value occurs twice. */
  predicate NoDup(s: seq<byte>) {
    forall i, j :: 0 <= i < j < |s| ==> s[i] != s[j]
  }

  /** The bytes lo, lo+1, ..., hi-1 in increasing order. */
  function Range(lo: int, hi: int): (r: seq<byte>)
    requires 0 <= lo <= hi <= 256
    ensures |r| == hi - lo
    ensures forall i :: 0 <= i < |r| ==> r[i] == lo + i
  {
    seq(hi - lo, i requires 0 <= i < hi - lo => lo + i)
  }

  /** A byte is in Range(lo, hi) exactly when it lies between the bounds. */
  lemma RangeMembers(lo: int, hi: int)
    requires 0 <= lo <= hi <= 256
    ensures forall c: byte :: c in Range(lo, hi) <==> lo <= c < hi
  {
    var r := Range(lo, hi);
    forall c: byte | lo <= c < hi
      ensures c in r
    {
      assert r[c - lo] == c;
    }
  }

  /** A range of bytes has no repetitions. */
  lemma RangeNoDup(lo: int, hi: int)
    requires 0 <= lo <= hi <= 256
    ensures NoDup(Range(lo, hi))
  {
  }

  /** Number of `true` entries; used to count the bytes marked in a
      256-entry "seen" table. */
  function CountTrue(m: seq<bool>): (r: nat)
    ensures r <= |m|
  {
    if |m| == 0 then 0 else CountTrue(m[..|m| - 1]) + (if m[|m| - 1] then 1 else 0)
  }

  /** Marking one more entry raises the count by one; an unmarked entry leaves
      room below the table size. */
  lemma {:induction false} CountTrueMark(m: seq<bool>, u: int)
    requires 0 <= u < |m| && !m[u]
    ensures CountTrue(m[u := true]) == CountTrue(m) + 1
    ensures CountTrue(m) < |m|
  {
    var n := |m|;
    if u < n - 1 {
      CountTrueMark(m[..n - 1], u);
      assert m[u := true][..n - 1] == m[..n - 1][u := true];
    } else {
      assert m[u := true][..n - 1] == m[..n - 1];
    }
  }

  /** The 256-entry table of which byte values occur in `r`. */
  function Marks(r: seq<byte>): (m: seq<bool>)
    ensures |m| == CHARSIZ
    ensures forall b :: 0 <= b < CHARSIZ ==> (m[b] <==> b in r)
  {
    seq(CHARSIZ, b requires 0 <= b < CHARSIZ => b in r)
  }

  /** A duplicate-free byte sequence marks exactly |r| entries, so it has at
      most 256 elements. */
  lemma {:induction false} NoDupBound(r: seq<byte>)
    requires NoDup(r)
    ensures CountTrue(Marks(r)) == |r|
    ensures |r| <= CHARSIZ
  {
    if |r| == 0 {
      assert Marks(r) == seq(CHARSIZ, b => false);
      AllFalse(CHARSIZ);
    } else {
      var p := r[..|r| - 1];
      var x := r[|r| - 1];
      NoDupBound(p);
      assert x !in p;
      assert Marks(r) == Marks(p)[x := true];
      CountTrueMark(Marks(p), x);
    }
  }

  lemma {:induction false} AllFalse(n: nat)
    ensures CountTrue(seq(n, b => false)) == 0
  {
    if n > 0 {
      AllFalse(n - 1);
      assert seq(n, b => false)[..n - 1] == seq(n - 1, b => false);
    }
  }

  lemma AppendAssoc<T>(a: seq<T>, b: seq<T>, c: seq<T>)
    ensures a + (b + c) == (a + b) + c
  {
  }
}
