/**
 * The byte-range planner inside `DownloadManager.download_file`: the chunk size,
 * the inclusive end byte of each request, and the chain of `n` ranges the loop
 * walks through.
 */
module RangePlan {

  /** An inclusive byte range `[first, last]`, as written in `bytes=first-last`.
      `last < first` can happen; such a range selects no byte. */
  datatype ByteRange = ByteRange(first: int, last: int)

  predicate IsEmpty(r: ByteRange) {
    r.last < r.first
  }

  predicate Contains(r: ByteRange, b: int) {
    r.first <= b <= r.last
  }

  /** Python's built-in `min` on two integers. */
  function Min(a: int, b: int): (m: int) {
    if a <= b then a else b
  }

  /** `(total_size + n - 1) // n`. Both operands are non-negative, so Python's
      floor division and Dafny's Euclidean division agree. The result is the
      ceiling of `total / n`: the least `c` with `total <= c * n`. */
  function ChunkSize(total: nat, n: nat): (c: nat)
    requires n >= 1
    ensures (c - 1) * n < total <= c * n
  {
    var q := (total + n - 1) / n;
    var r := (total + n - 1) % n;
    assert total + n - 1 == q * n + r && 0 <= r < n;
    assert (q - 1) * n == q * n - n;
    q
  }

  /** `min(start_byte + chunk_size - 1, total_size - 1)`: a round ends at the
      last byte of its chunk or at the last byte of the resource, whichever
      comes first. */
  function EndByte(start: int, chunk: nat, total: nat): (e: int)
    ensures e <= start + chunk - 1 && e <= total - 1
  {
    Min(start + chunk - 1, total - 1)
  }

  /** The ranges the loop requests in its remaining `k` rounds when the next
      round starts at `start`: each round ends at `EndByte` and the next one
      starts one byte later. */
  function PlanFrom(start: int, chunk: nat, total: nat, k: nat): (rs: seq<ByteRange>)
    ensures |rs| == k
    ensures k > 0 ==> rs[0].first == start
    decreases k
  {
    if k == 0 then []
    else
      var e := EndByte(start, chunk, total);
      [ByteRange(start, e)] + PlanFrom(e + 1, chunk, total, k - 1)
  }

  /** The `n` ranges `download_file` requests for a resource of `total` bytes. */
  function Plan(total: nat, n: nat): (rs: seq<ByteRange>)
    requires n >= 1
    ensures |rs| == n
  {
    PlanFrom(0, ChunkSize(total, n), total, n)
  }

  /** Byte `min(i * c, total)`: where round `i` of a plan with chunk size `c`
      starts, and one past where round `i - 1` ends. */
  function Boundary(c: nat, total: nat, i: nat): (b: nat)
    ensures b <= total
  {
    MulMono(0, i, c);
    Min(i * c, total)
  }

  lemma BoundaryStep(c: nat, total: nat, j: nat)
    ensures EndByte(Boundary(c, total, j), c, total) + 1 == Boundary(c, total, j + 1)
  {
    assert (j + 1) * c == j * c + c;
  }

  /** The boundary after the last round of a plan is the end of the resource. */
  lemma BoundaryAtEnd(total: nat, n: nat)
    requires n >= 1
    ensures Boundary(ChunkSize(total, n), total, n) == total
  {
    var c := ChunkSize(total, n);
    assert n * c == c * n;
  }

  lemma BoundaryMono(c: nat, total: nat, i: nat, k: nat)
    requires i <= k
    ensures Boundary(c, total, i) <= Boundary(c, total, k)
  {
    MulMono(i, k, c);
  }

  lemma MulMono(a: nat, b: nat, c: nat)
    requires a <= b
    ensures a * c <= b * c
  {
  }

  /** Round `i` of a walk whose first round is round `j` of the whole plan. */
  lemma {:induction false} PlanFromAt(c: nat, total: nat, j: nat, k: nat, i: nat)
    requires i < k
    ensures PlanFrom(Boundary(c, total, j), c, total, k)[i]
         == ByteRange(Boundary(c, total, j + i), Boundary(c, total, j + i + 1) - 1)
    decreases i
  {
    BoundaryStep(c, total, j);
    if i > 0 {
      PlanFromAt(c, total, j + 1, k - 1, i - 1);
      assert (j + 1) + (i - 1) == j + i;
    }
  }

  /** Closed form of round `i` of the plan, with `c` the chunk size:
      `[min(i*c, total), min((i+1)*c, total) - 1]`. */
  lemma PlanAt(total: nat, n: nat, i: nat)
    requires n >= 1 && i < n
    ensures var c := ChunkSize(total, n);
            Plan(total, n)[i] == ByteRange(Boundary(c, total, i), Boundary(c, total, i + 1) - 1)
  {
    PlanFromAt(ChunkSize(total, n), total, 0, n, i);
  }

  /** The plan starts at byte 0, each range starts one byte past the end of the
      one before it, no range ends past the last byte of the resource, and the
      last range ends exactly there. */
  lemma PlanChained(total: nat, n: nat)
    requires n >= 1
    ensures var rs := Plan(total, n);
            && rs[0].first == 0
            && (forall i :: 0 < i < n ==> rs[i].first == rs[i - 1].last + 1)
            && (forall i :: 0 <= i < n ==> 0 <= rs[i].first <= total && rs[i].last <= total - 1)
            && rs[n - 1].last == total - 1
  {
    var rs, c := Plan(total, n), ChunkSize(total, n);
    forall i | 0 <= i < n
      ensures 0 <= rs[i].first <= total && rs[i].last <= total - 1
      ensures i > 0 ==> rs[i].first == rs[i - 1].last + 1
    {
      PlanAt(total, n, i);
      if i > 0 {
        PlanAt(total, n, i - 1);
      }
    }
    PlanAt(total, n, n - 1);
    assert Boundary(c, total, n) == total;
  }

  /** A resource of unknown length (`total_size == 0`) gets `n` copies of the
      range `[0, -1]`. */
  lemma PlanOfUnknownSize(n: nat, i: nat)
    requires n >= 1 && i < n
    ensures ChunkSize(0, n) == 0
    ensures Plan(0, n)[i] == ByteRange(0, -1)
  {
    var c := ChunkSize(0, n);
    if c > 0 {
      MulMono(0, c - 1, n);
      assert false;
    }
    PlanAt(0, n, i);
  }

  /** Byte `b` lies in some range of `rs`. */
  predicate Covered(rs: seq<ByteRange>, b: int) {
    exists i :: 0 <= i < |rs| && Contains(rs[i], b)
  }

  lemma DivBounds(x: nat, c: nat)
    requires c >= 1
    ensures (x / c) * c <= x < (x / c) * c + c
  {
  }

  /** For a resource of known size the ranges partition `[0, total - 1]`:
      every byte they hold is a byte of the resource, every byte of the
      resource is in some range (PlanCovers), and in no more than one
      (PlanDisjoint). */
  lemma PlanWithinResource(total: nat, n: nat)
    requires n >= 1
    ensures var rs := Plan(total, n);
            forall i, b :: 0 <= i < n && Contains(rs[i], b) ==> 0 <= b < total
  {
    PlanChained(total, n);
  }

  /** A chain of ranges, each starting one past the end of the one before,
      covers every byte from the first range's first byte to the last range's
      last byte. */
  lemma {:induction false} ChainCovers(rs: seq<ByteRange>, b: int)
    requires |rs| > 0 && rs[0].first <= b <= rs[|rs| - 1].last
    requires forall i :: 0 < i < |rs| ==> rs[i].first == rs[i - 1].last + 1
    ensures Covered(rs, b)
  {
    var m := |rs| - 1;
    if m > 0 && b <= rs[m - 1].last {
      ChainCovers(rs[..m], b);
      var i :| 0 <= i < m && Contains(rs[..m][i], b);
      assert Contains(rs[i], b);
    } else {
      assert Contains(rs[m], b);
    }
  }

  lemma PlanCovers(total: nat, n: nat)
    requires n >= 1
    ensures forall b :: 0 <= b < total ==> Covered(Plan(total, n), b)
  {
    PlanChained(total, n);
    forall b | 0 <= b < total
      ensures Covered(Plan(total, n), b)
    {
      ChainCovers(Plan(total, n), b);
    }
  }

  lemma PlanDisjoint(total: nat, n: nat)
    requires n >= 1
    ensures var rs := Plan(total, n);
            forall i, j, b :: 0 <= i < n && 0 <= j < n && Contains(rs[i], b) && Contains(rs[j], b) ==> i == j
  {
    var rs, c := Plan(total, n), ChunkSize(total, n);
    forall i, j, b | 0 <= i < n && 0 <= j < n && Contains(rs[i], b) && Contains(rs[j], b)
      ensures i == j
    {
      if i != j {
        var lo, hi := if i < j then i else j, if i < j then j else i;
        PlanAt(total, n, lo);
        PlanAt(total, n, hi);
        BoundaryMono(c, total, lo + 1, hi);
        assert false;
      }
    }
  }

  lemma RoundUpToLast(total: nat, n: nat, j: nat, i: nat)
    requires n >= 1 && i <= j < n && j * ChunkSize(total, n) < total
    ensures var rs, c := Plan(total, n), ChunkSize(total, n);
            !IsEmpty(rs[i]) && (i < j ==> rs[i].last - rs[i].first + 1 == c)
  {
    var c := ChunkSize(total, n);
    PlanAt(total, n, i);
    MulMono(i, j, c);
    assert (i + 1) * c == i * c + c;
    if i < j {
      MulMono(i + 1, j, c);
    }
  }

  lemma RoundPastLast(total: nat, n: nat, j: nat, i: nat)
    requires n >= 1 && j < i < n && total <= (j + 1) * ChunkSize(total, n)
    ensures Plan(total, n)[i] == ByteRange(total, total - 1)
  {
    var c := ChunkSize(total, n);
    PlanAt(total, n, i);
    MulMono(j + 1, i, c);
    MulMono(j + 1, i + 1, c);
  }

  /** With a known size, the last byte falls in round `(total - 1) / c`, which
      is one of the `n` rounds. */
  lemma LastRound(total: nat, n: nat)
    requires n >= 1 && total > 0
    ensures var c := ChunkSize(total, n);
            var j := (total - 1) / c;
            c >= 1 && j < n && j * c < total <= (j + 1) * c
  {
    var c := ChunkSize(total, n);
    var j := (total - 1) / c;
    DivBounds(total - 1, c);
    if j >= n {
      MulMono(n, j, c);
      assert false;
    }
    assert (j + 1) * c == j * c + c;
  }

  /** The shape of a plan for a resource of known size: with `c` the chunk
      size, round `j = (total - 1) / c` ends at the last byte, rounds `0..j`
      are non-empty, every round before `j` covers exactly `c` bytes, and every
      round after `j` is the empty range `[total, total - 1]`. */
  lemma PlanEmptyTail(total: nat, n: nat)
    requires n >= 1 && total > 0
    ensures var rs, c := Plan(total, n), ChunkSize(total, n);
            var j := (total - 1) / c;
            && 0 <= j < n && rs[j].last == total - 1
            && (forall i :: 0 <= i <= j ==> !IsEmpty(rs[i]))
            && (forall i :: 0 <= i < j ==> rs[i].last - rs[i].first + 1 == c)
            && (forall i :: j < i < n ==> rs[i] == ByteRange(total, total - 1))
  {
    var rs, c := Plan(total, n), ChunkSize(total, n);
    LastRound(total, n);
    var j := (total - 1) / c;
    PlanAt(total, n, j);
    forall i | 0 <= i <= j
      ensures !IsEmpty(rs[i]) && (i < j ==> rs[i].last - rs[i].first + 1 == c)
    {
      RoundUpToLast(total, n, j, i);
    }
    forall i | j < i < n
      ensures rs[i] == ByteRange(total, total - 1)
    {
      RoundPastLast(total, n, j, i);
    }
  }

  /** 1000 bytes in four rounds of 250. */
  lemma PlanExampleEven()
    ensures Plan(1000, 4) == [ByteRange(0, 249), ByteRange(250, 499), ByteRange(500, 749), ByteRange(750, 999)]
  {
    assert ChunkSize(1000, 4) == 250;
    assert PlanFrom(750, 250, 1000, 1) == [ByteRange(750, 999)];
    assert PlanFrom(500, 250, 1000, 2) == [ByteRange(500, 749), ByteRange(750, 999)];
    assert PlanFrom(250, 250, 1000, 3) == [ByteRange(250, 499), ByteRange(500, 749), ByteRange(750, 999)];
  }

  /** Five bytes in four rounds: the last round is the empty range `[5, 4]`. */
  lemma PlanExampleEmptyTail()
    ensures Plan(5, 4) == [ByteRange(0, 1), ByteRange(2, 3), ByteRange(4, 4), ByteRange(5, 4)]
  {
    assert ChunkSize(5, 4) == 2;
    WalkOfFiveBytes();
  }

  lemma WalkOfFiveBytes()
    ensures PlanFrom(0, 2, 5, 4) == [ByteRange(0, 1), ByteRange(2, 3), ByteRange(4, 4), ByteRange(5, 4)]
  {
    assert PlanFrom(5, 2, 5, 1) == [ByteRange(5, 4)];
    assert PlanFrom(4, 2, 5, 2) == [ByteRange(4, 4), ByteRange(5, 4)];
    assert PlanFrom(2, 2, 5, 3) == [ByteRange(2, 3), ByteRange(4, 4), ByteRange(5, 4)];
  }
}
