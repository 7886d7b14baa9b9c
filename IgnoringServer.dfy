/**
 * A server that ignores invalid `Range` headers. Section 14.2 of RFC 9110
 * lets a server ignore a `Range` header that is not a valid
 * ranges-specifier and answer with the whole resource. Against such a server
 * the empty tail rounds of `download_file` each append the resource once
 * more.
 */
module IgnoringServer {
  import opened Wrappers
  import opened RangePlan
  import opened RangeHeader
  import opened FileModel
  import opened Downloader

  /** The resource `m` times over. */
  function Repeat(resource: seq<byte>, m: nat): (s: seq<byte>) {
    if m == 0 then [] else Repeat(resource, m - 1) + resource
  }

  /** What an ignoring server sends for a round: the bytes the round names
      when it holds a byte, and the whole resource when it is empty, which by
      `RangeValueValidIff` is exactly when its header is not a valid
      int-range. */
  function Answer(resource: seq<byte>, r: ByteRange): (s: seq<byte>)
    ensures s == resource || s == Slice(resource, r)
  {
    if IsEmpty(r) then resource else Slice(resource, r)
  }

  /** For every planned round the answer follows the header the round sends:
      the bytes it names when the header is a valid int-range, and the whole
      resource when it is not. */
  lemma AnswerFollowsHeader(resource: seq<byte>, n: nat, i: nat)
    requires n >= 1 && i < n
    ensures var r := Plan(|resource|, n)[i];
            var p := ParseRangeValue(RangeValue(r));
            Answer(resource, r) == if p.Some? && ValidIntRange(p.value) then Slice(resource, r) else resource
  {
    PlanChained(|resource|, n);
    RangeValueValidIff(Plan(|resource|, n)[i]);
  }

  /** Up to the round that ends at the last byte, the answer is the bytes
      between the round's boundaries. */
  lemma HeadAnswer(resource: seq<byte>, n: nat, j: nat, i: nat)
    requires n >= 1 && |resource| > 0 && j == (|resource| - 1) / ChunkSize(|resource|, n) && i <= j
    ensures var c := ChunkSize(|resource|, n);
            var lo, hi := Boundary(c, |resource|, i), Boundary(c, |resource|, i + 1);
            i < n && lo <= hi && Answer(resource, Plan(|resource|, n)[i]) == resource[lo..hi]
  {
    PlanEmptyTail(|resource|, n);
    RoundSlice(resource, n, i);
  }

  /** After the round that ends at the last byte, the answer is the whole
      resource. */
  lemma TailAnswer(resource: seq<byte>, n: nat, j: nat, i: nat)
    requires n >= 1 && |resource| > 0 && j == (|resource| - 1) / ChunkSize(|resource|, n) && j < i < n
    ensures Answer(resource, Plan(|resource|, n)[i]) == resource
  {
    PlanEmptyTail(|resource|, n);
  }

  /** After a prefix that joins into the resource, each further body that is
      the whole resource adds one more copy. */
  lemma {:induction false} TailCopies(resource: seq<byte>, responses: seq<seq<Chunk>>, j: nat, k: nat)
    requires j < k <= |responses|
    requires Concat(responses[..j + 1]) == resource
    requires forall i :: j < i < |responses| ==> Flatten(responses[i]) == resource
    ensures Concat(responses[..k]) == Repeat(resource, k - j)
    decreases k
  {
    if k > j + 1 {
      TailCopies(resource, responses, j, k - 1);
      ConcatSnoc(responses, k - 1);
      assert Flatten(responses[k - 1]) == resource;
      assert Repeat(resource, k - j) == Repeat(resource, k - 1 - j) + resource;
    }
  }

  /** Bodies that are the consecutive slices of `resource` between the round
      boundaries up to round `j`, whose end is the end of the resource, join
      into the resource. */
  lemma HeadJoins(resource: seq<byte>, responses: seq<seq<Chunk>>, c: nat, j: nat)
    requires j < |responses| && Boundary(c, |resource|, j + 1) == |resource|
    requires forall i :: 0 <= i <= j ==>
               Boundary(c, |resource|, i) <= Boundary(c, |resource|, i + 1)
               && Flatten(responses[i]) == resource[Boundary(c, |resource|, i)..Boundary(c, |resource|, i + 1)]
    ensures Concat(responses[..j + 1]) == resource
  {
    var head := responses[..j + 1];
    var bs := seq(j + 2, i requires 0 <= i => Boundary(c, |resource|, i));
    assert bs[0] == 0;
    ConcatOfSlices(resource, head, bs, j + 1);
    assert head[..j + 1] == head;
  }

  /** Round by round, an ignoring server sends the bytes between the round's
      boundaries up to the round `j` that ends at the last byte. */
  lemma HeadAnswers(resource: seq<byte>, n: nat, responses: seq<seq<Chunk>>, j: nat)
    requires n >= 1 && |resource| > 0 && |responses| == n
    requires forall i :: 0 <= i < n ==> Flatten(responses[i]) == Answer(resource, Plan(|resource|, n)[i])
    requires j == (|resource| - 1) / ChunkSize(|resource|, n)
    ensures var total, c := |resource|, ChunkSize(|resource|, n);
            && j < n && Boundary(c, total, j + 1) == total
            && forall i :: 0 <= i <= j ==>
                 Boundary(c, total, i) <= Boundary(c, total, i + 1)
                 && Flatten(responses[i]) == resource[Boundary(c, total, i)..Boundary(c, total, i + 1)]
  {
    LastRound(|resource|, n);
    forall i | 0 <= i <= j
      ensures Boundary(ChunkSize(|resource|, n), |resource|, i) <= Boundary(ChunkSize(|resource|, n), |resource|, i + 1)
      ensures Flatten(responses[i]) == resource[Boundary(ChunkSize(|resource|, n), |resource|, i)..Boundary(ChunkSize(|resource|, n), |resource|, i + 1)]
    {
      HeadAnswer(resource, n, j, i);
    }
  }

  /** Round by round, an ignoring server sends the whole resource after the
      round `j` that ends at the last byte. */
  lemma TailAnswers(resource: seq<byte>, n: nat, responses: seq<seq<Chunk>>, j: nat)
    requires n >= 1 && |resource| > 0 && |responses| == n
    requires forall i :: 0 <= i < n ==> Flatten(responses[i]) == Answer(resource, Plan(|resource|, n)[i])
    requires j == (|resource| - 1) / ChunkSize(|resource|, n)
    ensures forall i :: j < i < n ==> Flatten(responses[i]) == resource
  {
    forall i | j < i < n
      ensures Flatten(responses[i]) == resource
    {
      TailAnswer(resource, n, j, i);
    }
  }

  /** The answers up to the round `j` that ends at the last byte join into the
      resource. */
  lemma HeadPart(resource: seq<byte>, n: nat, responses: seq<seq<Chunk>>, j: nat)
    requires n >= 1 && |resource| > 0 && |responses| == n
    requires forall i :: 0 <= i < n ==> Flatten(responses[i]) == Answer(resource, Plan(|resource|, n)[i])
    requires j == (|resource| - 1) / ChunkSize(|resource|, n)
    ensures j < n && Concat(responses[..j + 1]) == resource
  {
    HeadAnswers(resource, n, responses, j);
    HeadJoins(resource, responses, ChunkSize(|resource|, n), j);
  }

  /** Each answer after round `j` adds one more copy of the resource. */
  lemma TailPart(resource: seq<byte>, n: nat, responses: seq<seq<Chunk>>, j: nat)
    requires n >= 1 && |resource| > 0 && |responses| == n
    requires forall i :: 0 <= i < n ==> Flatten(responses[i]) == Answer(resource, Plan(|resource|, n)[i])
    requires j == (|resource| - 1) / ChunkSize(|resource|, n)
    requires j < n && Concat(responses[..j + 1]) == resource
    ensures Concat(responses) == Repeat(resource, n - j)
  {
    TailAnswers(resource, n, responses, j);
    TailCopies(resource, responses, j, n);
    assert responses[..n] == responses;
  }

  /** With a known size, every round after the one that ends at the last byte
      is empty and its header invalid. Against an ignoring server the file
      ends up holding the resource once for the rounds up to that one and once
      more for each later round. */
  lemma IgnoredInvalidRangesRepeatResource(resource: seq<byte>, n: nat, responses: seq<seq<Chunk>>)
    requires n >= 1 && |resource| > 0 && |responses| == n
    requires forall i :: 0 <= i < n ==> Flatten(responses[i]) == Answer(resource, Plan(|resource|, n)[i])
    ensures var j := (|resource| - 1) / ChunkSize(|resource|, n);
            j < n && Concat(responses) == Repeat(resource, n - j)
  {
    var j := (|resource| - 1) / ChunkSize(|resource|, n);
    HeadPart(resource, n, responses, j);
    TailPart(resource, n, responses, j);
  }
}
