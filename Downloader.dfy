/**
 * `DownloadManager`: the sequential range loop of `download_file`, the
 * positioned writer of `download_chunk`, and the pause/resume/stop flags.
 * Network responses are given as their bodies, one sequence of chunks per
 * request, in the order `iter_content` yields them.
 */
module Downloader {
  import opened Wrappers
  import opened RangePlan
  import opened RangeHeader
  import opened FileModel
  import opened ControlFlags

  /** The exception that ends a loop early: a `ZeroDivisionError` raised by a
      progress computation right after a write. */
  datatype DownloadError = DivisionByZero

  /** How `download_file` ends: the "completed" dialog or the error dialog. */
  datatype Outcome = Completed | Failed(error: DownloadError)

  /** `int(response.headers.get('content-length', 0))`: an absent length
      counts as zero bytes. */
  function TotalSize(contentLength: Option<nat>): (t: nat)
    ensures contentLength == Some(t) || (contentLength == None && t == 0)
  {
    match contentLength
    case Some(len) => len
    case None => 0
  }

  /** Whether the write loop of `download_chunk` is left after receiving
      `chunk`: only a non-empty chunk is written, and after it either the
      progress ratio divides by an `end_byte` of zero or the stop flag is
      found set. */
  predicate LeavesAfter(chunk: Chunk, stopSeen: bool, endByte: int) {
    chunk != [] && (endByte == 0 || stopSeen)
  }

  /** The variables of the write loop of `download_chunk`: the file, the
      counter `bytes_downloaded`, how many chunks were taken, whether a
      progress ratio divided by zero, and whether the loop is left. */
  datatype Writer = Writer(out: seq<byte>, bytesDownloaded: nat, consumed: nat, failed: bool, leave: bool)

  /** One pass of the write loop: a non-empty chunk is written at the current
      position, then the progress ratio divides by `endByte` and the stop flag
      is checked. Once the loop is left nothing more is taken. */
  function Receive(w: Writer, endByte: int, chunk: Chunk, stopSeen: bool): (v: Writer)
    ensures w.leave ==> v == w
    ensures !w.leave ==>
              && v.bytesDownloaded == w.bytesDownloaded + |chunk|
              && v.consumed == w.consumed + 1
              && (v.leave <==> LeavesAfter(chunk, stopSeen, endByte))
  {
    if w.leave then w
    else if chunk == [] then w.(consumed := w.consumed + 1)
    else
      Writer(WriteAt(w.out, w.bytesDownloaded, chunk), w.bytesDownloaded + |chunk|, w.consumed + 1,
             endByte == 0, endByte == 0 || stopSeen)
  }

  /** The loop variables after offering the first `k` chunks of `body`. */
  function ReceiveFirst(file: seq<byte>, startByte: nat, endByte: int, body: seq<Chunk>, stopSeen: seq<bool>, k: nat): (w: Writer)
    requires |stopSeen| == |body| && k <= |body|
    decreases k
  {
    if k == 0 then Writer(file, startByte, 0, false, false)
    else Receive(ReceiveFirst(file, startByte, endByte, body, stopSeen, k - 1), endByte, body[k - 1], stopSeen[k - 1])
  }

  /** When all of the first `k` chunks were taken, the loop was still running
      after the first `k - 1`, which were all taken too. */
  lemma TakenBefore(file: seq<byte>, startByte: nat, endByte: int, body: seq<Chunk>, stopSeen: seq<bool>, k: nat)
    requires |stopSeen| == |body| && 0 < k <= |body|
    requires ReceiveFirst(file, startByte, endByte, body, stopSeen, k).consumed == k
    ensures var w := ReceiveFirst(file, startByte, endByte, body, stopSeen, k - 1);
            w.consumed == k - 1 && !w.leave
  {
    ConsumedAtMost(file, startByte, endByte, body, stopSeen, k - 1);
  }

  lemma {:induction false} ConsumedAtMost(file: seq<byte>, startByte: nat, endByte: int, body: seq<Chunk>, stopSeen: seq<bool>, k: nat)
    requires |stopSeen| == |body| && k <= |body|
    ensures ReceiveFirst(file, startByte, endByte, body, stopSeen, k).consumed <= k
    decreases k
  {
    if k > 0 {
      ConsumedAtMost(file, startByte, endByte, body, stopSeen, k - 1);
    }
  }

  /** After taking `k` chunks the counter has moved past every byte of them. */
  lemma {:induction false} ReceivedCount(file: seq<byte>, startByte: nat, endByte: int, body: seq<Chunk>, stopSeen: seq<bool>, k: nat)
    requires |stopSeen| == |body| && k <= |body|
    requires ReceiveFirst(file, startByte, endByte, body, stopSeen, k).consumed == k
    ensures ReceiveFirst(file, startByte, endByte, body, stopSeen, k).bytesDownloaded == startByte + |Flatten(body[..k])|
    decreases k
  {
    if k > 0 {
      TakenBefore(file, startByte, endByte, body, stopSeen, k);
      ReceivedCount(file, startByte, endByte, body, stopSeen, k - 1);
      FlattenSnoc(body, k - 1);
    }
  }

  /** After taking `k` chunks their bytes are in the file from `startByte` on. */
  lemma {:induction false} ReceivedBytes(file: seq<byte>, startByte: nat, endByte: int, body: seq<Chunk>, stopSeen: seq<bool>, k: nat)
    requires |stopSeen| == |body| && k <= |body|
    requires ReceiveFirst(file, startByte, endByte, body, stopSeen, k).consumed == k
    ensures ReceiveFirst(file, startByte, endByte, body, stopSeen, k).out == WriteAt(file, startByte, Flatten(body[..k]))
    decreases k
  {
    if k > 0 {
      TakenBefore(file, startByte, endByte, body, stopSeen, k);
      ReceivedBytes(file, startByte, endByte, body, stopSeen, k - 1);
      ReceivedCount(file, startByte, endByte, body, stopSeen, k - 1);
      FlattenSnoc(body, k - 1);
      var w := ReceiveFirst(file, startByte, endByte, body, stopSeen, k - 1);
      var written, chunk := Flatten(body[..k - 1]), body[k - 1];
      if chunk != [] {
        WriteAtContiguous(file, startByte, written, chunk);
        assert ReceiveFirst(file, startByte, endByte, body, stopSeen, k).out == WriteAt(w.out, w.bytesDownloaded, chunk);
      } else {
        assert written + chunk == written;
      }
    }
  }

  /** After taking `k` chunks, a division by zero has happened exactly when
      `endByte` is zero and some byte was written. */
  lemma {:induction false} ReceivedFailure(file: seq<byte>, startByte: nat, endByte: int, body: seq<Chunk>, stopSeen: seq<bool>, k: nat)
    requires |stopSeen| == |body| && k <= |body|
    requires ReceiveFirst(file, startByte, endByte, body, stopSeen, k).consumed == k
    ensures ReceiveFirst(file, startByte, endByte, body, stopSeen, k).failed
            <==> endByte == 0 && Flatten(body[..k]) != []
    decreases k
  {
    if k > 0 {
      TakenBefore(file, startByte, endByte, body, stopSeen, k);
      ReceivedFailure(file, startByte, endByte, body, stopSeen, k - 1);
      FlattenSnoc(body, k - 1);
      var written, chunk := Flatten(body[..k - 1]), body[k - 1];
      if chunk != [] {
        assert |written + chunk| > 0;
      } else {
        assert written + chunk == written;
      }
    }
  }

  /** After taking `k` chunks, no chunk before the last one ended the loop,
      and the loop is left exactly when the last one does. */
  lemma {:induction false} ReceivedLeave(file: seq<byte>, startByte: nat, endByte: int, body: seq<Chunk>, stopSeen: seq<bool>, k: nat)
    requires |stopSeen| == |body| && k <= |body|
    requires ReceiveFirst(file, startByte, endByte, body, stopSeen, k).consumed == k
    ensures forall j :: 0 <= j < k - 1 ==> !LeavesAfter(body[j], stopSeen[j], endByte)
    ensures ReceiveFirst(file, startByte, endByte, body, stopSeen, k).leave
            <==> 0 < k && LeavesAfter(body[k - 1], stopSeen[k - 1], endByte)
    decreases k
  {
    if k > 0 {
      TakenBefore(file, startByte, endByte, body, stopSeen, k);
      ReceivedLeave(file, startByte, endByte, body, stopSeen, k - 1);
    }
  }

  class DownloadManager {
    const defaultNumChunks: nat := 4
    var pauseSet: bool
    var stopSet: bool

    function Events(): (fl: Flags)
      reads this
    {
      Flags(pauseSet, stopSet)
    }

    /** Both events start clear and the manager splits a download in four. */
    constructor ()
      ensures Events() == Initial
    {
      pauseSet, stopSet := false, false;
    }

    function GetDefaultNumChunks(): (n: nat)
      ensures n == 4
    {
      defaultNumChunks
    }

    method PauseDownload()
      modifies this
      ensures Events() == Step(old(Events()), Pause)
    {
      pauseSet := true;
    }

    method ResumeDownload()
      modifies this
      ensures Events() == Step(old(Events()), Resume)
    {
      pauseSet := false;
    }

    /** Sets the stop flag. The list of threads it joins is never filled, so
        the join loop does nothing. */
    method StopDownload()
      modifies this
      ensures Events() == Step(old(Events()), Stop)
    {
      stopSet := true;
    }

    /** `download_chunk`: writes the body of a range request into an existing
        file, starting at `startByte` and moving forward by the length of each
        non-empty chunk. `stopSeen[k]` is what `stop_event.is_set()` returns
        when checked after chunk `k`: another thread may set the flag
        meanwhile, nothing clears it, and once it is set every check sees it.
        So after a stop the loop writes at most one non-empty chunk, the first
        one of the body.
        The loop is left right after the first write whose check finds the
        stop flag set, or whose progress ratio divides by zero (`failed`);
        that chunk is already written. `consumed` is the number of chunks
        taken from the body. */
    method DownloadChunk(file: seq<byte>, startByte: nat, endByte: int, body: seq<Chunk>, stopSeen: seq<bool>)
      returns (header: string, out: seq<byte>, bytesDownloaded: nat, consumed: nat, failed: bool)
      requires |stopSeen| == |body|
      requires stopSet ==> forall k :: 0 <= k < |stopSeen| ==> stopSeen[k]
      requires forall j, k :: 0 <= j <= k < |stopSeen| && stopSeen[j] ==> stopSeen[k]
      ensures header == RangeValue(ByteRange(startByte, endByte))
      ensures consumed <= |body|
      ensures forall k :: 0 <= k < consumed - 1 ==> !LeavesAfter(body[k], stopSeen[k], endByte)
      ensures consumed < |body| ==> 0 < consumed && LeavesAfter(body[consumed - 1], stopSeen[consumed - 1], endByte)
      ensures bytesDownloaded == startByte + |Flatten(body[..consumed])|
      ensures out == WriteAt(file, startByte, Flatten(body[..consumed]))
      ensures failed <==> endByte == 0 && Flatten(body[..consumed]) != []
      ensures stopSet ==> Flatten(body[..consumed]) == FirstNonEmpty(body)
    {
      header := RangeValue(ByteRange(startByte, endByte));
      out, bytesDownloaded, consumed, failed := file, startByte, 0, false;
      var leave := false;
      while consumed < |body| && !leave
        invariant consumed <= |body|
        invariant Writer(out, bytesDownloaded, consumed, failed, leave)
               == ReceiveFirst(file, startByte, endByte, body, stopSeen, consumed)
      {
        var chunk := body[consumed];
        if chunk != [] {
          out := WriteAt(out, bytesDownloaded, chunk);
          bytesDownloaded := bytesDownloaded + |chunk|;
          failed := endByte == 0;
          leave := failed || stopSeen[consumed];
        }
        consumed := consumed + 1;
      }
      ReceivedCount(file, startByte, endByte, body, stopSeen, consumed);
      ReceivedBytes(file, startByte, endByte, body, stopSeen, consumed);
      ReceivedFailure(file, startByte, endByte, body, stopSeen, consumed);
      ReceivedLeave(file, startByte, endByte, body, stopSeen, consumed);
      if stopSet {
        StoppedTakesFirstChunk(body, consumed);
      }
    }

    /** The inner loop of `download_file`: appends every non-empty chunk of
        one response body to the file. After each append the progress update
        divides by `total`, so with an unknown size (zero) the first non-empty
        chunk is appended and then the loop ends with `crashed`. */
    method AppendBody(file: seq<byte>, body: seq<Chunk>, total: nat) returns (out: seq<byte>, crashed: bool)
      ensures crashed <==> total == 0 && Flatten(body) != []
      ensures !crashed ==> out == file + Flatten(body)
      ensures crashed ==> out == file + FirstNonEmpty(body)
    {
      out, crashed := file, false;
      var j := 0;
      while j < |body| && !crashed
        invariant 0 <= j <= |body|
        invariant !crashed ==> out == file + Flatten(body[..j])
        invariant !crashed && total == 0 ==> Flatten(body[..j]) == []
        invariant crashed ==> total == 0 && 0 < j && body[j - 1] != []
                              && Flatten(body[..j - 1]) == [] && out == file + body[j - 1]
      {
        var chunk := body[j];
        FlattenSnoc(body, j);
        if chunk != [] {
          out := out + chunk;
          crashed := total == 0;
        }
        j := j + 1;
      }
      if crashed {
        FirstChunkOfBody(body, j - 1);
      } else {
        assert body[..j] == body;
      }
    }

    /** `download_file`: truncates the output file, then makes
        `default_num_chunks` range requests in turn, appending every non-empty
        chunk of every response to the file, the first range starting at byte
        0 and each next one right after the previous end. `responses[i]` is
        the body of request `i`; `headers` are the `Range` values sent.
        With a known size the file ends up as all the bodies joined in order.
        With an unknown size the first non-empty chunk is written and then the
        progress update divides by zero, which ends the download with the
        error dialog. */
    method DownloadFile(contentLength: Option<nat>, responses: seq<seq<Chunk>>)
      returns (headers: seq<string>, file: seq<byte>, outcome: Outcome)
      requires |responses| == defaultNumChunks
      ensures |headers| <= defaultNumChunks
      ensures forall i :: 0 <= i < |headers| ==>
                headers[i] == RangeValue(Plan(TotalSize(contentLength), defaultNumChunks)[i])
      ensures TotalSize(contentLength) > 0 ==> outcome == Completed
      ensures outcome == Completed <==> TotalSize(contentLength) > 0 || Concat(responses) == []
      ensures outcome == Completed ==> |headers| == defaultNumChunks && file == Concat(responses)
      ensures outcome != Completed ==>
                && outcome == Failed(DivisionByZero)
                && 0 < |headers|
                && Concat(responses[..|headers| - 1]) == []
                && file == FirstNonEmpty(responses[|headers| - 1])
                && file != []
    {
      var total := TotalSize(contentLength);
      var n := defaultNumChunks;
      var chunkSize := (total + n - 1) / n;
      assert chunkSize == ChunkSize(total, n);
      file, headers := [], [];
      var startByte := 0;
      var i := 0;
      while i < n
        invariant 0 <= i <= n
        invariant |headers| == i
        invariant headers == PlanHeaders(total, n, i)
        invariant startByte == Boundary(chunkSize, total, i)
        invariant file == Concat(responses[..i])
        invariant total == 0 ==> file == []
      {
        var endByte := EndByte(startByte, chunkSize, total);
        PlanRound(total, n, i);
        headers := headers + [RangeValue(ByteRange(startByte, endByte))];
        var crashed;
        ConcatSnoc(responses, i);
        ghost var before := file;
        file, crashed := AppendBody(file, responses[i], total);
        if crashed {
          CrashedDownload(total, n, responses, i, headers, before, file);
          outcome := Failed(DivisionByZero);
          return;
        }
        startByte := endByte + 1;
        i := i + 1;
      }
      CompletedDownload(total, n, responses, headers, file);
      outcome := Completed;
    }
  }

  /** When every chunk but the last one taken is empty, and the last one is
      non-empty unless the whole body was taken, the bytes taken are the
      first non-empty chunk of the body. */
  lemma StoppedTakesFirstChunk(body: seq<Chunk>, consumed: nat)
    requires consumed <= |body|
    requires forall k :: 0 <= k < consumed - 1 ==> body[k] == []
    requires consumed < |body| ==> 0 < consumed && body[consumed - 1] != []
    ensures Flatten(body[..consumed]) == FirstNonEmpty(body)
  {
    if consumed > 0 && body[consumed - 1] != [] {
      var j := consumed - 1;
      assert forall k :: 0 <= k < j ==> body[..j][k] == [];
      FlattenEmpty(body[..j]);
      FlattenSnoc(body, j);
      assert Flatten(body[..j]) + body[j] == body[j];
      FirstNonEmptyAt(body, j);
    } else {
      assert consumed == |body|;
      assert body[..consumed] == body;
      assert forall k :: 0 <= k < |body| ==> body[k] == [];
      FlattenEmpty(body);
    }
  }

  /** The `Range` values of the first `k` rounds of the plan, in order. */
  function PlanHeaders(total: nat, n: nat, k: nat): (hs: seq<string>)
    requires n >= 1 && k <= n
    ensures |hs| == k
    decreases k
  {
    if k == 0 then [] else PlanHeaders(total, n, k - 1) + [RangeValue(Plan(total, n)[k - 1])]
  }

  lemma {:induction false} PlanHeaderAt(total: nat, n: nat, k: nat, i: nat)
    requires n >= 1 && i < k <= n
    ensures PlanHeaders(total, n, k)[i] == RangeValue(Plan(total, n)[i])
    decreases k
  {
    if i < k - 1 {
      var hs, h := PlanHeaders(total, n, k - 1), RangeValue(Plan(total, n)[k - 1]);
      assert PlanHeaders(total, n, k) == hs + [h];
      assert (hs + [h])[i] == hs[i];
      PlanHeaderAt(total, n, k - 1, i);
    }
  }

  lemma PlanHeadersAt(total: nat, n: nat, k: nat)
    requires n >= 1 && k <= n
    ensures forall i :: 0 <= i < k ==> PlanHeaders(total, n, k)[i] == RangeValue(Plan(total, n)[i])
  {
    forall i | 0 <= i < k
      ensures PlanHeaders(total, n, k)[i] == RangeValue(Plan(total, n)[i])
    {
      PlanHeaderAt(total, n, k, i);
    }
  }

  /** Round `i` of the plan starts at the boundary of rounds before it, ends
      where `download_file` computes `end_byte`, and the next round starts one
      byte later. */
  lemma PlanRound(total: nat, n: nat, i: nat)
    requires n >= 1 && i < n
    ensures var c := ChunkSize(total, n);
            var start := Boundary(c, total, i);
            && Plan(total, n)[i] == ByteRange(start, EndByte(start, c, total))
            && EndByte(start, c, total) + 1 == Boundary(c, total, i + 1)
  {
    PlanAt(total, n, i);
    BoundaryStep(ChunkSize(total, n), total, i);
  }

  /** A round whose body holds a byte, after rounds that held none: the
      bodies joined hold a byte too, and a file that was empty before the
      round holds just the first non-empty chunk of it. */
  lemma CrashedRound(responses: seq<seq<Chunk>>, i: nat, before: seq<byte>, after: seq<byte>)
    requires i < |responses| && Concat(responses[..i]) == [] && Flatten(responses[i]) != []
    requires before == [] && after == before + FirstNonEmpty(responses[i])
    ensures Concat(responses) != []
    ensures after == FirstNonEmpty(responses[i]) && after != []
  {
    ConcatEmpty(responses);
    assert before + FirstNonEmpty(responses[i]) == FirstNonEmpty(responses[i]);
  }

  /** What `download_file` has done when the loop runs through all `n`
      rounds: every planned header was sent, and the file is all the bodies
      joined in order. */
  lemma CompletedDownload(total: nat, n: nat, responses: seq<seq<Chunk>>, headers: seq<string>, file: seq<byte>)
    requires n >= 1 && |responses| == n
    requires headers == PlanHeaders(total, n, n) && file == Concat(responses[..n])
    ensures |headers| == n
    ensures forall j :: 0 <= j < |headers| ==> headers[j] == RangeValue(Plan(total, n)[j])
    ensures file == Concat(responses)
  {
    assert responses[..n] == responses;
    PlanHeadersAt(total, n, n);
  }

  /** What `download_file` has done when round `i` divides by a size of zero:
      the headers of rounds `0..i` were sent, the bodies before round `i`
      held no byte, and the file holds the first non-empty chunk of round
      `i`. */
  lemma CrashedDownload(total: nat, n: nat, responses: seq<seq<Chunk>>, i: nat, headers: seq<string>,
                        before: seq<byte>, file: seq<byte>)
    requires n >= 1 && |responses| == n && i < n
    requires headers == PlanHeaders(total, n, i + 1)
    requires Flatten(responses[i]) != []
    requires before == Concat(responses[..i]) && before == [] && file == before + FirstNonEmpty(responses[i])
    ensures |headers| == i + 1
    ensures forall j :: 0 <= j < |headers| ==> headers[j] == RangeValue(Plan(total, n)[j])
    ensures Concat(responses) != []
    ensures Concat(responses[..|headers| - 1]) == [] && file == FirstNonEmpty(responses[|headers| - 1]) && file != []
  {
    PlanHeadersAt(total, n, i + 1);
    CrashedRound(responses, i, before, file);
  }

  /** When chunk `j` is the first non-empty chunk of a body, it is
      `FirstNonEmpty` of the body. */
  lemma FirstChunkOfBody(body: seq<Chunk>, j: nat)
    requires j < |body| && body[j] != [] && Flatten(body[..j]) == []
    ensures FirstNonEmpty(body) == body[j]
  {
    FlattenEmpty(body[..j]);
    assert forall k :: 0 <= k < j ==> body[..j][k] == body[k];
    FirstNonEmptyAt(body, j);
  }

  /** The part of `resource` a range denotes, or nothing for an empty range:
      what a server that honours every range sends back. */
  function Slice(resource: seq<byte>, r: ByteRange): (s: seq<byte>)
    ensures |s| == if 0 <= r.first <= r.last < |resource| then r.last - r.first + 1 else 0
  {
    if 0 <= r.first <= r.last < |resource| then resource[r.first..r.last + 1] else []
  }

  /** What a server that honours every range sends for round `k`: the bytes
      between the boundaries of that round. */
  lemma RoundSlice(resource: seq<byte>, n: nat, k: nat)
    requires n >= 1 && k < n
    ensures var c := ChunkSize(|resource|, n);
            var lo, hi := Boundary(c, |resource|, k), Boundary(c, |resource|, k + 1);
            lo <= hi && Slice(resource, Plan(|resource|, n)[k]) == resource[lo..hi]
  {
    var c := ChunkSize(|resource|, n);
    PlanAt(|resource|, n, k);
    BoundaryMono(c, |resource|, k, k + 1);
  }

  lemma PrefixSplit(s: seq<byte>, lo: nat, hi: nat)
    requires lo <= hi <= |s|
    ensures s[..lo] + s[lo..hi] == s[..hi]
  {
  }

  /** Bodies that are the consecutive slices of `resource` between the
      boundaries `bs` join into the prefix up to the `k`-th boundary. */
  lemma {:induction false} ConcatOfSlices(resource: seq<byte>, responses: seq<seq<Chunk>>, bs: seq<nat>, k: nat)
    requires |bs| == |responses| + 1 && k <= |responses| && bs[0] == 0
    requires forall i :: 0 <= i <= |responses| ==> bs[i] <= |resource|
    requires forall i :: 0 <= i < |responses| ==>
               bs[i] <= bs[i + 1] && Flatten(responses[i]) == resource[bs[i]..bs[i + 1]]
    ensures Concat(responses[..k]) == resource[..bs[k]]
    decreases k
  {
    if k == 0 {
      assert responses[..0] == [];
    } else {
      var lo, hi := bs[k - 1], bs[k];
      assert lo <= hi <= |resource| && Flatten(responses[k - 1]) == resource[lo..hi];
      ConcatOfSlices(resource, responses, bs, k - 1);
      ConcatSnoc(responses, k - 1);
      PrefixSplit(resource, lo, hi);
    }
  }

  /** Downloading from a server that answers every range with exactly the
      bytes it names rebuilds the resource, whatever the number of rounds:
      the file is then the same for any two numbers of rounds. */
  lemma SequentialDownloadRebuilds(resource: seq<byte>, n: nat, responses: seq<seq<Chunk>>)
    requires n >= 1 && |responses| == n
    requires forall i :: 0 <= i < n ==> Flatten(responses[i]) == Slice(resource, Plan(|resource|, n)[i])
    ensures Concat(responses) == resource
  {
    var total, c := |resource|, ChunkSize(|resource|, n);
    var bs := seq(n + 1, i requires 0 <= i => Boundary(c, total, i));
    forall i | 0 <= i < n
      ensures bs[i] <= bs[i + 1] && Flatten(responses[i]) == resource[bs[i]..bs[i + 1]]
    {
      RoundSlice(resource, n, i);
    }
    assert bs[0] == 0;
    ConcatOfSlices(resource, responses, bs, n);
    assert responses[..n] == responses;
    BoundaryAtEnd(total, n);
  }

  lemma TailHeaderIsInvalid()
    ensures var p := ParseRangeValue(RangeValue(ByteRange(5, 4)));
            p.Some? && !ValidIntRange(p.value)
  {
    RangeValueRoundTrip(ByteRange(5, 4));
  }

  lemma ConcatOfWholeAfterParts(resource: seq<byte>)
    requires |resource| == 5
    ensures Concat([[resource[0..2]], [resource[2..4]], [resource[4..5]], [resource]]) == resource + resource
  {
    var bodies := [[resource[0..2]], [resource[2..4]], [resource[4..5]], [resource]];
    assert bodies[..0] == [];
    ConcatSnoc(bodies, 0);
    ConcatSnoc(bodies, 1);
    ConcatSnoc(bodies, 2);
    ConcatSnoc(bodies, 3);
    assert bodies[..4] == bodies;
    assert resource[0..2] + resource[2..4] + resource[4..5] == resource;
  }

  /** Section 14.2 of RFC 9110 lets a server ignore a `Range` header that is
      not a valid ranges-specifier and send the whole resource. For five bytes
      in four rounds the last header is `bytes=5-4`; such a server's answer to
      it is appended after the five bytes already written, and the file ends
      up holding the resource twice. */
  lemma IgnoredInvalidRangeDuplicatesResource(resource: seq<byte>)
    requires |resource| == 5
    ensures var plan := Plan(5, 4);
            && plan[3] == ByteRange(5, 4)
            && ParseRangeValue(RangeValue(plan[3])).Some?
            && !ValidIntRange(ParseRangeValue(RangeValue(plan[3])).value)
            && Concat([[resource[0..2]], [resource[2..4]], [resource[4..5]], [resource]]) == resource + resource
  {
    PlanExampleEmptyTail();
    TailHeaderIsInvalid();
    ConcatOfWholeAfterParts(resource);
  }
}
