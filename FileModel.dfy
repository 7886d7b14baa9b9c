/**
 * The output file as a sequence of bytes, and the two ways the downloader
 * writes to it: appending to a file opened with `'wb'`, and `seek` followed by
 * `write` on a file opened with `'r+b'`.
 */
module FileModel {

  newtype byte = x: int | 0 <= x < 256

  /** One piece of a response body, as `iter_content` hands it over. */
  type Chunk = seq<byte>

  function Max(a: int, b: int): (m: int) {
    if a >= b then a else b
  }

  /** The chunks of one body, joined in order. */
  function Flatten(cs: seq<Chunk>): (bytes: seq<byte>)
    decreases |cs|
  {
    if cs == [] then [] else Flatten(cs[..|cs| - 1]) + cs[|cs| - 1]
  }

  /** The bodies of several responses, joined in order. */
  function Concat(bodies: seq<seq<Chunk>>): (bytes: seq<byte>)
    decreases |bodies|
  {
    if bodies == [] then [] else Concat(bodies[..|bodies| - 1]) + Flatten(bodies[|bodies| - 1])
  }

  lemma {:induction false} FlattenAppend(a: seq<Chunk>, b: seq<Chunk>)
    ensures Flatten(a + b) == Flatten(a) + Flatten(b)
    decreases |b|
  {
    if b == [] {
      assert a + b == a;
    } else {
      var m := |b| - 1;
      assert (a + b)[..|a + b| - 1] == a + b[..m];
      FlattenAppend(a, b[..m]);
    }
  }

  /** Extending a prefix of a body by one chunk extends its bytes by that chunk. */
  lemma FlattenSnoc(cs: seq<Chunk>, k: nat)
    requires k < |cs|
    ensures Flatten(cs[..k + 1]) == Flatten(cs[..k]) + cs[k]
  {
    assert cs[..k + 1][..k] == cs[..k];
  }

  lemma ConcatSnoc(bodies: seq<seq<Chunk>>, k: nat)
    requires k < |bodies|
    ensures Concat(bodies[..k + 1]) == Concat(bodies[..k]) + Flatten(bodies[k])
  {
    assert bodies[..k + 1][..k] == bodies[..k];
  }

  /** A body contributes no byte exactly when every one of its chunks is empty. */
  lemma {:induction false} FlattenEmpty(cs: seq<Chunk>)
    ensures Flatten(cs) == [] <==> forall k :: 0 <= k < |cs| ==> cs[k] == []
    decreases |cs|
  {
    if cs != [] {
      var m := |cs| - 1;
      FlattenEmpty(cs[..m]);
      assert forall k :: 0 <= k < m ==> cs[..m][k] == cs[k];
    }
  }

  lemma {:induction false} ConcatEmpty(bodies: seq<seq<Chunk>>)
    ensures Concat(bodies) == [] <==> forall k :: 0 <= k < |bodies| ==> Flatten(bodies[k]) == []
    decreases |bodies|
  {
    if bodies != [] {
      var m := |bodies| - 1;
      ConcatEmpty(bodies[..m]);
      var front, last := Concat(bodies[..m]), Flatten(bodies[m]);
      assert Concat(bodies) == front + last;
      assert |front + last| == |front| + |last|;
      assert forall k :: 0 <= k < m ==> bodies[..m][k] == bodies[k];
    }
  }

  /** The first non-empty chunk of a body, or `[]` when there is none. */
  function FirstNonEmpty(cs: seq<Chunk>): (c: Chunk)
    ensures c == [] <==> Flatten(cs) == []
    decreases |cs|
  {
    FlattenEmpty(cs);
    if cs == [] then []
    else if cs[0] != [] then cs[0]
    else
      FlattenEmpty(cs[1..]);
      assert forall k :: 0 < k < |cs| ==> cs[1..][k - 1] == cs[k];
      FirstNonEmpty(cs[1..])
  }

  lemma {:induction false} FirstNonEmptyAt(cs: seq<Chunk>, j: nat)
    requires j < |cs| && cs[j] != []
    requires forall k :: 0 <= k < j ==> cs[k] == []
    ensures FirstNonEmpty(cs) == cs[j]
    decreases j
  {
    if j > 0 {
      FirstNonEmptyAt(cs[1..], j - 1);
    }
  }

  /** `k` zero bytes: what a gap in a file reads back as. */
  function Zeros(k: nat): (z: seq<byte>)
    ensures |z| == k
  {
    if k == 0 then [] else Zeros(k - 1) + [0]
  }

  lemma {:induction false} ZerosAt(k: nat, i: nat)
    requires i < k
    ensures Zeros(k)[i] == 0
  {
    if i < k - 1 {
      ZerosAt(k - 1, i);
    }
  }

  /** The file after `f.seek(pos)` and `f.write(data)` on a binary file:
      `data` replaces the bytes at `pos` onward, the file grows as needed, and
      a gap between the old end of the file and `pos` reads back as zero
      bytes (WriteAtByte). Writing nothing leaves the file as it was. */
  function WriteAt(file: seq<byte>, pos: nat, data: seq<byte>): (r: seq<byte>)
    ensures data != [] ==> |r| == Max(|file|, pos + |data|)
    ensures data == [] ==> r == file
  {
    if data == [] then file
    else
      var padded := if pos <= |file| then file else file + Zeros(pos - |file|);
      padded[..pos] + data + (if pos + |data| <= |padded| then padded[pos + |data|..] else [])
  }

  /** Byte `k` of the file after writing a non-empty `data` at `pos`: a byte
      of `data` inside the written span, the old byte outside it, zero in a
      gap past the old end. */
  lemma WriteAtByte(file: seq<byte>, pos: nat, data: seq<byte>, k: nat)
    requires data != [] && k < Max(|file|, pos + |data|)
    ensures WriteAt(file, pos, data)[k]
         == if pos <= k < pos + |data| then data[k - pos] else if k < |file| then file[k] else 0
  {
    var padded := if pos <= |file| then file else file + Zeros(pos - |file|);
    assert |padded| == Max(|file|, pos);
    if k < pos {
      if |file| <= k {
        ZerosAt(pos - |file|, k - |file|);
      }
      assert padded[k] == if k < |file| then file[k] else 0;
    } else if k >= pos + |data| {
      assert padded[k] == file[k];
    }
  }

  lemma ContiguousByte(file: seq<byte>, pos: nat, a: seq<byte>, b: seq<byte>, k: nat)
    requires a != [] && b != [] && k < Max(|file|, pos + |a| + |b|)
    ensures WriteAt(WriteAt(file, pos, a), pos + |a|, b)[k] == WriteAt(file, pos, a + b)[k]
  {
    var mid := WriteAt(file, pos, a);
    WriteAtByte(mid, pos + |a|, b, k);
    WriteAtByte(file, pos, a + b, k);
    if k < |mid| {
      WriteAtByte(file, pos, a, k);
    }
    if pos <= k < pos + |a| {
      assert (a + b)[k - pos] == a[k - pos];
    } else if pos + |a| <= k < pos + |a| + |b| {
      assert (a + b)[k - pos] == b[k - pos - |a|];
    }
  }

  lemma ContiguousNonEmpty(file: seq<byte>, pos: nat, a: seq<byte>, b: seq<byte>)
    requires a != [] && b != []
    ensures WriteAt(WriteAt(file, pos, a), pos + |a|, b) == WriteAt(file, pos, a + b)
  {
    var mid := WriteAt(file, pos, a);
    var lhs, rhs := WriteAt(mid, pos + |a|, b), WriteAt(file, pos, a + b);
    assert |mid| == Max(|file|, pos + |a|);
    assert |lhs| == |rhs|;
    forall k | 0 <= k < |lhs|
      ensures lhs[k] == rhs[k]
    {
      ContiguousByte(file, pos, a, b, k);
    }
  }

  /** Two writes where the second starts where the first ended are one write
      of both: this is what lets a worker stream a range chunk by chunk. */
  lemma WriteAtContiguous(file: seq<byte>, pos: nat, a: seq<byte>, b: seq<byte>)
    ensures WriteAt(WriteAt(file, pos, a), pos + |a|, b) == WriteAt(file, pos, a + b)
  {
    if a == [] {
      assert a + b == b;
    } else if b == [] {
      assert a + b == a;
    } else {
      ContiguousNonEmpty(file, pos, a, b);
    }
  }
}
