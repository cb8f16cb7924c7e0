/** Cutting a byte stream into transfer blocks of a fixed segment size. */
module Chunks {

  type Byte = b: int | 0 <= b < 256

  function Take(s: seq<Byte>, n: nat): seq<Byte> {
    if |s| <= n then s else s[..n]
  }

  function Drop(s: seq<Byte>, n: nat): seq<Byte> {
    if |s| <= n then [] else s[n..]
  }

  /** What is left of the stream after `k` blocks. */
  function Rest(s: seq<Byte>, seg: nat, k: nat): seq<Byte> {
    if k == 0 then s else Drop(Rest(s, seg, k - 1), seg)
  }

  /** Block `k` of the stream, counting from zero; empty past the end. */
  function Chunk(s: seq<Byte>, seg: nat, k: nat): (c: seq<Byte>)
    ensures |c| <= seg
  {
    Take(Rest(s, seg, k), seg)
  }

  /** The number of blocks in a transfer: the last one is the first that is shorter than a segment. */
  function BlockCount(s: seq<Byte>, seg: nat): (n: nat)
    requires seg > 0
    ensures n >= 1
  {
    |s| / seg + 1
  }

  /** The first `k` blocks. */
  function Blocks(s: seq<Byte>, seg: nat, k: nat): (bs: seq<seq<Byte>>)
    ensures |bs| == k
    ensures forall i :: 0 <= i < k ==> bs[i] == Chunk(s, seg, i)
  {
    if k == 0 then [] else Blocks(s, seg, k - 1) + [Chunk(s, seg, k - 1)]
  }

  function Concat(bs: seq<seq<Byte>>): seq<Byte> {
    if bs == [] then [] else Concat(bs[..|bs| - 1]) + bs[|bs| - 1]
  }

  lemma ConcatSnoc(bs: seq<seq<Byte>>, b: seq<Byte>)
    ensures Concat(bs + [b]) == Concat(bs) + b
  {
    assert (bs + [b])[..|bs|] == bs;
  }

  lemma {:induction false} RestLength(s: seq<Byte>, seg: nat, k: nat)
    ensures |Rest(s, seg, k)| == if k * seg <= |s| then |s| - k * seg else 0
  {
    if k == 0 {
    } else {
      RestLength(s, seg, k - 1);
      assert (k - 1) * seg + seg == k * seg;
    }
  }

  /** Where the end of block `k` lies relative to `len` bytes. */
  lemma BlockBounds(len: nat, seg: nat, k: nat)
    requires seg > 0
    ensures k < len / seg <==> (k + 1) * seg <= len
  {
    var q := len / seg;
    assert len == q * seg + len % seg;
    if k < q {
      assert (k + 1) * seg <= q * seg;
    } else {
      assert (q + 1) * seg <= (k + 1) * seg;
      assert (q + 1) * seg == q * seg + seg;
    }
  }

  /** Whether block `k` is full says on which side of the end of the transfer it lies. */
  lemma ChunkLength(s: seq<Byte>, seg: nat, k: nat)
    requires seg > 0
    ensures |Chunk(s, seg, k)| <= seg
    ensures |Chunk(s, seg, k)| == seg <==> k + 1 < BlockCount(s, seg)
    ensures k >= BlockCount(s, seg) ==> Chunk(s, seg, k) == []
  {
    RestLength(s, seg, k);
    BlockBounds(|s|, seg, k);
    assert (k + 1) * seg == k * seg + seg;
    if k > 0 {
      BlockBounds(|s|, seg, k - 1);
    }
  }

  lemma TakeDrop(s: seq<Byte>, n: nat)
    ensures Take(s, n) + Drop(s, n) == s
  {
  }

  lemma {:induction false} BlocksThenRest(s: seq<Byte>, seg: nat, k: nat)
    ensures Concat(Blocks(s, seg, k)) + Rest(s, seg, k) == s
  {
    if k == 0 {
    } else {
      BlocksThenRest(s, seg, k - 1);
      MoveBlock(Blocks(s, seg, k - 1), Rest(s, seg, k - 1), seg);
    }
  }

  /** Moving a block's worth of bytes from the rest to the blocks changes nothing in total. */
  lemma MoveBlock(bs: seq<seq<Byte>>, left: seq<Byte>, seg: nat)
    ensures Concat(bs + [Take(left, seg)]) + Drop(left, seg) == Concat(bs) + left
  {
    ConcatSnoc(bs, Take(left, seg));
    TakeDrop(left, seg);
    assert (Concat(bs) + Take(left, seg)) + Drop(left, seg) == Concat(bs) + (Take(left, seg) + Drop(left, seg));
  }

  /** The blocks of a transfer concatenate to the stream. */
  lemma BlocksCoverStream(s: seq<Byte>, seg: nat)
    requires seg > 0
    ensures Concat(Blocks(s, seg, BlockCount(s, seg))) == s
  {
    var n := BlockCount(s, seg);
    BlocksThenRest(s, seg, n);
    ChunkLength(s, seg, n);
    assert Rest(s, seg, n) == [];
  }

  /** All blocks but the last are full and the last is short. */
  lemma BlockLengths(s: seq<Byte>, seg: nat)
    requires seg > 0
    ensures var n := BlockCount(s, seg); var bs := Blocks(s, seg, n);
      (forall i :: 0 <= i < n - 1 ==> |bs[i]| == seg) && |bs[n - 1]| < seg
  {
    var n := BlockCount(s, seg);
    forall i | 0 <= i < n
      ensures |Blocks(s, seg, n)[i]| <= seg && (|Blocks(s, seg, n)[i]| == seg <==> i + 1 < n)
    {
      ChunkLength(s, seg, i);
    }
  }
}
