/** The reading half of the two-buffer layer: blocks are read ahead of need, with optional netascii encoding. */
module ReadAheads {
  import opened Constants
  import opened Chunks
  import opened Netascii

  /** What reading the file through the requested conversion should yield. */
  function StreamOf(content: seq<Byte>, convert: bool): seq<Byte> {
    if convert then Encode(content) else content
  }

  /** A buffer with this count and these bytes holds exactly block `k` of the stream. */
  ghost predicate IsBlock(count: int, data: seq<Byte>, stream: seq<Byte>, seg: nat, k: nat) {
    0 <= count <= |data| && data[..count] == Chunk(stream, seg, k)
  }

  class Reader {
    const content: seq<Byte>
    const segsize: nat
    const convert: bool
    const bufs: seq<array<Byte>>

    var pos: nat
    var counters: seq<int>
    var current: nat
    var nextone: nat
    var newline: bool
    var prevchar: int

    // How many blocks have been read into buffers, and how many have been handed out.
    ghost var filled: nat
    ghost var returned: nat

    ghost predicate Shape()
      reads this
    {
      && 1 <= segsize <= MAX_SEGSIZE
      && |bufs| == 2 && bufs[0] != bufs[1]
      && bufs[0].Length == MAX_SEGSIZE && bufs[1].Length == MAX_SEGSIZE
      && |counters| == 2 && current < 2 && nextone < 2
      && pos <= |content|
    }

    /** The bytes still to come: the second half of a split pair, then the encoding of the unread file. */
    ghost function Pending(): seq<Byte>
      reads this
      requires pos <= |content|
    {
      if !convert then content[pos..]
      else if newline then [if prevchar == LF then LF else NUL] + Encode(content[pos..])
      else Encode(content[pos..])
    }

    ghost function Stream(): seq<Byte> {
      StreamOf(content, convert)
    }

    /** The next buffer has been filled ahead of need. */
    ghost predicate Ahead()
      reads this
    {
      nextone == current
    }

    ghost predicate Valid()
      reads this, bufs
    {
      && Shape()
      && (if returned == 0 then counters[current] == BF_ALLOC
          else IsBlock(counters[current], bufs[current][..], Stream(), segsize, returned - 1))
      && (if Ahead() then IsBlock(counters[1 - current], bufs[1 - current][..], Stream(), segsize, returned)
          else counters[1 - current] == BF_FREE)
      && Pending() == Rest(Stream(), segsize, filled)
      && filled == (if Ahead() then returned + 1 else returned)
    }

    /** The bytes behind the pointer that `readit` handed out: always the block returned last. */
    function Outgoing(): (block: seq<Byte>)
      reads this, bufs
      requires Valid() && returned > 0
      ensures block == Chunk(Stream(), segsize, returned - 1)
    {
      bufs[current][..counters[current]]
    }

    /** `r_init` */
    constructor (content: seq<Byte>, segsize: nat, convert: bool)
      requires 1 <= segsize <= MAX_SEGSIZE
      ensures Valid() && fresh(bufs) && returned == 0
      ensures this.content == content && this.segsize == segsize && this.convert == convert
    {
      this.content := content;
      this.segsize := segsize;
      this.convert := convert;
      var b0 := new Byte[MAX_SEGSIZE];
      var b1 := new Byte[MAX_SEGSIZE];
      bufs := [b0, b1];
      newline := false;
      prevchar := -1;
      counters := [BF_ALLOC, BF_FREE];
      current := 0;
      nextone := 1;
      pos := 0;
      filled, returned := 0, 0;
    }

    /** One round of the byte loop: finish a split pair, or take a byte from the file and maybe open a pair. */
    method NextByte() returns (eof: bool, c: Byte)
      requires pos <= |content| && convert
      modifies this`pos, this`newline, this`prevchar
      ensures pos <= |content|
      ensures eof ==> old(Pending()) == [] && Pending() == []
      ensures !eof ==> old(Pending()) == [c] + Pending()
    {
      eof := false;
      if newline {
        c := if prevchar == LF then LF else NUL;
        newline := false;
      } else if pos == |content| {
        eof, c := true, NUL;
      } else {
        assert content[pos..][1..] == content[pos + 1..];
        c := content[pos];
        pos := pos + 1;
        if c == LF || c == CR {
          prevchar := c;
          c := CR;
          newline := true;
        }
      }
    }

    /** The byte loop of `read_ahead`: fill a buffer through the encoder. */
    method FillEncoded(b: array<Byte>) returns (n: nat)
      requires pos <= |content| && convert && segsize <= b.Length
      modifies this`pos, this`newline, this`prevchar, b
      ensures pos <= |content|
      ensures n == |Take(old(Pending()), segsize)|
      ensures b[..n] == Take(old(Pending()), segsize)
      ensures Pending() == Drop(old(Pending()), segsize)
    {
      hide Encode;
      ghost var all := Pending();
      n := 0;
      while n < segsize
        invariant n <= segsize && n <= |all| && pos <= |content|
        invariant b[..n] == all[..n]
        invariant Pending() == all[n..]
      {
        var eof, c := NextByte();
        if eof {
          break;
        }
        assert all[n] == all[n..][0];
        assert all[n..][1..] == all[n + 1..];
        b[n] := c;
        n := n + 1;
      }
    }

    /** The plain `read` of `read_ahead`. */
    method FillPlain(b: array<Byte>) returns (n: nat)
      requires pos <= |content| && !convert && segsize <= b.Length
      modifies this`pos, b
      ensures pos <= |content|
      ensures n == |Take(old(Pending()), segsize)|
      ensures b[..n] == Take(old(Pending()), segsize)
      ensures Pending() == Drop(old(Pending()), segsize)
    {
      n := if |content| - pos <= segsize then |content| - pos else segsize;
      forall i | 0 <= i < n {
        b[i] := content[pos + i];
      }
      assert b[..n] == content[pos..pos + n];
      assert content[pos..pos + n] == content[pos..][..n];
      assert content[pos..][n..] == content[pos + n..];
      pos := pos + n;
    }

    /** `read_ahead`: a free next buffer takes the next block, and nothing else changes. */
    method ReadAhead()
      requires Shape() && Pending() == Rest(Stream(), segsize, filled)
      modifies this, bufs[nextone]
      ensures Shape() && current == old(current) && returned == old(returned)
      ensures Pending() == Rest(Stream(), segsize, filled)
      ensures old(counters[nextone]) != BF_FREE ==>
        nextone == old(nextone) && counters == old(counters) && filled == old(filled)
        && bufs[nextone][..] == old(bufs[nextone][..])
      ensures old(counters[nextone]) == BF_FREE ==>
        && nextone == 1 - old(nextone)
        && counters[1 - old(nextone)] == old(counters[1 - nextone])
        && IsBlock(counters[old(nextone)], bufs[old(nextone)][..], Stream(), segsize, old(filled))
        && filled == old(filled) + 1
    {
      hide Encode, Drop;
      var b := nextone;
      if counters[b] != BF_FREE {
        return;
      }
      nextone := 1 - nextone;
      var n: nat;
      if convert {
        n := FillEncoded(bufs[b]);
      } else {
        n := FillPlain(bufs[b]);
      }
      counters := counters[b := n];
      filled := filled + 1;
    }

    /** `read_ahead` as called while a block waits for its acknowledgement: that block stays as it is. */
    method Prefetch()
      requires Valid()
      modifies this, bufs
      ensures Valid() && Ahead()
      ensures returned == old(returned) && current == old(current)
      ensures counters[current] == old(counters[current])
      ensures bufs[current][..] == old(bufs[current][..])
    {
      ReadAhead();
    }

    /** `readit`: the caller gets the blocks of the stream one after another. */
    method ReadIt() returns (size: nat)
      requires Valid()
      modifies this, bufs
      ensures Valid() && returned == old(returned) + 1
      ensures size == |Chunk(Stream(), segsize, old(returned))| <= segsize
      ensures Outgoing() == Chunk(Stream(), segsize, old(returned))
    {
      hide Encode, Rest, Chunk;
      counters := counters[current := BF_FREE];
      current := 1 - current;
      if counters[current] == BF_FREE {
        ReadAhead();
      }
      returned := returned + 1;
      size := counters[current];
    }
  }
}
