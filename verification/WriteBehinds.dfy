/** The writing half of the two-buffer layer: blocks are written behind, with optional netascii decoding in place. */
module WriteBehinds {
  import opened Constants
  import opened Chunks
  import opened Netascii

  /** What the received bytes should leave in the file. */
  function FileOf(received: seq<Byte>, convert: bool): seq<Byte> {
    if convert then Decode(received) else received
  }

  class Writer {
    const convert: bool
    const bufs: seq<array<Byte>>

    // The output file and the position of its write cursor.
    var file: seq<Byte>
    var pos: nat

    var counters: seq<int>
    var current: nat
    var nextone: nat
    var prevchar: int

    // Everything accepted from the network, and the part of it that has been written out.
    ghost var received: seq<Byte>
    ghost var flushed: seq<Byte>

    ghost predicate Shape()
      reads this
    {
      && |bufs| == 2 && bufs[0] != bufs[1]
      && bufs[0].Length == MAX_SEGSIZE && bufs[1].Length == MAX_SEGSIZE
      && |counters| == 2 && current < 2 && nextone < 2
    }

    /** The file is exactly the decoding of what was flushed, and the converter remembers its last byte. */
    ghost predicate InStep()
      reads this
    {
      && pos == |file| && file == FileOf(flushed, convert)
      && (convert ==> prevchar == Last(flushed))
    }

    /** A block waits to be written behind. */
    ghost predicate Behind()
      reads this
    {
      nextone != current
    }

    ghost predicate Valid()
      reads this, bufs
    {
      && Shape() && InStep()
      && counters[current] == BF_ALLOC
      && (if Behind()
          then 0 <= counters[nextone] <= MAX_SEGSIZE
               && received == flushed + bufs[nextone][..counters[nextone]]
          else counters[1 - current] == BF_FREE && received == flushed)
    }

    /** `w_init` on an empty file */
    constructor (convert: bool)
      ensures Valid() && fresh(bufs) && received == [] && !Behind() && this.convert == convert
      ensures flushed == [] && file == []
    {
      this.convert := convert;
      var b0 := new Byte[MAX_SEGSIZE];
      var b1 := new Byte[MAX_SEGSIZE];
      bufs := [b0, b1];
      file, pos := [], 0;
      counters := [BF_ALLOC, BF_FREE];
      current, nextone := 0, 0;
      prevchar := -1;
      received, flushed := [], [];
    }

    /** `putc`: overwrite under the cursor or append. */
    method PutC(c: Byte)
      requires pos <= |file|
      modifies this`file, this`pos
      ensures pos == old(pos) + 1
      ensures file == old(file)[..old(pos)] + [c] + if old(pos) < |old(file)| then old(file)[old(pos) + 1..] else []
    {
      file := if pos < |file| then file[pos := c] else file + [c];
      pos := pos + 1;
    }

    /** The body of the conversion loop of `write_behind`. The seek back over the last byte always lands on a CR. */
    method WriteDecoded(c: Byte)
      requires convert && InStep()
      modifies this`file, this`pos, this`prevchar, this`flushed
      ensures flushed == old(flushed) + [c] && InStep()
    {
      DecodeSnoc(flushed, c);
      if prevchar == CR {
        DecodeKeepsFinalCr(flushed);
      }
      hide Decode;
      var skip := false;
      if prevchar == CR {
        if c == LF {
          pos := pos - 1;
          assert file[pos] == CR;
        } else if c == NUL {
          skip := true;
        }
      }
      if !skip {
        PutC(c);
      }
      prevchar := c;
      flushed := flushed + [c];
    }

    /** `write_behind`: the waiting block, if any, goes to the file; afterwards nothing waits. */
    method WriteBehind() returns (written: int)
      requires Shape() && InStep()
      requires counters[nextone] <= MAX_SEGSIZE
      modifies this`file, this`pos, this`prevchar, this`counters, this`nextone, this`flushed
      ensures current == old(current) && InStep() && |counters| == 2
      ensures old(counters[nextone]) < -1 ==>
        written == 0 && nextone == old(nextone) && counters == old(counters) && flushed == old(flushed)
      ensures old(counters[nextone]) >= -1 ==>
        && nextone == 1 - old(nextone) && counters == old(counters)[old(nextone) := BF_FREE]
        && (var n := old(counters[nextone]); flushed == old(flushed) + bufs[old(nextone)][..if n < 0 then 0 else n])
        && written == if old(counters[nextone]) <= 0 then -1 else old(counters[nextone])
    {
      hide Decode;
      var b := nextone;
      if counters[b] < -1 {
        return 0;
      }
      var count := counters[b];
      counters := counters[b := BF_FREE];
      nextone := 1 - nextone;
      if count <= 0 {
        return -1;
      }
      ghost var before := flushed;
      if !convert {
        file := file + bufs[b][..count];
        pos := pos + count;
        flushed := flushed + bufs[b][..count];
        return count;
      }
      var i := 0;
      while i < count
        modifies this`file, this`pos, this`prevchar, this`flushed
        invariant 0 <= i <= count
        invariant InStep() && flushed == before + bufs[b][..i]
      {
        WriteDecoded(bufs[b][i]);
        i := i + 1;
        assert bufs[b][..i] == bufs[b][..i - 1] + [bufs[b][i - 1]];
      }
      return count;
    }

    /** `write_behind` as called after sending an acknowledgement, and once more at the end of the transfer. */
    method Flush()
      requires Valid()
      modifies this
      ensures Valid() && !Behind() && received == old(received) && current == old(current)
      ensures flushed == received && file == FileOf(received, convert)
    {
      hide Decode;
      var written := WriteBehind();
    }

    /** A packet arrives in the buffer handed out to the receive call; blocks that wait are not disturbed. */
    method Deposit(payload: seq<Byte>)
      requires Valid() && |payload| <= MAX_SEGSIZE
      modifies bufs
      ensures Valid() && bufs[current][..|payload|] == payload
    {
      hide Decode;
      var b := bufs[current];
      ghost var waiting := bufs[1 - current][..];
      forall i | 0 <= i < |payload| {
        b[i] := payload[i];
      }
      assert bufs[1 - current][..] == waiting;
      if Behind() {
        assert nextone == 1 - current;
        assert bufs[nextone][..counters[nextone]] == waiting[..counters[nextone]];
      }
    }

    /** `writeit`: accept the first `ct` bytes of the current buffer; only older blocks are sure to be in the file. */
    method WriteIt(ct: nat) returns (r: int)
      requires Valid() && ct <= MAX_SEGSIZE
      modifies this
      ensures Valid() && Behind() && r == ct
      ensures received == old(received) + old(bufs[current][..ct])
      ensures flushed == old(received) && file == FileOf(flushed, convert)
    {
      hide Decode;
      ghost var block := bufs[current][..ct];
      assert Behind() ==> nextone == 1 - current;
      counters := counters[current := ct];
      current := 1 - current;
      if counters[current] != BF_FREE {
        var written := WriteBehind();
      }
      counters := counters[current := BF_ALLOC];
      received := received + block;
      r := ct;
    }
  }
}
