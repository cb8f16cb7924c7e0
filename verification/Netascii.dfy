/** The netascii transfer encoding of section 1 of RFC 1350, as pure functions on byte streams. */
module Netascii {
  import opened Chunks

  const NUL: Byte := 0
  const LF: Byte := 10
  const CR: Byte := 13

  function EncodeByte(b: Byte): seq<Byte> {
    if b == LF then [CR, LF] else if b == CR then [CR, NUL] else [b]
  }

  function Encode(s: seq<Byte>): seq<Byte> {
    if s == [] then [] else EncodeByte(s[0]) + Encode(s[1..])
  }

  /** A reader that looks one byte ahead: CR LF is a line end, CR NUL is a CR, any other CR stands for itself. */
  function Decode(s: seq<Byte>): seq<Byte> {
    if s == [] then []
    else if s[0] == CR && |s| > 1 && s[1] == LF then [LF] + Decode(s[2..])
    else if s[0] == CR && |s| > 1 && s[1] == NUL then [CR] + Decode(s[2..])
    else [s[0]] + Decode(s[1..])
  }

  /** Decoding undoes encoding on every file. */
  lemma {:induction false} DecodeEncode(s: seq<Byte>)
    ensures Decode(Encode(s)) == s
  {
    if s == [] {
    } else {
      DecodeEncode(s[1..]);
      var head, tail := EncodeByte(s[0]), Encode(s[1..]);
      assert (head + tail)[|head|..] == tail;
      assert s == [s[0]] + s[1..];
    }
  }

  /** The streams that some file encodes to: every CR opens a CR LF or CR NUL pair and no LF stands alone. */
  predicate WellFormed(s: seq<Byte>) {
    if s == [] then true
    else if s[0] == CR then |s| > 1 && (s[1] == LF || s[1] == NUL) && WellFormed(s[2..])
    else s[0] != LF && WellFormed(s[1..])
  }

  /** Encoding undoes decoding exactly on the well-formed streams. */
  lemma {:induction false} EncodeDecode(s: seq<Byte>)
    ensures Encode(Decode(s)) == s <==> WellFormed(s)
  {
    if s == [] {
    } else if s[0] == CR && |s| > 1 && (s[1] == LF || s[1] == NUL) {
      EncodeDecode(s[2..]);
      var out := Decode(s);
      assert out[1..] == Decode(s[2..]);
      assert s == s[..2] + s[2..];
      assert Encode(out) == s[..2] + Encode(Decode(s[2..]));
      assert Encode(out)[2..] == Encode(Decode(s[2..]));
    } else {
      EncodeDecode(s[1..]);
      var out := Decode(s);
      assert out[0] == s[0] && out[1..] == Decode(s[1..]);
      assert s == [s[0]] + s[1..];
      if s[0] == CR || s[0] == LF {
        assert Encode(out) == EncodeByte(s[0]) + Encode(out[1..]);
        if s[0] == CR {
          assert Encode(out)[1] == NUL;
        }
      } else {
        assert Encode(out)[1..] == Encode(Decode(s[1..]));
      }
    }
  }

  /** What one further byte does to decoded output: the streaming form of the look-ahead reader. */
  function Push(out: seq<Byte>, prev: int, c: Byte): seq<Byte> {
    if prev == CR && c == LF && out != [] then out[..|out| - 1] + [LF]
    else if prev == CR && c == NUL then out
    else out + [c]
  }

  /** The byte before the next one, or -1 at the start of the stream. */
  function Last(s: seq<Byte>): int {
    if s == [] then -1 else s[|s| - 1]
  }

  /** A stream that ends in CR decodes to output that ends in CR. */
  lemma {:induction false} DecodeKeepsFinalCr(s: seq<Byte>)
    requires Last(s) == CR
    ensures Last(Decode(s)) == CR
  {
    if |s| == 1 {
    } else if s[0] == CR && (s[1] == LF || s[1] == NUL) {
      assert Last(s[2..]) == CR;
      DecodeKeepsFinalCr(s[2..]);
    } else {
      assert Last(s[1..]) == CR;
      DecodeKeepsFinalCr(s[1..]);
    }
  }

  /** Streaming decoding agrees with the look-ahead reader, one byte at a time. */
  lemma {:induction false} DecodeSnoc(s: seq<Byte>, c: Byte)
    ensures Decode(s + [c]) == Push(Decode(s), Last(s), c)
  {
    if s == [] {
    } else if s[0] == CR && |s| > 1 && (s[1] == LF || s[1] == NUL) {
      DecodeSnoc(s[2..], c);
      assert (s + [c])[2..] == s[2..] + [c];
      assert Last(s) == if |s| == 2 then s[1] as int else Last(s[2..]);
      PushUnderHead(s, s[2..], c);
    } else if |s| == 1 {
      assert (s + [c])[1..] == [c];
      if s[0] == CR && (c == LF || c == NUL) {
        assert (s + [c])[2..] == [];
      }
    } else {
      DecodeSnoc(s[1..], c);
      assert (s + [c])[1..] == s[1..] + [c];
      assert Last(s) == Last(s[1..]);
      PushUnderHead(s, s[1..], c);
    }
  }

  /** Pushing onto decoded output leaves everything but its last byte alone. */
  lemma PushUnderHead(s: seq<Byte>, t: seq<Byte>, c: Byte)
    requires |Decode(s)| > 0 && Decode(s) == [Decode(s)[0]] + Decode(t)
    requires Last(s) == Last(t) || (t == [] && Last(s) != CR)
    ensures Push(Decode(s), Last(s), c) == [Decode(s)[0]] + Push(Decode(t), Last(t), c)
  {
    if Last(s) == CR && Last(t) == CR {
      DecodeKeepsFinalCr(t);
    }
  }

  /** One further byte lengthens the output unless it completes a pair. */
  lemma DecodeByteGrows(s: seq<Byte>, c: Byte)
    ensures |Decode(s + [c])| == |Decode(s)| + if Last(s) == CR && (c == LF || c == NUL) then 0 else 1
  {
    DecodeSnoc(s, c);
    if Last(s) == CR {
      DecodeKeepsFinalCr(s);
    }
  }

  /** No byte shortens the output, and two further bytes always lengthen it. */
  lemma {:induction false} DecodeGrows(s: seq<Byte>, b: seq<Byte>)
    ensures |Decode(s)| + (if |b| >= 2 then 1 else 0) <= |Decode(s + b)|
  {
    hide Decode;
    if b == [] {
      assert s + b == s;
    } else {
      var n := |b| - 1;
      DecodeGrows(s, b[..n]);
      DecodeByteGrows(s + b[..n], b[n]);
      assert s + b == s + b[..n] + [b[n]];
      if n == 1 {
        DecodeByteGrows(s, b[0]);
        assert s + b[..n] == s + [b[0]];
      }
    }
  }

  /** Further bytes leave the output as it is exactly when they are the NUL that completes a pair. */
  lemma DecodeUnchanged(s: seq<Byte>, b: seq<Byte>)
    requires b != []
    ensures Decode(s + b) == Decode(s) <==> Last(s) == CR && b == [NUL]
  {
    if |b| >= 2 {
      DecodeGrows(s, b);
    } else {
      assert b == [b[0]];
      DecodeSnoc(s, b[0]);
      if Last(s) == CR {
        DecodeKeepsFinalCr(s);
      }
    }
    hide Decode;
  }

  // ----- The two codes byte by byte

  lemma EncodeFirst(c: Byte, s: seq<Byte>)
    ensures Encode([c] + s) == EncodeByte(c) + Encode(s)
  {
    assert ([c] + s)[1..] == s;
    hide EncodeByte;
  }

  lemma {:induction false} EncodeAppend(a: seq<Byte>, b: seq<Byte>)
    ensures Encode(a + b) == Encode(a) + Encode(b)
  {
    if a == [] {
      assert a + b == b;
    } else {
      EncodeAppend(a[1..], b);
      hide Encode, EncodeByte;
      EncodeFirst(a[0], a[1..]);
      EncodeFirst(a[0], a[1..] + b);
      assert [a[0]] + a[1..] == a && [a[0]] + (a[1..] + b) == a + b;
      Regroup(EncodeByte(a[0]), Encode(a[1..]), Encode(b));
    }
  }

  lemma Regroup(a: seq<Byte>, b: seq<Byte>, c: seq<Byte>)
    ensures a + (b + c) == (a + b) + c
  {
  }

  /** Section 1 of RFC 1350: a line feed (10) travels as 13 10, a carriage return (13) as 13 0, any other byte as
      itself, wherever it stands in the file.
   */
  lemma EncodedByte(a: seq<Byte>, c: Byte, b: seq<Byte>)
    ensures Encode(a + [c] + b)
         == Encode(a) + (if c == 10 then [13, 10] else if c == 13 then [13, 0] else [c]) + Encode(b)
  {
    EncodeAppend(a, [c]);
    EncodeAppend(a + [c], b);
    assert [c][1..] == [] && Encode([]) == [] && Encode([c]) == EncodeByte(c);
    hide Encode;
  }

  /** Read from the front: 13 10 is a line feed, 13 0 a carriage return, and any other byte, even a 13 before another
      one or at the end, is itself.
   */
  lemma DecodedFront(c: Byte, b: seq<Byte>)
    ensures Decode([]) == []
    ensures Decode([13, 10] + b) == [10] + Decode(b) && Decode([13, 0] + b) == [13] + Decode(b)
    ensures c != 13 || b == [] || (b[0] != 10 && b[0] != 0) ==> Decode([c] + b) == [c] + Decode(b)
  {
    assert ([13, 10] + b)[2..] == b && ([13, 0] + b)[2..] == b && ([c] + b)[1..] == b;
  }
}
