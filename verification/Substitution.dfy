/** The \-substitution of the filename remap engine: measure first, then write into a buffer of exactly that size. */
module Substitution {
  import opened Ascii
  import opened Maybe

  /** Where a group matched; `so` is -1 for a group that took no part. */
  datatype Group = Group(so: int, eo: int)

  predicate ValidGroups(pm: seq<Group>, len: nat) {
    && |pm| == 10 && pm[0].so != -1
    && forall i :: 0 <= i < 10 ==> pm[i].so == -1 || 0 <= pm[i].so <= pm[i].eo <= len
  }

  datatype Xform = Same | Upper | Lower

  function Apply(xf: Xform, c: char): char {
    match xf
    case Same => c
    case Upper => UpperChar(c)
    case Lower => LowerChar(c)
  }

  function ApplyAll(xf: Xform, s: string): (t: string)
    ensures |t| == |s|
    ensures forall i :: 0 <= i < |s| ==> t[i] == Apply(xf, s[i])
  {
    if s == "" then "" else [Apply(xf, s[0])] + ApplyAll(xf, s[1..])
  }

  /** The macro callback: what it returns without a buffer (negative for failure), and what it writes into one. */
  datatype Callback = Callback(measure: char -> int, emit: char -> Option<string>)

  /** The contract of the callback, for the macros that a pattern uses: its answer does not depend on having a buffer.
   */
  ghost predicate KeepsContract(cb: Callback, pattern: string) {
    forall c :: IsMacro(c) && MacroUses(pattern, c) > 0 ==> ConsistentAt(cb, c)
  }

  /** What is neither a group number nor a case mapping is a macro. */
  predicate IsMacro(c: char) {
    !IsDigit(c) && c != 'L' && c != 'U' && c != 'E'
  }

  predicate ConsistentAt(cb: Callback, c: char) {
    match cb.emit(c)
    case None => cb.measure(c) < 0
    case Some(text) => cb.measure(c) == |text|
  }

  // ----- What a pattern stands for

  function GroupText(input: string, g: Group): string
    requires g.so == -1 || 0 <= g.so <= g.eo <= |input|
  {
    if g.so == -1 then "" else input[g.so..g.eo]
  }

  /** Does the pattern start with a backslash that escapes something? */
  predicate IsEscape(pattern: string) {
    |pattern| > 1 && pattern[0] == '\\'
  }

  /** The case mapping in force after the escape `\m`. */
  function XformAfter(xf: Xform, m: char): Xform {
    if m == 'L' then Lower else if m == 'U' then Upper else if m == 'E' then Same else xf
  }

  /** The text that the escape `\m` stands for, before case mapping. */
  function EscapeText(m: char, input: string, pm: seq<Group>, emit: char -> Option<string>): string
    requires ValidGroups(pm, |input|)
  {
    if IsDigit(m) then GroupText(input, pm[DigitValue(m)])
    else if m == 'L' || m == 'U' || m == 'E' then ""
    else match emit(m) case Some(text) => text case None => [m]
  }

  /** The expansion of a pattern under a running case mapping. */
  function Expand(pattern: string, xf: Xform, input: string, pm: seq<Group>, emit: char -> Option<string>): string
    requires ValidGroups(pm, |input|)
  {
    if pattern == "" then ""
    else if IsEscape(pattern) then
      ApplyAll(xf, EscapeText(pattern[1], input, pm, emit)) +
      Expand(pattern[2..], XformAfter(xf, pattern[1]), input, pm, emit)
    else ApplyAll(xf, [pattern[0]]) + Expand(pattern[1..], xf, input, pm, emit)
  }

  /** The subject with its match replaced by the expansion of the pattern. */
  function Substituted(pattern: string, input: string, pm: seq<Group>, emit: char -> Option<string>): string
    requires ValidGroups(pm, |input|)
  {
    input[..pm[0].so] + Expand(pattern, Same, input, pm, emit) + input[pm[0].eo..]
  }

  // ----- The measuring pass

  function EscapeLength(m: char, pm: seq<Group>, measure: char -> int): nat
    requires |pm| == 10 && forall i :: 0 <= i < 10 ==> pm[i].so == -1 || pm[i].so <= pm[i].eo
  {
    if IsDigit(m) then
      var g := pm[DigitValue(m)];
      if g.so == -1 then 0 else g.eo - g.so
    else if m == 'L' || m == 'U' || m == 'E' then 0
    else if measure(m) >= 0 then measure(m) else 1
  }

  function MeasuredLength(pattern: string, pm: seq<Group>, measure: char -> int): nat
    requires |pm| == 10 && forall i :: 0 <= i < 10 ==> pm[i].so == -1 || pm[i].so <= pm[i].eo
  {
    if pattern == "" then 0
    else if IsEscape(pattern) then
      EscapeLength(pattern[1], pm, measure) + MeasuredLength(pattern[2..], pm, measure)
    else 1 + MeasuredLength(pattern[1..], pm, measure)
  }

  function Measured(pattern: string, input: string, pm: seq<Group>, measure: char -> int): nat
    requires ValidGroups(pm, |input|)
  {
    pm[0].so + MeasuredLength(pattern, pm, measure) + (|input| - pm[0].eo)
  }

  /** How often the pattern uses the macro `\m`. */
  function MacroUses(pattern: string, m: char): nat {
    if pattern == "" then 0
    else if IsEscape(pattern) then (if pattern[1] == m then 1 else 0) + MacroUses(pattern[2..], m)
    else MacroUses(pattern[1..], m)
  }

  function Times(n: nat, d: int): int {
    if n == 0 then 0 else d + Times(n - 1, d)
  }

  lemma TimesIsProduct(n: nat, d: int)
    ensures Times(n, d) == n * d
  {
  }

  /** A callback that keeps its contract except for one macro falls short by that macro's deficit, once per use. */
  lemma {:induction false} MeasureDeficit(pattern: string, xf: Xform, input: string, pm: seq<Group>, cb: Callback,
                                          m: char)
    requires ValidGroups(pm, |input|)
    requires forall c :: c != m ==> ConsistentAt(cb, c)
    requires !IsDigit(m) && m != 'L' && m != 'U' && m != 'E' && cb.emit(m).Some? && cb.measure(m) >= 0
    ensures |Expand(pattern, xf, input, pm, cb.emit)|
         == MeasuredLength(pattern, pm, cb.measure) + Times(MacroUses(pattern, m), |cb.emit(m).value| - cb.measure(m))
  {
    if pattern == "" {
    } else if IsEscape(pattern) {
      MeasureDeficit(pattern[2..], XformAfter(xf, pattern[1]), input, pm, cb, m);
      assert pattern[1] != m ==> ConsistentAt(cb, pattern[1]);
    } else {
      MeasureDeficit(pattern[1..], xf, input, pm, cb, m);
    }
  }

  lemma ContractOfRest(cb: Callback, pattern: string)
    requires pattern != "" && KeepsContract(cb, pattern)
    ensures KeepsContract(cb, pattern[if IsEscape(pattern) then 2 else 1..])
    ensures IsEscape(pattern) && IsMacro(pattern[1]) ==> ConsistentAt(cb, pattern[1])
  {
    forall c ensures MacroUses(pattern, c) >= MacroUses(pattern[if IsEscape(pattern) then 2 else 1..], c) {
    }
    assert IsEscape(pattern) ==> MacroUses(pattern, pattern[1]) > 0;
  }

  /** The two passes agree on every pattern and subject for a callback that keeps its contract on the pattern. */
  lemma {:induction false} PassesAgree(pattern: string, xf: Xform, input: string, pm: seq<Group>, cb: Callback)
    requires ValidGroups(pm, |input|) && KeepsContract(cb, pattern)
    ensures |Expand(pattern, xf, input, pm, cb.emit)| == MeasuredLength(pattern, pm, cb.measure)
  {
    hide KeepsContract;
    if pattern == "" {
    } else {
      ContractOfRest(cb, pattern);
      if IsEscape(pattern) {
        PassesAgree(pattern[2..], XformAfter(xf, pattern[1]), input, pm, cb);
      } else {
        PassesAgree(pattern[1..], xf, input, pm, cb);
      }
    }
  }

  /** `rewrite_macros` for a client at address `ip`, whose hexadecimal form is `hex`: \x counts 0 without a buffer. */
  function RewriteMacros(ip: string, hex: string): Callback {
    Callback(c => if c == 'i' then |ip| else if c == 'x' then 0 else -1,
             c => if c == 'i' then Some(ip) else if c == 'x' then Some(hex) else None)
  }

  /** The server's own callback keeps its contract exactly on the patterns that do not use \x. */
  lemma ServerMacrosKeep(pattern: string, ip: string, hex: string)
    requires |hex| > 0
    ensures KeepsContract(RewriteMacros(ip, hex), pattern) <==> MacroUses(pattern, 'x') == 0
  {
    var cb := RewriteMacros(ip, hex);
    assert forall c :: ConsistentAt(cb, c) <==> c != 'x';
    assert IsMacro('x');
  }

  /** With the server's own callback the measured length is right exactly for the patterns that do not use \x. */
  lemma ServerMacrosAgree(pattern: string, input: string, pm: seq<Group>, ip: string, hex: string)
    requires ValidGroups(pm, |input|) && |hex| > 0
    ensures var cb := RewriteMacros(ip, hex);
      Measured(pattern, input, pm, cb.measure) == |Substituted(pattern, input, pm, cb.emit)| <==>
        MacroUses(pattern, 'x') == 0
  {
    var cb := RewriteMacros(ip, hex);
    MeasureDeficit(pattern, Same, input, pm, cb, 'x');
    TimesIsProduct(MacroUses(pattern, 'x'), |hex|);
    hide Expand, MeasuredLength, MacroUses, Times;
  }

  // ----- What patterns can say

  /** A pattern for a literal text: backslashes are doubled. */
  function Quote(text: string): string {
    if text == "" then "" else (if text[0] == '\\' then "\\\\" else [text[0]]) + Quote(text[1..])
  }

  /** Every text can be written as a pattern, provided the callback does not claim the backslash. */
  lemma {:induction false} QuoteIsLiteral(text: string, input: string, pm: seq<Group>, emit: char -> Option<string>)
    requires ValidGroups(pm, |input|) && emit('\\').None?
    ensures Expand(Quote(text), Same, input, pm, emit) == text
  {
    if text == "" {
    } else {
      QuoteIsLiteral(text[1..], input, pm, emit);
      var head, q := (if text[0] == '\\' then "\\\\" else [text[0]]), Quote(text);
      assert q[|head|..] == Quote(text[1..]);
      assert ApplyAll(Same, [text[0]]) == [text[0]];
      assert text == [text[0]] + text[1..];
    }
  }

  /** The pattern \0 puts back what was matched. */
  lemma WholeMatchIsIdentity(input: string, pm: seq<Group>, emit: char -> Option<string>)
    requires ValidGroups(pm, |input|)
    ensures Substituted("\\0", input, pm, emit) == input
  {
    var p := "\\0";
    assert p[2..] == "" && IsEscape(p) && DigitValue(p[1]) == 0;
    var g := GroupText(input, pm[0]);
    assert ApplyAll(Same, g) == g;
    assert Expand(p, Same, input, pm, emit) == g + "" == g;
  }

  // ----- The code

  /** Copy `src` to the buffer at `pos`, mapping each character. */
  method CopyMapped(dest: array<char>, pos: nat, src: string, xf: Xform)
    requires pos + |src| <= dest.Length
    modifies dest
    ensures dest[..pos + |src|] == old(dest[..pos]) + ApplyAll(xf, src)
  {
    for i := 0 to |src|
      invariant dest[..pos] == old(dest[..pos])
      invariant forall k :: 0 <= k < i ==> dest[pos + k] == Apply(xf, src[k])
    {
      dest[pos + i] := Apply(xf, src[i]);
    }
    assert dest[..pos + |src|] == dest[..pos] + dest[pos..pos + |src|];
    assert dest[pos..pos + |src|] == ApplyAll(xf, src);
  }

  /** The callback writes its text, which is then mapped in place. */
  method EmitMapped(dest: array<char>, pos: nat, text: string, xf: Xform)
    requires pos + |text| <= dest.Length
    modifies dest
    ensures dest[..pos + |text|] == old(dest[..pos]) + ApplyAll(xf, text)
  {
    forall i | 0 <= i < |text| {
      dest[pos + i] := text[i];
    }
    for i := 0 to |text|
      invariant dest[..pos] == old(dest[..pos])
      invariant forall k :: 0 <= k < i ==> dest[pos + k] == Apply(xf, text[k])
      invariant forall k :: i <= k < |text| ==> dest[pos + k] == text[k]
    {
      dest[pos + i] := Apply(xf, dest[pos + i]);
    }
    assert dest[..pos + |text|] == dest[..pos] + dest[pos..pos + |text|];
    assert dest[pos..pos + |text|] == ApplyAll(xf, text);
  }

  /** `genmatchstring` without a buffer */
  method MeasureMatchString(pattern: string, input: string, pm: seq<Group>, cb: Callback) returns (len: nat)
    requires ValidGroups(pm, |input|)
    ensures len == Measured(pattern, input, pm, cb.measure)
  {
    len := pm[0].so + (|input| - pm[0].eo);
    var p := 0;
    while p < |pattern|
      invariant p <= |pattern|
      invariant len + MeasuredLength(pattern[p..], pm, cb.measure) == Measured(pattern, input, pm, cb.measure)
    {
      if pattern[p] == '\\' && p + 1 < |pattern| {
        var m := pattern[p + 1];
        assert pattern[p..][1] == m && pattern[p..][2..] == pattern[p + 2..];
        if IsDigit(m) {
          var g := pm[DigitValue(m)];
          if g.so != -1 {
            len := len + (g.eo - g.so);
          }
        } else if m != 'L' && m != 'U' && m != 'E' {
          var sublen := cb.measure(m);
          len := len + if sublen >= 0 then sublen else 1;
        }
        p := p + 2;
      } else {
        assert pattern[p..][1..] == pattern[p + 1..];
        len := len + 1;
        p := p + 1;
      }
    }
  }

  /** `genmatchstring` with a buffer: the result and its terminator fit, and the number returned is the length written.
   */
  method WriteMatchString(dest: array<char>, pattern: string, input: string, pm: seq<Group>, cb: Callback)
    returns (len: nat)
    requires ValidGroups(pm, |input|)
    requires |Substituted(pattern, input, pm, cb.emit)| < dest.Length
    modifies dest
    ensures len == |Substituted(pattern, input, pm, cb.emit)|
    ensures dest[..len] == Substituted(pattern, input, pm, cb.emit) && dest[len] == '\0'
  {
    var so, tail := pm[0].so, input[pm[0].eo..];
    CopyMapped(dest, 0, input[..so], Same);
    SameIsIdentity(input[..so]);
    assert dest[..so] == input[..so];
    hide Expand;
    var pos := WritePieces(dest, so, pattern, input, pm, cb);
    WriteTail(dest, pos, tail);
    len := pos + |tail|;
  }

  /** The loop over the pattern, under the running case mapping. */
  method WritePieces(dest: array<char>, start: nat, pattern: string, input: string, pm: seq<Group>, cb: Callback)
    returns (pos: nat)
    requires ValidGroups(pm, |input|)
    requires start + |Expand(pattern, Same, input, pm, cb.emit)| <= dest.Length
    modifies dest
    ensures pos == start + |Expand(pattern, Same, input, pm, cb.emit)|
    ensures dest[..pos] == old(dest[..start]) + Expand(pattern, Same, input, pm, cb.emit)
  {
    hide Expand, ApplyAll, EscapeText;
    ghost var goal := dest[..start] + Expand(pattern, Same, input, pm, cb.emit);
    var xf, p := Same, 0;
    pos := start;
    assert pattern[0..] == pattern;
    while p < |pattern|
      invariant p <= |pattern| && pos <= dest.Length
      invariant goal == dest[..pos] + Expand(pattern[p..], xf, input, pm, cb.emit)
    {
      MovePiece(dest[..pos], pattern[p..], xf, input, pm, cb.emit);
      if pattern[p] == '\\' && p + 1 < |pattern| {
        pos := WriteEscape(dest, pos, pattern[p + 1], xf, input, pm, cb);
        xf := XformAfter(xf, pattern[p + 1]);
        p := p + 2;
        assert pattern[p - 2..][2..] == pattern[p..];
      } else {
        CopyMapped(dest, pos, [pattern[p]], xf);
        pos := pos + 1;
        p := p + 1;
        assert pattern[p - 1..][1..] == pattern[p..];
      }
    }
    ExpandNothing(pattern[p..], xf, input, pm, cb.emit);
  }

  /** The section after the match, and the terminator. */
  method WriteTail(dest: array<char>, pos: nat, tail: string)
    requires pos + |tail| < dest.Length
    modifies dest
    ensures dest[..pos + |tail|] == old(dest[..pos]) + tail && dest[pos + |tail|] == '\0'
  {
    CopyMapped(dest, pos, tail, Same);
    SameIsIdentity(tail);
    dest[pos + |tail|] := '\0';
  }

  lemma SameIsIdentity(s: string)
    ensures ApplyAll(Same, s) == s
  {
  }

  /** The text of the first piece of a pattern: an escape or a single character. */
  function Piece(pattern: string, input: string, pm: seq<Group>, emit: char -> Option<string>): string
    requires ValidGroups(pm, |input|) && pattern != ""
  {
    if IsEscape(pattern) then EscapeText(pattern[1], input, pm, emit) else [pattern[0]]
  }

  /** The first piece of the pattern may be moved over to what is already done. */
  lemma MovePiece(done: string, pattern: string, xf: Xform, input: string, pm: seq<Group>, emit: char -> Option<string>)
    requires ValidGroups(pm, |input|) && pattern != ""
    ensures var piece := ApplyAll(xf, Piece(pattern, input, pm, emit));
      var later := if IsEscape(pattern) then Expand(pattern[2..], XformAfter(xf, pattern[1]), input, pm, emit)
                   else Expand(pattern[1..], xf, input, pm, emit);
      done + Expand(pattern, xf, input, pm, emit) == (done + piece) + later
  {
    hide ApplyAll, EscapeText, XformAfter;
    var piece := ApplyAll(xf, Piece(pattern, input, pm, emit));
    var later := if IsEscape(pattern) then Expand(pattern[2..], XformAfter(xf, pattern[1]), input, pm, emit)
                 else Expand(pattern[1..], xf, input, pm, emit);
    assert Expand(pattern, xf, input, pm, emit) == piece + later;
    hide Expand;
    Regroup(done, piece, later);
  }

  lemma Regroup(a: string, b: string, c: string)
    ensures a + (b + c) == (a + b) + c
  {
  }

  /** The cases of the `switch`: write what the escape stands for. */
  method WriteEscape(dest: array<char>, pos: nat, m: char, xf: Xform, input: string, pm: seq<Group>, cb: Callback)
    returns (pos': nat)
    requires ValidGroups(pm, |input|) && pos + |EscapeText(m, input, pm, cb.emit)| <= dest.Length
    modifies dest
    ensures pos' == pos + |EscapeText(m, input, pm, cb.emit)|
    ensures dest[..pos'] == old(dest[..pos]) + ApplyAll(xf, EscapeText(m, input, pm, cb.emit))
  {
    pos' := pos;
    if IsDigit(m) {
      var g := pm[DigitValue(m)];
      if g.so != -1 {
        CopyMapped(dest, pos, input[g.so..g.eo], xf);
        pos' := pos + (g.eo - g.so);
      }
    } else if m != 'L' && m != 'U' && m != 'E' {
      match cb.emit(m) {
        case Some(text) =>
          EmitMapped(dest, pos, text, xf);
          pos' := pos + |text|;
        case None =>
          CopyMapped(dest, pos, [m], xf);
          pos' := pos + 1;
      }
    }
  }

  lemma ExpandNothing(pattern: string, xf: Xform, input: string, pm: seq<Group>, emit: char -> Option<string>)
    requires ValidGroups(pm, |input|) && pattern == ""
    ensures Expand(pattern, xf, input, pm, emit) == ""
  {
  }

  /** Measure, allocate one byte more, write: for a callback that keeps its contract the buffer is filled exactly. */
  method SubstituteMatch(pattern: string, input: string, pm: seq<Group>, cb: Callback) returns (result: string)
    requires ValidGroups(pm, |input|) && KeepsContract(cb, pattern)
    ensures result == Substituted(pattern, input, pm, cb.emit)
  {
    PassesAgree(pattern, Same, input, pm, cb);
    var len := MeasureMatchString(pattern, input, pm, cb);
    var buffer := new char[len + 1];
    var written := WriteMatchString(buffer, pattern, input, pm, cb);
    assert written == len;
    result := buffer[..written];
  }
}
