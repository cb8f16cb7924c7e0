/** What the pieces of a substitution pattern put into the result, character by character. */
module PatternMeaning {
  import opened Maybe
  import opened Ascii
  import opened Substitution

  /** The piece `\c`. */
  function Escape(c: char): string {
    ['\\'] + [c]
  }

  lemma ExpandEscape(c: char, rest: string, xf: Xform, input: string, pm: seq<Group>, emit: char -> Option<string>)
    requires ValidGroups(pm, |input|)
    ensures Expand(Escape(c) + rest, xf, input, pm, emit)
         == ApplyAll(xf, EscapeText(c, input, pm, emit)) + Expand(rest, XformAfter(xf, c), input, pm, emit)
  {
    var p := Escape(c) + rest;
    assert p[0] == '\\' && p[1] == c && p[2..] == rest;
    hide ApplyAll, EscapeText, XformAfter;
  }

  /** Case escapes put nothing into the result. */
  lemma ExpandCase(c: char, rest: string, xf: Xform, input: string, pm: seq<Group>, emit: char -> Option<string>)
    requires ValidGroups(pm, |input|) && (c == 'U' || c == 'L' || c == 'E')
    ensures Expand(Escape(c) + rest, xf, input, pm, emit)
         == Expand(rest, if c == 'U' then Upper else if c == 'L' then Lower else Same, input, pm, emit)
  {
    ExpandEscape(c, rest, xf, input, pm, emit);
    hide Expand;
  }

  /** A digit puts the text of its group into the result. */
  lemma ExpandGroup(k: nat, rest: string, xf: Xform, input: string, pm: seq<Group>, emit: char -> Option<string>)
    requires ValidGroups(pm, |input|) && k < 10
    ensures Expand(Escape("0123456789"[k]) + rest, xf, input, pm, emit)
         == ApplyAll(xf, GroupText(input, pm[k])) + Expand(rest, xf, input, pm, emit)
  {
    hide Expand, ApplyAll, GroupText;
    assert IsDigit("0123456789"[k]) && DigitValue("0123456789"[k]) == k;
    ExpandEscape("0123456789"[k], rest, xf, input, pm, emit);
  }

  lemma ExpandPlain(c: char, rest: string, xf: Xform, input: string, pm: seq<Group>, emit: char -> Option<string>)
    requires ValidGroups(pm, |input|) && c != '\\'
    ensures Expand([c] + rest, xf, input, pm, emit) == ApplyAll(xf, [c]) + Expand(rest, xf, input, pm, emit)
  {
    var p := [c] + rest;
    assert p[0] == c && p[1..] == rest;
    hide ApplyAll;
  }

  lemma MapFirst(xf: Xform, c: char, text: string)
    ensures ApplyAll(xf, [c] + text) == ApplyAll(xf, [c]) + ApplyAll(xf, text)
  {
  }

  /** Quoted text comes out mapped as the pattern says at this point, whatever follows it. */
  lemma {:induction false} ExpandQuoted(text: string, rest: string, xf: Xform, input: string, pm: seq<Group>,
                                        emit: char -> Option<string>)
    requires ValidGroups(pm, |input|) && emit('\\').None?
    ensures Expand(Quote(text) + rest, xf, input, pm, emit) == ApplyAll(xf, text) + Expand(rest, xf, input, pm, emit)
  {
    hide Expand;
    if text == "" {
      assert Quote(text) + rest == rest;
    } else {
      var c, later := text[0], Quote(text[1..]) + rest;
      ExpandQuoted(text[1..], rest, xf, input, pm, emit);
      assert [c] + text[1..] == text;
      MapFirst(xf, c, text[1..]);
      hide ApplyAll;
      if c == '\\' {
        ExpandEscape(c, later, xf, input, pm, emit);
        assert Quote(text) + rest == Escape(c) + later;
      } else {
        ExpandPlain(c, later, xf, input, pm, emit);
        assert Quote(text) + rest == [c] + later;
      }
      Regroup(ApplyAll(xf, [c]), ApplyAll(xf, text[1..]), Expand(rest, xf, input, pm, emit));
    }
  }

  // ----- Case mapping

  /** `t` is `s` with 'a' to 'z' made upper case. */
  predicate InUpperCase(t: string, s: string) {
    |t| == |s| && forall i :: 0 <= i < |s| ==>
      t[i] as int == s[i] as int - (if 97 <= s[i] as int <= 122 then 32 else 0)
  }

  /** `t` is `s` with 'A' to 'Z' made lower case. */
  predicate InLowerCase(t: string, s: string) {
    |t| == |s| && forall i :: 0 <= i < |s| ==>
      t[i] as int == s[i] as int + (if 65 <= s[i] as int <= 90 then 32 else 0)
  }

  lemma MappedCase(s: string)
    ensures InUpperCase(ApplyAll(Upper, s), s) && InLowerCase(ApplyAll(Lower, s), s) && ApplyAll(Same, s) == s
  {
    SameIsIdentity(s);
  }

  lemma ExpandNone(xf: Xform, input: string, pm: seq<Group>, emit: char -> Option<string>)
    requires ValidGroups(pm, |input|)
    ensures Expand("", xf, input, pm, emit) == ""
  {
  }

  /** Text after `\U` comes out in upper case, up to an `\E`, which restores plain copying. */
  lemma UpperCasePattern(a: string, b: string, input: string, pm: seq<Group>, emit: char -> Option<string>)
    returns (upper: string)
    requires ValidGroups(pm, |input|) && emit('\\').None?
    ensures InUpperCase(upper, a)
    ensures Expand("\\U" + (Quote(a) + ("\\E" + Quote(b))), Same, input, pm, emit) == upper + b
  {
    hide Expand, ApplyAll, Quote;
    assert Escape('U') == "\\U";
    ExpandCase('U', Quote(a) + ("\\E" + Quote(b)), Same, input, pm, emit);
    TextThenEnd(a, b, Upper, input, pm, emit);
    MappedCase(a);
    upper := ApplyAll(Upper, a);
  }

  /** Text after `\L` comes out in lower case, up to an `\E`. */
  lemma LowerCasePattern(a: string, b: string, input: string, pm: seq<Group>, emit: char -> Option<string>)
    returns (lower: string)
    requires ValidGroups(pm, |input|) && emit('\\').None?
    ensures InLowerCase(lower, a)
    ensures Expand("\\L" + (Quote(a) + ("\\E" + Quote(b))), Same, input, pm, emit) == lower + b
  {
    hide Expand, ApplyAll, Quote;
    assert Escape('L') == "\\L";
    ExpandCase('L', Quote(a) + ("\\E" + Quote(b)), Same, input, pm, emit);
    TextThenEnd(a, b, Lower, input, pm, emit);
    MappedCase(a);
    lower := ApplyAll(Lower, a);
  }

  lemma TextThenEnd(a: string, b: string, xf: Xform, input: string, pm: seq<Group>, emit: char -> Option<string>)
    requires ValidGroups(pm, |input|) && emit('\\').None?
    ensures Expand(Quote(a) + ("\\E" + Quote(b)), xf, input, pm, emit) == ApplyAll(xf, a) + b
  {
    hide Expand, ApplyAll, Quote;
    assert Escape('E') == "\\E";
    ExpandQuoted(a, "\\E" + Quote(b), xf, input, pm, emit);
    ExpandCase('E', Quote(b), xf, input, pm, emit);
    QuoteIsLiteral(b, input, pm, emit);
  }

  // ----- Groups, macros and other escapes

  /** What `\0` to `\9` stand for: the text that the group matched, or nothing if it took no part. */
  lemma GroupPattern(k: nat, a: string, b: string, input: string, pm: seq<Group>, emit: char -> Option<string>)
    requires ValidGroups(pm, |input|) && emit('\\').None? && k < 10
    ensures Expand(Quote(a) + (Escape("0123456789"[k]) + Quote(b)), Same, input, pm, emit)
         == a + (if pm[k].so == -1 then "" else input[pm[k].so..pm[k].eo]) + b
  {
    hide Expand, ApplyAll, Quote;
    ExpandQuoted(a, Escape("0123456789"[k]) + Quote(b), Same, input, pm, emit);
    ExpandGroup(k, Quote(b), Same, input, pm, emit);
    QuoteIsLiteral(b, input, pm, emit);
    SameIsIdentity(a);
    SameIsIdentity(GroupText(input, pm[k]));
    Regroup(a, GroupText(input, pm[k]), b);
  }

  /** Under `\U` and `\L` the text of a group is mapped, too. */
  lemma GroupInCase(k: nat, input: string, pm: seq<Group>, emit: char -> Option<string>)
    returns (upper: string, lower: string)
    requires ValidGroups(pm, |input|) && k < 10 && pm[k].so != -1
    ensures Expand("\\U" + (Escape("0123456789"[k]) + ""), Same, input, pm, emit) == upper
    ensures Expand("\\L" + (Escape("0123456789"[k]) + ""), Same, input, pm, emit) == lower
    ensures InUpperCase(upper, input[pm[k].so..pm[k].eo]) && InLowerCase(lower, input[pm[k].so..pm[k].eo])
  {
    hide Expand, ApplyAll;
    var digit := "0123456789"[k];
    assert Escape('U') == "\\U" && Escape('L') == "\\L";
    ExpandCase('U', Escape(digit) + "", Same, input, pm, emit);
    ExpandCase('L', Escape(digit) + "", Same, input, pm, emit);
    ExpandGroup(k, "", Upper, input, pm, emit);
    ExpandGroup(k, "", Lower, input, pm, emit);
    ExpandNone(Upper, input, pm, emit);
    ExpandNone(Lower, input, pm, emit);
    MappedCase(GroupText(input, pm[k]));
    upper, lower := ApplyAll(Upper, GroupText(input, pm[k])), ApplyAll(Lower, GroupText(input, pm[k]));
  }

  /** A macro stands for what the callback writes, and any other character for itself. */
  lemma MacroPattern(m: char, a: string, b: string, input: string, pm: seq<Group>, emit: char -> Option<string>)
    requires ValidGroups(pm, |input|) && emit('\\').None? && IsMacro(m)
    ensures Expand(Quote(a) + (Escape(m) + Quote(b)), Same, input, pm, emit)
         == a + (match emit(m) case Some(text) => text case None => [m]) + b
  {
    hide Expand, ApplyAll, Quote;
    ExpandQuoted(a, Escape(m) + Quote(b), Same, input, pm, emit);
    ExpandEscape(m, Quote(b), Same, input, pm, emit);
    QuoteIsLiteral(b, input, pm, emit);
    SameIsIdentity(a);
    SameIsIdentity(EscapeText(m, input, pm, emit));
    Regroup(a, EscapeText(m, input, pm, emit), b);
  }

  /** The server's macros: `\i` is the client's address and `\x` its hexadecimal form. */
  lemma ServerMacros(ip: string, hex: string, m: char)
    ensures RewriteMacros(ip, hex).emit('i') == Some(ip) && RewriteMacros(ip, hex).emit('x') == Some(hex)
    ensures m != 'i' && m != 'x' ==> RewriteMacros(ip, hex).emit(m) == None
  {
  }

  /** The match is replaced and the rest of the subject stays; a backslash at the very end of a pattern stands for
      itself.
   */
  lemma MatchReplaced(text: string, input: string, pm: seq<Group>, emit: char -> Option<string>)
    requires ValidGroups(pm, |input|) && emit('\\').None?
    ensures Substituted(Quote(text), input, pm, emit) == input[..pm[0].so] + text + input[pm[0].eo..]
    ensures Expand("\\", Same, input, pm, emit) == "\\"
  {
    QuoteIsLiteral(text, input, pm, emit);
    ExpandNone(Same, input, pm, emit);
    assert "\\"[1..] == "";
    SameIsIdentity("\\");
    hide Quote;
  }
}
