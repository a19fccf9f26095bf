/** The C-string escaper: several whole-string replacements that amount to one left-to-right rewrite. */
module StringEscaper {

  const BACKSLASH: char := '\\'
  const QUOTE: char := '\"'
  const PERCENT: char := '%'
  const CR: char := '\r'
  const LF: char := '\n'
  const CRLF: string := [CR, LF]

  /** boost::algorithm::replace_all: every occurrence from the left, the inserted text not looked at again. */
  function ReplaceAll(input: string, search: string, format: string): string
    requires |search| > 0
    decreases |input|
  {
    if |input| < |search| then input
    else if input[..|search|] == search then format + ReplaceAll(input[|search|..], search, format)
    else [input[0]] + ReplaceAll(input[1..], search, format)
  }

  method EscapeString(text: string, escapePercent: bool, insertBackslashToEnd: bool) returns (input: string)
    ensures input == Escaped(text, escapePercent, insertBackslashToEnd)
  {
    input := text;
    input := ReplaceAll(input, [BACKSLASH], [BACKSLASH, BACKSLASH]);
    input := ReplaceAll(input, [QUOTE], [BACKSLASH, QUOTE]);
    if escapePercent {
      input := ReplaceAll(input, [PERCENT], [PERCENT, PERCENT]);
    }
    if insertBackslashToEnd {
      input := ReplaceAll(input, CRLF, [BACKSLASH] + CRLF);
    }
    PassesAreOneRewrite(text, escapePercent, insertBackslashToEnd);
  }

  /** What one character becomes, line ends apart. */
  function EscapedChar(c: char, percent: bool): string
  {
    if c == BACKSLASH then [BACKSLASH, BACKSLASH]
    else if c == QUOTE then [BACKSLASH, QUOTE]
    else if c == PERCENT && percent then [PERCENT, PERCENT]
    else [c]
  }

  /** The one left-to-right rewrite. */
  function Escaped(text: string, percent: bool, lineEnds: bool): string
  {
    if |text| == 0 then ""
    else if lineEnds && |text| >= 2 && text[..2] == CRLF then
      [BACKSLASH] + CRLF + Escaped(text[2..], percent, lineEnds)
    else EscapedChar(text[0], percent) + Escaped(text[1..], percent, lineEnds)
  }

  /** Replacing one character is a character-wise rewrite. */
  function Mapped(text: string, c: char, format: string): string
  {
    if |text| == 0 then "" else (if text[0] == c then format else [text[0]]) + Mapped(text[1..], c, format)
  }

  lemma {:induction false} ReplaceCharIsMap(text: string, c: char, format: string)
    ensures ReplaceAll(text, [c], format) == Mapped(text, c, format)
  {
    if |text| > 0 {
      assert text[..1] == [text[0]];
      ReplaceCharIsMap(text[1..], c, format);
    }
  }

  lemma {:induction false} MappedAppends(s: string, t: string, c: char, format: string)
    ensures Mapped(s + t, c, format) == Mapped(s, c, format) + Mapped(t, c, format)
  {
    if |s| == 0 {
      assert s + t == t;
    } else {
      assert (s + t)[1..] == s[1..] + t;
      MappedAppends(s[1..], t, c, format);
    }
  }

  /** The passes before the line-end pass. */
  function CharPasses(text: string, percent: bool): string
  {
    var quoted := Mapped(Mapped(text, BACKSLASH, [BACKSLASH, BACKSLASH]), QUOTE, [BACKSLASH, QUOTE]);
    if percent then Mapped(quoted, PERCENT, [PERCENT, PERCENT]) else quoted
  }

  lemma {:induction false} CharPassesAreOneRewrite(text: string, percent: bool)
    ensures CharPasses(text, percent) == Escaped(text, percent, false)
  {
    if |text| > 0 {
      CharPassesAreOneRewrite(text[1..], percent);
      var head, tail := [text[0]], text[1..];
      assert text == head + tail;
      MappedAppends(head, tail, BACKSLASH, [BACKSLASH, BACKSLASH]);
      var h1, t1 := Mapped(head, BACKSLASH, [BACKSLASH, BACKSLASH]), Mapped(tail, BACKSLASH, [BACKSLASH, BACKSLASH]);
      MappedAppends(h1, t1, QUOTE, [BACKSLASH, QUOTE]);
      var h2, t2 := Mapped(h1, QUOTE, [BACKSLASH, QUOTE]), Mapped(t1, QUOTE, [BACKSLASH, QUOTE]);
      MappedAppends(h2, t2, PERCENT, [PERCENT, PERCENT]);
      assert CharPasses(head, percent) == EscapedChar(text[0], percent);
    }
  }

  predicate AtLineEnd(text: string)
  {
    |text| >= 2 && text[0] == CR && text[1] == LF
  }

  function LineEndReplaced(s: string): string
  {
    ReplaceAll(s, CRLF, [BACKSLASH] + CRLF)
  }

  lemma SkipOther(c: char, rest: string)
    requires !AtLineEnd([c] + rest)
    ensures LineEndReplaced([c] + rest) == [c] + LineEndReplaced(rest)
  {
    var input := [c] + rest;
    assert input[1..] == rest;
    if |rest| > 0 {
      assert input[..2] == [c, rest[0]];
    }
  }

  lemma ReplaceLineEnd(rest: string)
    ensures LineEndReplaced(CRLF + rest) == [BACKSLASH] + CRLF + LineEndReplaced(rest)
  {
    assert (CRLF + rest)[..2] == CRLF && (CRLF + rest)[2..] == rest;
  }

  lemma SkipEscapedChar(c: char, percent: bool, rest: string)
    requires !AtLineEnd([c] + rest)
    ensures LineEndReplaced(EscapedChar(c, percent) + rest) == EscapedChar(c, percent) + LineEndReplaced(rest)
  {
    var x := EscapedChar(c, percent);
    hide LineEndReplaced;
    if |x| == 1 {
      SkipOther(c, rest);
    } else {
      SkipOther(x[1], rest);
      SkipOther(x[0], [x[1]] + rest);
      assert x + rest == [x[0]] + ([x[1]] + rest);
    }
  }

  /** One step of the rewrite. */
  lemma EscapedStep(text: string, percent: bool, lineEnds: bool)
    requires |text| > 0
    ensures Escaped(text, percent, lineEnds) ==
            if lineEnds && AtLineEnd(text) then [BACKSLASH] + CRLF + Escaped(text[2..], percent, lineEnds)
            else EscapedChar(text[0], percent) + Escaped(text[1..], percent, lineEnds)
    ensures AtLineEnd(text) ==> Escaped(text, percent, false) == CRLF + Escaped(text[2..], percent, false)
    ensures AtLineEnd(text) ==> text == CRLF + text[2..]
  {
    hide EscapedChar;
    if AtLineEnd(text) {
      LineEndStep(text, percent);
    }
  }

  /** Where line ends are left alone, one passes through. */
  lemma LineEndStep(text: string, percent: bool)
    requires AtLineEnd(text)
    ensures Escaped(text, percent, false) == CRLF + Escaped(text[2..], percent, false)
    ensures text == CRLF + text[2..]
  {
    hide EscapedChar;
    assert text[..2] == CRLF;
    assert text[1..][1..] == text[2..];
    OrdinaryChar(CR, percent);
    OrdinaryChar(LF, percent);
  }

  lemma OrdinaryChar(c: char, percent: bool)
    requires c == CR || c == LF
    ensures EscapedChar(c, percent) == [c]
  {
  }

  lemma {:induction false} LineEndPass(text: string, percent: bool)
    ensures LineEndReplaced(Escaped(text, percent, false)) == Escaped(text, percent, true)
    decreases |text|
  {
    if |text| > 0 {
      EscapedStep(text, percent, false);
      EscapedStep(text, percent, true);
      FirstIsLineFeed(text[1..], percent);
      hide *;
      if AtLineEnd(text) {
        LineEndPass(text[2..], percent);
        ReplaceLineEnd(Escaped(text[2..], percent, false));
      } else {
        LineEndPass(text[1..], percent);
        NoLineEnd(text, Escaped(text[1..], percent, false));
        SkipEscapedChar(text[0], percent, Escaped(text[1..], percent, false));
      }
    }
  }

  lemma NoLineEnd(text: string, e: string)
    requires |text| > 0 && !AtLineEnd(text)
    requires |e| > 0 && e[0] == LF ==> |text[1..]| > 0 && text[1..][0] == LF
    ensures !AtLineEnd([text[0]] + e)
  {
  }

  /** Escaping neither creates nor removes a line feed at the front. */
  lemma FirstIsLineFeed(text: string, percent: bool)
    ensures var e := Escaped(text, percent, false);
            |e| > 0 && e[0] == LF <==> |text| > 0 && text[0] == LF
  {
  }

  lemma PassesAreOneRewrite(text: string, percent: bool, lineEnds: bool)
    ensures var passes := CharPassesReplaced(text, percent);
            (if lineEnds then LineEndReplaced(passes) else passes) == Escaped(text, percent, lineEnds)
  {
    var s1 := ReplaceAll(text, [BACKSLASH], [BACKSLASH, BACKSLASH]);
    ReplaceCharIsMap(text, BACKSLASH, [BACKSLASH, BACKSLASH]);
    var s2 := ReplaceAll(s1, [QUOTE], [BACKSLASH, QUOTE]);
    ReplaceCharIsMap(s1, QUOTE, [BACKSLASH, QUOTE]);
    ReplaceCharIsMap(s2, PERCENT, [PERCENT, PERCENT]);
    CharPassesAreOneRewrite(text, percent);
    LineEndPass(text, percent);
  }

  function CharPassesReplaced(text: string, percent: bool): string
  {
    var s := ReplaceAll(ReplaceAll(text, [BACKSLASH], [BACKSLASH, BACKSLASH]), [QUOTE], [BACKSLASH, QUOTE]);
    if percent then ReplaceAll(s, [PERCENT], [PERCENT, PERCENT]) else s
  }

  /** The matching one-pass reader. */
  function Unescaped(s: string, percent: bool, lineEnds: bool): string
    decreases |s|
  {
    if |s| == 0 then ""
    else if |s| >= 2 && s[..2] == [BACKSLASH, BACKSLASH] then [BACKSLASH] + Unescaped(s[2..], percent, lineEnds)
    else if |s| >= 2 && s[..2] == [BACKSLASH, QUOTE] then [QUOTE] + Unescaped(s[2..], percent, lineEnds)
    else if percent && |s| >= 2 && s[..2] == [PERCENT, PERCENT] then [PERCENT] + Unescaped(s[2..], percent, lineEnds)
    else if lineEnds && |s| >= 3 && s[..3] == [BACKSLASH] + CRLF then CRLF + Unescaped(s[3..], percent, lineEnds)
    else [s[0]] + Unescaped(s[1..], percent, lineEnds)
  }

  lemma UnescapedPair(x: string, percent: bool, lineEnds: bool, rest: string)
    requires x == [BACKSLASH, BACKSLASH] || x == [BACKSLASH, QUOTE] || (percent && x == [PERCENT, PERCENT])
    ensures Unescaped(x + rest, percent, lineEnds) == [x[1]] + Unescaped(rest, percent, lineEnds)
  {
    var s := x + rest;
    assert s[..2] == x && s[2..] == rest;
  }

  lemma UnescapedSingle(c: char, percent: bool, lineEnds: bool, rest: string)
    requires c != BACKSLASH && c != QUOTE && !(percent && c == PERCENT)
    ensures Unescaped([c] + rest, percent, lineEnds) == [c] + Unescaped(rest, percent, lineEnds)
  {
    var s := [c] + rest;
    assert s[0] == c && s[1..] == rest;
  }

  lemma UnescapedChar(c: char, percent: bool, lineEnds: bool, rest: string)
    ensures Unescaped(EscapedChar(c, percent) + rest, percent, lineEnds) == [c] + Unescaped(rest, percent, lineEnds)
  {
    hide Unescaped;
    var x := EscapedChar(c, percent);
    if |x| == 2 {
      UnescapedPair(x, percent, lineEnds, rest);
    } else {
      UnescapedSingle(c, percent, lineEnds, rest);
    }
  }

  lemma UnescapedLineEnd(percent: bool, rest: string)
    ensures Unescaped([BACKSLASH] + CRLF + rest, percent, true) == CRLF + Unescaped(rest, percent, true)
  {
    var s := [BACKSLASH] + CRLF + rest;
    assert s[..3] == [BACKSLASH] + CRLF && s[3..] == rest;
    assert s[1] == CR;
  }

  lemma {:induction false} UnescapedOfEscaped(text: string, percent: bool, lineEnds: bool)
    ensures Unescaped(Escaped(text, percent, lineEnds), percent, lineEnds) == text
    decreases |text|
  {
    if |text| > 0 {
      EscapedStep(text, percent, lineEnds);
      hide Unescaped, Escaped, EscapedChar, AtLineEnd;
      if lineEnds && AtLineEnd(text) {
        UnescapedOfEscaped(text[2..], percent, lineEnds);
        UnescapedLineEnd(percent, Escaped(text[2..], percent, lineEnds));
      } else {
        UnescapedOfEscaped(text[1..], percent, lineEnds);
        UnescapedChar(text[0], percent, lineEnds, Escaped(text[1..], percent, lineEnds));
      }
    }
  }

  /** Escaping is injective for each setting of the flags. */
  lemma EscapingInjective(text: string, text': string, percent: bool, lineEnds: bool)
    requires Escaped(text, percent, lineEnds) == Escaped(text', percent, lineEnds)
    ensures text == text'
  {
    UnescapedOfEscaped(text, percent, lineEnds);
    UnescapedOfEscaped(text', percent, lineEnds);
  }

  /** Read as the inside of a C string literal, the text never meets the closing quote. */
  predicate StaysInside(s: string)
    decreases |s|
  {
    |s| == 0 ||
    (if s[0] == BACKSLASH then |s| >= 2 && StaysInside(s[2..]) else s[0] != QUOTE && StaysInside(s[1..]))
  }

  lemma CharStaysInside(c: char, percent: bool, rest: string)
    ensures StaysInside(EscapedChar(c, percent) + rest) == StaysInside(rest)
    ensures StaysInside([BACKSLASH] + CRLF + rest) == StaysInside(rest)
  {
    var x := EscapedChar(c, percent);
    var s, l := x + rest, [BACKSLASH] + CRLF + rest;
    assert s[1..] == x[1..] + rest;
    if |x| == 2 {
      assert s[2..] == rest && s[1..][1..] == rest;
    }
    assert l[2..] == [LF] + rest && l[2..][1..] == rest;
  }

  lemma {:induction false} EscapedStaysInside(text: string, percent: bool, lineEnds: bool)
    ensures StaysInside(Escaped(text, percent, lineEnds))
    decreases |text|
  {
    if |text| > 0 {
      EscapedStep(text, percent, lineEnds);
      hide StaysInside, Escaped, EscapedChar, AtLineEnd;
      if lineEnds && AtLineEnd(text) {
        EscapedStaysInside(text[2..], percent, lineEnds);
        CharStaysInside(text[0], percent, Escaped(text[2..], percent, lineEnds));
      } else {
        EscapedStaysInside(text[1..], percent, lineEnds);
        CharStaysInside(text[0], percent, Escaped(text[1..], percent, lineEnds));
      }
    }
  }

  /** The single characters, as literals. */
  lemma EscapesOfCharacters(c: char, percent: bool, lineEnds: bool)
    ensures Escaped("\\", percent, lineEnds) == "\\\\" && Escaped("\"", percent, lineEnds) == "\\\""
    ensures Escaped("%", true, lineEnds) == "%%" && Escaped("%", false, lineEnds) == "%"
    ensures c != '\\' && c != '\"' && c != '%' ==> Escaped([c], percent, lineEnds) == [c]
    ensures Escaped("\r\n", percent, true) == "\\\r\n" && Escaped("\r\n", percent, false) == "\r\n"
  {
    assert Escaped("", percent, lineEnds) == "";
    assert "\r\n"[1..] == "\n" && "\r\n"[2..] == "";
    assert Escaped("\n", percent, false) == "\n";
  }

  /** Texts are escaped in parts, wherever no line end is torn. */
  lemma {:induction false} EscapedInParts(s: string, t: string, percent: bool, lineEnds: bool)
    requires |s| > 0 && |t| > 0 && s[|s| - 1] == '\r' ==> t[0] != '\n'
    ensures Escaped(s + t, percent, lineEnds) == Escaped(s, percent, lineEnds) + Escaped(t, percent, lineEnds)
    decreases |s|
  {
    hide Escaped, EscapedChar, AtLineEnd;
    if |s| == 0 {
      assert s + t == t;
      EscapedNothing(percent, lineEnds);
    } else {
      SameFront(s, t);
      EscapedStep(s, percent, lineEnds);
      EscapedStep(s + t, percent, lineEnds);
      if lineEnds && AtLineEnd(s) {
        EscapedInParts(s[2..], t, percent, lineEnds);
      } else {
        EscapedInParts(s[1..], t, percent, lineEnds);
      }
    }
  }

  lemma SameFront(s: string, t: string)
    requires |s| > 0
    requires |t| > 0 && s[|s| - 1] == '\r' ==> t[0] != '\n'
    ensures AtLineEnd(s + t) == AtLineEnd(s) && (s + t)[0] == s[0] && (s + t)[1..] == s[1..] + t
    ensures AtLineEnd(s) ==> |s| >= 2 && (s + t)[2..] == s[2..] + t
  {
  }

  lemma EscapedNothing(percent: bool, lineEnds: bool)
    ensures Escaped("", percent, lineEnds) == ""
  {
  }
}
