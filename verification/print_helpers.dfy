/** Colour and style decoration of report text with ECMA-48 (ISO/IEC 6429)
    "Select Graphic Rendition" control sequences, section 8.3.117: the
    sequence ESC '[' <parameters separated by ';'> 'm' switches attributes on
    and ESC "[0m" resets them. Every line of the decorated text is wrapped on
    its own, so an attribute never runs past a line break. */
module PrintHelpers {
  import opened Text
  import opened Decimal

  datatype TextColor = None | Black | Red | Green | Yellow | Blue | Magenta | Cyan | White
  {
    function Code(): nat
    {
      match this
      case None => 0
      case Black => 30
      case Red => 31
      case Green => 32
      case Yellow => 33
      case Blue => 34
      case Magenta => 35
      case Cyan => 36
      case White => 37
    }
  }

  datatype BackgroundColor = None | Black | Red | Green | Yellow | Blue | Magenta | Cyan | White
  {
    function Code(): nat
    {
      match this
      case None => 0
      case Black => 40
      case Red => 41
      case Green => 42
      case Yellow => 43
      case Blue => 44
      case Magenta => 45
      case Cyan => 46
      case White => 47
    }
  }

  datatype Style = None | Bold | Underline
  {
    function Code(): nat
    {
      match this
      case None => 0
      case Bold => 1
      case Underline => 4
    }
  }

  const Esc: char := 27 as char

  /** The control sequence that switches every attribute off. */
  const Reset: string := [Esc, '[', '0', 'm']

  /** All three attributes are "none": the bitwise or of their codes, which
      are never negative, is zero. */
  predicate Undecorated(tc: TextColor, st: Style, bc: BackgroundColor)
  {
    tc.Code() == 0 && st.Code() == 0 && bc.Code() == 0
  }

  /** The attribute codes in the order they are emitted. */
  function Codes(tc: TextColor, st: Style, bc: BackgroundColor): seq<nat>
  {
    [tc.Code(), st.Code(), bc.Code()]
  }

  /** The codes that are switched on, in their original order. */
  function Present(codes: seq<nat>): (r: seq<nat>)
    ensures forall k :: 0 <= k < |r| ==> r[k] > 0
  {
    if |codes| == 0 then []
    else if codes[|codes| - 1] > 0 then Present(codes[..|codes| - 1]) + [codes[|codes| - 1]]
    else Present(codes[..|codes| - 1])
  }

  function Numerals(codes: seq<nat>): (r: seq<string>)
    ensures |r| == |codes|
    ensures forall k :: 0 <= k < |r| ==> r[k] == NatToString(codes[k])
  {
    seq(|codes|, k requires 0 <= k < |codes| => NatToString(codes[k]))
  }

  /** The parameter list of the control sequence: the decimal numerals of the
      codes that are switched on, separated by ';'. */
  function Parameters(codes: seq<nat>): string
  {
    Join(Numerals(Present(codes)), ';')
  }

  /** The control sequence that switches the given attributes on. */
  function Prefix(tc: TextColor, st: Style, bc: BackgroundColor): (r: string)
    ensures |r| >= 3 && r[0] == Esc && r[1] == '[' && r[|r| - 1] == 'm'
    ensures AllDigitsOrSemicolons(r[2..|r| - 1])
  {
    var params := Parameters(Codes(tc, st, bc));
    JoinOfNumerals(Numerals(Present(Codes(tc, st, bc))));
    var r := [Esc, '['] + params + "m";
    assert r[2..|r| - 1] == params;
    r
  }

  /** The prefix built the way the source builds it: one pass over the codes,
      skipping zeros, writing ';' before every numeral except the first. */
  method BuildPrefix(tc: TextColor, st: Style, bc: BackgroundColor) returns (prefix: string)
    ensures prefix == Prefix(tc, st, bc)
  {
    var codes := Codes(tc, st, bc);
    var params := "";
    var first := true;
    var i := 0;
    while i < |codes|
      invariant 0 <= i <= |codes|
      invariant params == Parameters(codes[..i])
      invariant first <==> |Present(codes[..i])| == 0
    {
      ParametersStep(codes, i);
      if codes[i] > 0 {
        if !first {
          params := params + [';'];
        }
        params := params + NatToString(codes[i]);
        first := false;
      }
      i := i + 1;
    }
    assert codes[..i] == codes;
    prefix := [Esc, '['] + params + "m";
  }

  /** One more code: a zero changes nothing; a non-zero code is appended as
      a numeral, after a ';' unless it is the first. */
  lemma ParametersStep(codes: seq<nat>, i: nat)
    requires i < |codes|
    ensures codes[i] == 0 ==> Present(codes[..i + 1]) == Present(codes[..i])
    ensures codes[i] == 0 ==> Parameters(codes[..i + 1]) == Parameters(codes[..i])
    ensures codes[i] > 0 ==> |Present(codes[..i + 1])| > 0
    ensures codes[i] > 0 && |Present(codes[..i])| == 0 ==>
      Parameters(codes[..i + 1]) == NatToString(codes[i])
    ensures codes[i] > 0 && |Present(codes[..i])| > 0 ==>
      Parameters(codes[..i + 1]) == Parameters(codes[..i]) + [';'] + NatToString(codes[i])
  {
    assert codes[..i + 1][..i] == codes[..i];
    if codes[i] > 0 {
      assert Present(codes[..i + 1]) == Present(codes[..i]) + [codes[i]];
      JoinAppendNumeral(Present(codes[..i]), codes[i]);
    }
  }

  lemma JoinAppendNumeral(present: seq<nat>, code: nat)
    ensures |present| == 0 ==> Join(Numerals(present + [code]), ';') == NatToString(code)
    ensures |present| > 0 ==>
      Join(Numerals(present + [code]), ';') == Join(Numerals(present), ';') + [';'] + NatToString(code)
  {
    var ns := Numerals(present + [code]);
    assert ns == Numerals(present) + [NatToString(code)];
    if |present| > 0 {
      JoinSnoc(Numerals(present), NatToString(code), ';');
    }
  }

  /** Every line of `lines`, wrapped in `prefix` and the reset sequence. */
  function WrapAll(lines: seq<string>, prefix: string): (r: seq<string>)
    ensures |r| == |lines|
    ensures forall k :: 0 <= k < |r| ==> r[k] == prefix + lines[k] + Reset
  {
    seq(|lines|, k requires 0 <= k < |lines| => prefix + lines[k] + Reset)
  }

  /** `decorate(in, tc, s, bc)`, with the line-by-line split the loop is
      meant to perform: when no attribute is set the text is returned as it
      is; otherwise every line of it is wrapped in the prefix and the reset. */
  function Decorate(text: string, tc: TextColor, st: Style, bc: BackgroundColor): (out: string)
    ensures Undecorated(tc, st, bc) ==> out == text
  {
    if Undecorated(tc, st, bc) then text
    else Join(WrapAll(Split(text, '\n'), Prefix(tc, st, bc)), '\n')
  }

  /** The control sequence of a foreground colour, optionally bold:
      "ESC[3dm" or "ESC[3d;1m", `d` the colour's digit. */
  function ColorSequence(tc: TextColor, st: Style): string
    requires tc != TextColor.None
  {
    [Esc, '[', '3', DigitChar(tc.Code() - 30)] + (if st == Style.Bold then ";1" else "") + "m"
  }

  /** Decoration with a foreground colour, no background and at most bold,
      the shape every named helper has: each line is wrapped in the colour's
      control sequence and the reset. */
  function Colored(text: string, tc: TextColor, st: Style): (out: string)
    requires tc != TextColor.None
    requires st == Style.None || st == Style.Bold
    ensures Split(out, '\n') == WrapAll(Split(text, '\n'), ColorSequence(tc, st))
  {
    ColorPrefix(tc, st);
    DecorateLines(text, tc, st, BackgroundColor.None);
    Decorate(text, tc, st, BackgroundColor.None)
  }

  /** The single-argument form: black text, no style, no background. Both
      the rvalue and the lvalue overload of the source are this function; the
      lvalue one only forwards its argument. */
  function DecorateDefault(text: string): (out: string)
    ensures Split(out, '\n') == WrapAll(Split(text, '\n'), [Esc] + "[30m")
  {
    assert ColorSequence(TextColor.Black, Style.None) == [Esc] + "[30m";
    Colored(text, TextColor.Black, Style.None)
  }

  function BoldRed(text: string): (out: string)
    ensures Split(out, '\n') == WrapAll(Split(text, '\n'), [Esc] + "[31;1m")
  {
    assert ColorSequence(TextColor.Red, Style.Bold) == [Esc] + "[31;1m";
    Colored(text, TextColor.Red, Style.Bold)
  }

  function BoldGreen(text: string): (out: string)
    ensures Split(out, '\n') == WrapAll(Split(text, '\n'), [Esc] + "[32;1m")
  {
    assert ColorSequence(TextColor.Green, Style.Bold) == [Esc] + "[32;1m";
    Colored(text, TextColor.Green, Style.Bold)
  }

  function Red(text: string): (out: string)
    ensures Split(out, '\n') == WrapAll(Split(text, '\n'), [Esc] + "[31m")
  {
    assert ColorSequence(TextColor.Red, Style.None) == [Esc] + "[31m";
    Colored(text, TextColor.Red, Style.None)
  }

  function Green(text: string): (out: string)
    ensures Split(out, '\n') == WrapAll(Split(text, '\n'), [Esc] + "[32m")
  {
    assert ColorSequence(TextColor.Green, Style.None) == [Esc] + "[32m";
    Colored(text, TextColor.Green, Style.None)
  }

  function BoldYellow(text: string): (out: string)
    ensures Split(out, '\n') == WrapAll(Split(text, '\n'), [Esc] + "[33;1m")
  {
    assert ColorSequence(TextColor.Yellow, Style.Bold) == [Esc] + "[33;1m";
    Colored(text, TextColor.Yellow, Style.Bold)
  }

  function Yellow(text: string): (out: string)
    ensures Split(out, '\n') == WrapAll(Split(text, '\n'), [Esc] + "[33m")
  {
    assert ColorSequence(TextColor.Yellow, Style.None) == [Esc] + "[33m";
    Colored(text, TextColor.Yellow, Style.None)
  }

  /** With a foreground colour, no background and at most bold, the prefix
      built from the codes is the colour's control sequence. */
  lemma ColorPrefix(tc: TextColor, st: Style)
    requires tc != TextColor.None
    requires st == Style.None || st == Style.Bold
    ensures !Undecorated(tc, st, BackgroundColor.None)
    ensures Prefix(tc, st, BackgroundColor.None) == ColorSequence(tc, st)
  {
    var c := tc.Code();
    assert 30 <= c <= 37;
    assert Codes(tc, st, BackgroundColor.None) == [c, st.Code(), 0];
    ColorParameters(c, st.Code());
  }

  /** The parameters of a colour code followed by no style or bold. */
  lemma ColorParameters(c: nat, s: nat)
    requires 30 <= c <= 37 && (s == 0 || s == 1)
    ensures s == 0 ==> Parameters([c, s, 0]) == ['3', DigitChar(c - 30)]
    ensures s == 1 ==> Parameters([c, s, 0]) == ['3', DigitChar(c - 30), ';', '1']
  {
    ColorNumeral(c);
    ParametersOfColor(c, s);
    if s == 1 {
      assert NatToString(1) == ['1'];
    }
  }

  lemma ParametersOfColor(c: nat, s: nat)
    requires c > 0
    ensures s > 0 ==> Parameters([c, s, 0]) == NatToString(c) + [';'] + NatToString(s)
    ensures s == 0 ==> Parameters([c, s, 0]) == NatToString(c)
  {
    PresentOfColor(c, s);
    if s > 0 {
      assert Numerals([c, s]) == [NatToString(c), NatToString(s)];
      JoinSnoc([NatToString(c)], NatToString(s), ';');
      assert [NatToString(c)] + [NatToString(s)] == [NatToString(c), NatToString(s)];
      assert Join([NatToString(c)], ';') == NatToString(c);
    } else {
      assert Numerals([c]) == [NatToString(c)];
    }
  }

  lemma ColorNumeral(c: nat)
    requires 30 <= c <= 37
    ensures NatToString(c) == ['3', DigitChar(c - 30)]
  {
    assert c / 10 == 3 && c % 10 == c - 30;
    assert NatToString(3) == ['3'];
    assert NatToString(c) == NatToString(c / 10) + [DigitChar(c % 10)];
  }

  lemma PresentOfColor(c: nat, s: nat)
    requires c > 0
    ensures Present([c, s, 0]) == if s > 0 then [c, s] else [c]
  {
    var one: seq<nat> := [c];
    var two: seq<nat> := [c, s];
    var three: seq<nat> := [c, s, 0];
    assert one[..0] == [];
    assert Present(one) == [c];
    assert two[..1] == one;
    assert Present(two) == if s > 0 then Present(one) + [s] else Present(one);
    assert three[..2] == two;
    assert Present(three) == Present(two);
  }

  /** The parameter list decodes back to the codes that are switched on:
      cut at ';', every piece is a numeral whose value is the code at the
      same position. */
  lemma ParametersDecode(codes: seq<nat>)
    requires |Present(codes)| > 0
    ensures var pieces := Split(Parameters(codes), ';');
      |pieces| == |Present(codes)| &&
      forall k :: 0 <= k < |pieces| ==>
        AllDigits(pieces[k]) && ParseDecimal(pieces[k]) == Present(codes)[k]
  {
    var numerals := Numerals(Present(codes));
    forall k | 0 <= k < |numerals|
      ensures ';' !in numerals[k]
    {
      assert AllDigits(numerals[k]);
    }
    SplitOfJoin(numerals, ';');
    forall k | 0 <= k < |numerals|
      ensures ParseDecimal(numerals[k]) == Present(codes)[k]
    {
      ParseNatToString(Present(codes)[k]);
    }
  }

  /** No line break occurs inside a control sequence. */
  lemma PrefixHasNoLineBreak(tc: TextColor, st: Style, bc: BackgroundColor)
    ensures '\n' !in Prefix(tc, st, bc)
    ensures '\n' !in Reset
  {
    var params := Parameters(Codes(tc, st, bc));
    JoinOfNumerals(Numerals(Present(Codes(tc, st, bc))));
    assert '\n' !in params by {
      forall i | 0 <= i < |params|
        ensures params[i] != '\n'
      {
        assert IsDigit(params[i]) || params[i] == ';';
      }
    }
  }

  predicate AllDigitsOrSemicolons(s: string)
  {
    forall i :: 0 <= i < |s| ==> IsDigit(s[i]) || s[i] == ';'
  }

  lemma {:induction false} JoinOfNumerals(parts: seq<string>)
    requires forall k :: 0 <= k < |parts| ==> AllDigits(parts[k])
    ensures AllDigitsOrSemicolons(Join(parts, ';'))
    decreases |parts|
  {
    if |parts| > 1 {
      JoinOfNumerals(parts[..|parts| - 1]);
    }
  }

  /** The lines of the decorated text are the lines of the input, each
      wrapped in the prefix and the reset sequence. */
  lemma DecorateLines(text: string, tc: TextColor, st: Style, bc: BackgroundColor)
    requires !Undecorated(tc, st, bc)
    ensures Split(Decorate(text, tc, st, bc), '\n') == WrapAll(Split(text, '\n'), Prefix(tc, st, bc))
  {
    var wrapped := WrapAll(Split(text, '\n'), Prefix(tc, st, bc));
    PrefixHasNoLineBreak(tc, st, bc);
    forall k | 0 <= k < |wrapped|
      ensures '\n' !in wrapped[k]
    {
      assert wrapped[k] == Prefix(tc, st, bc) + Split(text, '\n')[k] + Reset;
    }
    SplitOfJoin(wrapped, '\n');
  }

  /** Text without a line break comes back as prefix + text + reset. */
  lemma DecorateSingleLine(text: string, tc: TextColor, st: Style, bc: BackgroundColor)
    requires !Undecorated(tc, st, bc)
    requires '\n' !in text
    ensures Decorate(text, tc, st, bc) == Prefix(tc, st, bc) + text + Reset
  {
    SplitWithoutSeparator(text, '\n');
  }

  /** Decorated text opens with the prefix and closes with the reset. */
  lemma DecorateBrackets(text: string, tc: TextColor, st: Style, bc: BackgroundColor)
    requires !Undecorated(tc, st, bc)
    ensures Prefix(tc, st, bc) <= Decorate(text, tc, st, bc)
    ensures |Reset| <= |Decorate(text, tc, st, bc)|
    ensures Decorate(text, tc, st, bc)[|Decorate(text, tc, st, bc)| - |Reset|..] == Reset
  {
    var p := Prefix(tc, st, bc);
    var wrapped := WrapAll(Split(text, '\n'), p);
    var out := Decorate(text, tc, st, bc);
    assert out == Join(wrapped, '\n');
    JoinEnds(wrapped, '\n');
    var first := wrapped[0];
    var last := wrapped[|wrapped| - 1];
    assert p <= first;
    assert last[|last| - |Reset|..] == Reset;
    SuffixOfSuffix(Reset, last, out);
  }

  lemma SuffixOfSuffix(a: string, b: string, c: string)
    requires |a| <= |b| <= |c|
    requires b[|b| - |a|..] == a && c[|c| - |b|..] == b
    ensures c[|c| - |a|..] == a
  {
    assert c[|c| - |a|..] == c[|c| - |b|..][|b| - |a|..];
  }

  /** Every line break of the decorated text closes the line before it with
      the reset sequence and opens the line after it with the prefix. */
  lemma DecorateLineBreaks(text: string, tc: TextColor, st: Style, bc: BackgroundColor)
    requires !Undecorated(tc, st, bc)
    ensures BreaksBracketed(Decorate(text, tc, st, bc), '\n', Prefix(tc, st, bc), Reset)
  {
    var p := Prefix(tc, st, bc);
    PrefixHasNoLineBreak(tc, st, bc);
    var wrapped := WrapAll(Split(text, '\n'), p);
    forall k | 0 <= k < |wrapped|
      ensures Bracketed(wrapped[k], p, Reset) && '\n' !in wrapped[k]
    {
      assert wrapped[k] == p + Split(text, '\n')[k] + Reset;
    }
    JoinBreaks(wrapped, '\n', p, Reset);
  }

  /** `line` starts with `left` and ends with `right`, which do not overlap. */
  predicate Bracketed(line: string, left: string, right: string)
  {
    |left| + |right| <= |line| && line[..|left|] == left && line[|line| - |right|..] == right
  }

  /** The separator at position `i` of `out` has `right` just before it and
      `left` just after it. */
  predicate BreakBracketed(out: string, i: int, left: string, right: string)
    requires 0 <= i < |out|
  {
    |right| <= i && out[i - |right|..i] == right &&
    i + 1 + |left| <= |out| && out[i + 1..i + 1 + |left|] == left
  }

  /** Every occurrence of `sep` in `out` is bracketed. */
  predicate BreaksBracketed(out: string, sep: char, left: string, right: string)
  {
    forall i :: 0 <= i < |out| && out[i] == sep ==> BreakBracketed(out, i, left, right)
  }

  lemma {:induction false} JoinBreaks(parts: seq<string>, sep: char, left: string, right: string)
    requires |parts| >= 1
    requires forall k :: 0 <= k < |parts| ==> Bracketed(parts[k], left, right) && sep !in parts[k]
    ensures BreaksBracketed(Join(parts, sep), sep, left, right)
    decreases |parts|
  {
    var out := Join(parts, sep);
    if |parts| == 1 {
      assert sep !in out;
    } else {
      var init := parts[..|parts| - 1];
      var last := parts[|parts| - 1];
      var head := Join(init, sep);
      JoinBreaks(init, sep, left, right);
      assert out == head + [sep] + last;
      forall i | |head| < i < |out|
        ensures out[i] != sep
      {
        assert out[i] == last[i - |head| - 1];
      }
      JoinEnds(init, sep);
      BreakAtSeam(head, sep, last, init[|init| - 1], left, right);
      forall i | 0 <= i < |head| && out[i] == sep
        ensures BreakBracketed(out, i, left, right)
      {
        assert head[i] == sep;
        BreakInHead(head, sep, last, i, left, right);
      }
    }
  }

  lemma BreakInHead(head: string, sep: char, last: string, i: int, left: string, right: string)
    requires 0 <= i < |head| && head[i] == sep
    requires BreakBracketed(head, i, left, right)
    ensures BreakBracketed(head + [sep] + last, i, left, right)
  {
    var out := head + [sep] + last;
    assert out[i - |right|..i] == head[i - |right|..i];
    assert out[i + 1..i + 1 + |left|] == head[i + 1..i + 1 + |left|];
  }

  lemma BreakAtSeam(head: string, sep: char, last: string, prev: string, left: string, right: string)
    requires |prev| <= |head| && head[|head| - |prev|..] == prev
    requires Bracketed(prev, left, right) && Bracketed(last, left, right)
    ensures BreakBracketed(head + [sep] + last, |head|, left, right)
  {
    var out := head + [sep] + last;
    var i := |head|;
    assert out[i - |right|..i] == head[|head| - |right|..];
    assert head[|head| - |right|..] == prev[|prev| - |right|..];
    assert out[i + 1..i + 1 + |left|] == last[..|left|];
  }

  /** The line with the surrounding prefix and reset removed, if it has them. */
  function Unwrap(line: string, prefix: string): (r: string)
  {
    if Bracketed(line, prefix, Reset) then line[|prefix|..|line| - |Reset|] else line
  }

  /** Removes the decoration added by `Decorate` from every line. */
  function Undecorate(out: string, prefix: string): string
  {
    var lines := Split(out, '\n');
    Join(seq(|lines|, k requires 0 <= k < |lines| => Unwrap(lines[k], prefix)), '\n')
  }

  lemma UnwrapWrapped(line: string, prefix: string)
    ensures Unwrap(prefix + line + Reset, prefix) == line
  {
    var w := prefix + line + Reset;
    assert w[..|prefix|] == prefix;
    assert w[|w| - |Reset|..] == Reset;
    assert w[|prefix|..|w| - |Reset|] == line;
  }

  /** Removing the prefix and reset from every line recovers the input. */
  lemma UndecorateDecorate(text: string, tc: TextColor, st: Style, bc: BackgroundColor)
    requires !Undecorated(tc, st, bc)
    ensures Undecorate(Decorate(text, tc, st, bc), Prefix(tc, st, bc)) == text
  {
    var p := Prefix(tc, st, bc);
    var lines := Split(text, '\n');
    DecorateLines(text, tc, st, bc);
    var wrapped := Split(Decorate(text, tc, st, bc), '\n');
    assert wrapped == WrapAll(lines, p);
    var unwrapped := seq(|wrapped|, k requires 0 <= k < |wrapped| => Unwrap(wrapped[k], p));
    forall k | 0 <= k < |lines|
      ensures unwrapped[k] == lines[k]
    {
      UnwrapWrapped(lines[k], p);
    }
    assert unwrapped == lines;
  }
}
