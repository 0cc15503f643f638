/**
 * Syntax highlighting of the code view. A writer supplies highlighting rules
 * (an expression and a colour); each becomes a text tag with a numbered name
 * and a `#RRGGBB` foreground. After the code text is rendered, every rule in
 * list order styles group 1 of each of its matches.
 *
 * The regular expression engine is not modelled: it is a parameter
 * `engine` giving, for an expression's pattern and a text, the group-1
 * capture of each match of the pattern in the text, in match order.
 */
module Highlight {

  /** Group 1 of one match: where it starts in the text and how many characters it spans. */
  datatype Capture = Capture(index: nat, length: nat)

  /** A colour as the writer's colour type exposes it. */
  datatype Rgb = Rgb(red: nat, green: nat, blue: nat)

  /** A rule as a writer supplies it: the pattern of its expression, and its colour. */
  datatype HighlightInfo = HighlightInfo(expression: string, color: Rgb)

  /** A registered rule: its expression's pattern, the name of its text tag and that tag's foreground. */
  datatype CodeHighlight = CodeHighlight(expression: string, tagName: string, foreground: string)

  /** One application of a tag to the characters `start` (inclusive) to `end` (exclusive). */
  datatype TagSpan = TagSpan(tagName: string, start: nat, end: nat)

  // ---------------------------------------------------------------------
  // Digits: `ToString()` of an unsigned number and `ToString("X2")`

  const Digit: string := "0123456789ABCDEF"

  /** The two bases numbers are written in here. */
  predicate IsBase(b: nat) {
    b == 10 || b == 16
  }

  /** `n` divided by the base, rounded down, and the remainder. */
  function DivBase(n: nat, b: nat): (r: (nat, nat))
    requires IsBase(b)
    ensures r.1 < b && n == r.0 * b + r.1
    ensures n >= b ==> r.0 < n
  {
    if b == 10 then (n / 10, n % 10) else (n / 16, n % 16)
  }

  /** The digits of `n` in base `b`, most significant first, no leading zero, upper-case letters. */
  function Digits(n: nat, b: nat): (r: string)
    requires IsBase(b)
    ensures 1 <= |r|
    decreases n
  {
    if n < b then [Digit[n]]
    else
      var qr := DivBase(n, b);
      Digits(qr.0, b) + [Digit[qr.1]]
  }

  /** The value of one digit character; every other character counts as 0. */
  function DigitValue(c: char): nat {
    if '0' <= c <= '9' then c as nat - '0' as nat
    else if 'A' <= c <= 'F' then c as nat - 'A' as nat + 10
    else 0
  }

  /** The number a digit string denotes in base `b`. */
  function ParseDigits(s: string, b: nat): nat {
    if s == [] then 0 else ParseDigits(s[..|s| - 1], b) * b + DigitValue(s[|s| - 1])
  }

  lemma DigitValueOfDigit(d: nat)
    requires d < 16
    ensures DigitValue(Digit[d]) == d
  {
  }

  /** Appending a digit multiplies by the base and adds the digit. */
  lemma ParseSnoc(s: string, c: char, b: nat)
    ensures ParseDigits(s + [c], b) == ParseDigits(s, b) * b + DigitValue(c)
  {
    assert (s + [c])[..|s|] == s;
  }

  /** One digit more: the value of the leading digits, times the base, plus the last digit. */
  lemma DigitsStep(n: nat, b: nat)
    requires IsBase(b) && n >= b
    ensures var qr := DivBase(n, b);
      ParseDigits(Digits(n, b), b) == ParseDigits(Digits(qr.0, b), b) * b + qr.1
  {
    var qr := DivBase(n, b);
    DigitValueOfDigit(qr.1);
    ParseSnoc(Digits(qr.0, b), Digit[qr.1], b);
  }

  /** Reading the digits back gives the number. */
  lemma {:induction false} DigitsRoundTrip(n: nat, b: nat)
    requires IsBase(b)
    ensures ParseDigits(Digits(n, b), b) == n
    decreases n
  {
    if n < b {
      DigitValueOfDigit(n);
      ParseSnoc([], Digit[n], b);
      assert [] + [Digit[n]] == Digits(n, b);
    } else {
      var qr := DivBase(n, b);
      DigitsRoundTrip(qr.0, b);
      DigitsStep(n, b);
    }
  }

  /** Different numbers are written differently. */
  lemma DigitsInjective(m: nat, n: nat, b: nat)
    requires IsBase(b) && m != n
    ensures Digits(m, b) != Digits(n, b)
  {
    DigitsRoundTrip(m, b);
    DigitsRoundTrip(n, b);
  }

  /** Every character of the digits is a digit of the base. */
  lemma {:induction false} DigitsInBase(n: nat, b: nat)
    requires IsBase(b)
    ensures forall i :: 0 <= i < |Digits(n, b)| ==> Digits(n, b)[i] in Digit[..b]
    decreases n
  {
    if n >= b {
      var qr := DivBase(n, b);
      DigitsInBase(qr.0, b);
      assert Digit[qr.1] in Digit[..b];
    } else {
      assert Digit[n] in Digit[..b];
    }
  }

  /** A leading zero does not change the value. */
  lemma {:induction false} LeadingZero(s: string, b: nat)
    ensures ParseDigits("0" + s, b) == ParseDigits(s, b)
  {
    if s != [] {
      var z := "0" + s;
      assert z[..|z| - 1] == "0" + s[..|s| - 1];
      LeadingZero(s[..|s| - 1], b);
    } else {
      assert ParseDigits("0", b) == ParseDigits([], b) * b + DigitValue('0');
    }
  }

  /** `n.ToString("X2")`: upper-case hexadecimal, padded to at least two digits. */
  function X2(n: nat): string {
    var d := Digits(n, 16);
    if |d| < 2 then "0" + d else d
  }

  /** Below 256 a component takes exactly two upper-case hex digits, which read back as the component. */
  lemma X2Spec(n: nat)
    requires n < 256
    ensures |X2(n)| == 2
    ensures forall i :: 0 <= i < 2 ==> X2(n)[i] in Digit
    ensures ParseDigits(X2(n), 16) == n
  {
    DigitsRoundTrip(n, 16);
    DigitsInBase(n, 16);
    if n >= 16 {
      assert Digits(n, 16) == Digits(n / 16, 16) + [Digit[n % 16]];
    }
    LeadingZero(Digits(n, 16), 16);
  }

  /** A component that fits in a byte. */
  predicate IsByte(n: nat) {
    n < 256
  }

  /** The tag foreground of a rule's colour: "#" and the red, green and blue components in "X2". */
  function Foreground(c: Rgb): string {
    "#" + X2(c.red) + X2(c.green) + X2(c.blue)
  }

  /** Reads a `#RRGGBB` string back into its components. */
  function ParseForeground(s: string): Rgb
    requires |s| == 7
  {
    Rgb(ParseDigits(s[1..3], 16), ParseDigits(s[3..5], 16), ParseDigits(s[5..7], 16))
  }

  /**
   * For byte components the foreground is `#RRGGBB`: seven characters, a
   * hash, then six upper-case hex digits that read back as the colour.
   */
  lemma ForegroundFormat(c: Rgb)
    requires IsByte(c.red) && IsByte(c.green) && IsByte(c.blue)
    ensures |Foreground(c)| == 7
    ensures Foreground(c)[0] == '#'
    ensures forall i :: 1 <= i < 7 ==> Foreground(c)[i] in Digit
    ensures ParseForeground(Foreground(c)) == c
  {
    X2Spec(c.red);
    X2Spec(c.green);
    X2Spec(c.blue);
    var s := Foreground(c);
    assert s[1..3] == X2(c.red);
    assert s[3..5] == X2(c.green);
    assert s[5..7] == X2(c.blue);
  }

  // ---------------------------------------------------------------------
  // Registering a rule

  /**
   * Registers a rule: the tag is named after the counter's current value,
   * which then moves on by one, and its foreground is the rule's colour.
   */
  function NewCodeHighlight(info: HighlightInfo, counter: nat): (r: (CodeHighlight, nat))
  {
    (CodeHighlight(info.expression, Digits(counter, 10), Foreground(info.color)), counter + 1)
  }

  /**
   * A registered rule keeps the writer's expression, is named after the
   * counter in decimal digits, and for byte components carries a `#RRGGBB`
   * foreground that reads back as the rule's colour; the counter moves on by one.
   */
  lemma NewCodeHighlightSpec(info: HighlightInfo, counter: nat)
    ensures var rule := NewCodeHighlight(info, counter).0;
      && rule.expression == info.expression
      && ParseDigits(rule.tagName, 10) == counter
      && (forall i :: 0 <= i < |rule.tagName| ==> rule.tagName[i] in Digit[..10])
      && (IsByte(info.color.red) && IsByte(info.color.green) && IsByte(info.color.blue) ==>
            |rule.foreground| == 7 && ParseForeground(rule.foreground) == info.color)
    ensures NewCodeHighlight(info, counter).1 == counter + 1
  {
    DigitsRoundTrip(counter, 10);
    DigitsInBase(counter, 10);
    if IsByte(info.color.red) && IsByte(info.color.green) && IsByte(info.color.blue) {
      ForegroundFormat(info.color);
    }
  }

  /** The rules registered, in order, from the writer's rules, the counter starting at `start`. */
  function Registered(infos: seq<HighlightInfo>, start: nat): seq<CodeHighlight> {
    if infos == [] then []
    else
      Registered(infos[..|infos| - 1], start)
        + [NewCodeHighlight(infos[|infos| - 1], start + |infos| - 1).0]
  }

  /**
   * The i-th registered rule keeps the i-th writer rule's expression, takes
   * its colour as foreground, and is named after counter value `start + i`.
   */
  lemma {:induction false} RegisteredSpec(infos: seq<HighlightInfo>, start: nat)
    ensures |Registered(infos, start)| == |infos|
    ensures forall i :: 0 <= i < |infos| ==>
      && Registered(infos, start)[i].tagName == Digits(start + i, 10)
      && Registered(infos, start)[i].foreground == Foreground(infos[i].color)
    ensures forall i :: 0 <= i < |infos| ==> Registered(infos, start)[i].expression == infos[i].expression
  {
    RegisteredElements(infos, start);
  }

  lemma {:induction false} RegisteredElements(infos: seq<HighlightInfo>, start: nat)
    ensures |Registered(infos, start)| == |infos|
    ensures forall i :: 0 <= i < |infos| ==> Registered(infos, start)[i] == NewCodeHighlight(infos[i], start + i).0
  {
    if infos != [] {
      var n := |infos| - 1;
      var init := infos[..n];
      RegisteredElements(init, start);
      RegisteredSnoc(infos, start, n);
      assert infos[..n + 1] == infos;
      var prev := Registered(init, start);
      var last := NewCodeHighlight(infos[n], start + n).0;
      var r := Registered(infos, start);
      assert r == prev + [last];
      forall i | 0 <= i < |infos| ensures r[i] == NewCodeHighlight(infos[i], start + i).0 {
        if i < n {
          assert r[i] == prev[i] && infos[i] == init[i];
        } else {
          assert i == n;
          assert r[n] == last;
        }
      }
    }
  }

  /** Registering one more rule appends it, under the next counter value. */
  lemma RegisteredSnoc(infos: seq<HighlightInfo>, start: nat, i: nat)
    requires i < |infos|
    ensures Registered(infos[..i + 1], start) == Registered(infos[..i], start) + [NewCodeHighlight(infos[i], start + i).0]
  {
    assert infos[..i + 1][..i] == infos[..i];
  }

  /** Registering one more writer rule appends its rule to those registered so far. */
  lemma RegisteredStep(infos: seq<HighlightInfo>, start: nat, i: nat, rules: seq<CodeHighlight>, rule: CodeHighlight)
    requires i < |infos| && rules == Registered(infos[..i], start)
    requires rule == NewCodeHighlight(infos[i], start + i).0
    ensures rules + [rule] == Registered(infos[..i + 1], start)
  {
    RegisteredSnoc(infos, start, i);
  }

  /** Rules registered in a row get pairwise different tag names. */
  lemma RegisteredTagsDiffer(infos: seq<HighlightInfo>, start: nat)
    ensures |Registered(infos, start)| == |infos|
    ensures forall i, j :: 0 <= i < j < |infos| ==>
      Registered(infos, start)[i].tagName != Registered(infos, start)[j].tagName
  {
    var r := Registered(infos, start);
    RegisteredLength(infos, start);
    forall i, j | 0 <= i < j < |infos| ensures r[i].tagName != r[j].tagName {
      RegisteredTagAt(infos, start, i);
      RegisteredTagAt(infos, start, j);
    }
  }

  lemma RegisteredLength(infos: seq<HighlightInfo>, start: nat)
    ensures |Registered(infos, start)| == |infos|
  {
    RegisteredElements(infos, start);
  }

  lemma RegisteredTagAt(infos: seq<HighlightInfo>, start: nat, i: nat)
    requires i < |infos|
    ensures i < |Registered(infos, start)| && ParseDigits(Registered(infos, start)[i].tagName, 10) == start + i
  {
    RegisteredAt(infos, start, i);
    TagNameValue(Registered(infos, start)[i], infos[i], start + i);
  }

  lemma RegisteredAt(infos: seq<HighlightInfo>, start: nat, i: nat)
    requires i < |infos|
    ensures i < |Registered(infos, start)| && Registered(infos, start)[i] == NewCodeHighlight(infos[i], start + i).0
  {
    RegisteredElements(infos, start);
  }

  lemma TagNameValue(rule: CodeHighlight, info: HighlightInfo, counter: nat)
    requires rule == NewCodeHighlight(info, counter).0
    ensures ParseDigits(rule.tagName, 10) == counter
  {
    DigitsRoundTrip(counter, 10);
  }

  // ---------------------------------------------------------------------
  // Spans

  /** The span one match styles: exactly its group-1 capture. */
  function SpanOf(tagName: string, g: Capture): TagSpan {
    TagSpan(tagName, g.index, g.index + g.length)
  }

  /** The spans one rule applies, one per capture, in match order. */
  function MatchSpans(tagName: string, captures: seq<Capture>): seq<TagSpan> {
    if captures == [] then []
    else MatchSpans(tagName, captures[..|captures| - 1]) + [SpanOf(tagName, captures[|captures| - 1])]
  }

  /** The spans all rules apply to `text`, rule after rule in list order. */
  function HighlightSpans(rules: seq<CodeHighlight>, text: string, engine: (string, string) -> seq<Capture>): seq<TagSpan> {
    if rules == [] then []
    else
      var last := rules[|rules| - 1];
      HighlightSpans(rules[..|rules| - 1], text, engine) + MatchSpans(last.tagName, engine(last.expression, text))
  }

  /** One span per capture, the k-th styling exactly the k-th capture. */
  lemma {:induction false} MatchSpansSpec(tagName: string, captures: seq<Capture>)
    ensures |MatchSpans(tagName, captures)| == |captures|
    ensures forall k :: 0 <= k < |captures| ==> MatchSpans(tagName, captures)[k] == SpanOf(tagName, captures[k])
  {
    if captures != [] {
      MatchSpansSpec(tagName, captures[..|captures| - 1]);
    }
  }

  /** The spans of two rule lists in a row are those of the first, then those of the second. */
  lemma {:induction false} HighlightSpansAppend(r1: seq<CodeHighlight>, r2: seq<CodeHighlight>, text: string,
                                                engine: (string, string) -> seq<Capture>)
    ensures HighlightSpans(r1 + r2, text, engine) == HighlightSpans(r1, text, engine) + HighlightSpans(r2, text, engine)
  {
    if r2 != [] {
      var r := r1 + r2;
      assert r[..|r| - 1] == r1 + r2[..|r2| - 1];
      assert r[|r| - 1] == r2[|r2| - 1];
      HighlightSpansAppend(r1, r2[..|r2| - 1], text, engine);
    } else {
      assert r1 + r2 == r1;
    }
  }

  /** A rule with no match in the text contributes no span: dropping it changes nothing. */
  lemma NoMatchNoSpans(rules: seq<CodeHighlight>, i: int, text: string, engine: (string, string) -> seq<Capture>)
    requires 0 <= i < |rules| && engine(rules[i].expression, text) == []
    ensures HighlightSpans(rules, text, engine) == HighlightSpans(rules[..i] + rules[i + 1..], text, engine)
  {
    var before, rule, after := rules[..i], [rules[i]], rules[i + 1..];
    assert rules == before + (rule + after);
    HighlightSpansAppend(before, rule + after, text, engine);
    HighlightSpansAppend(rule, after, text, engine);
    assert rule[..0] == [];
    assert HighlightSpans(rule, text, engine) == [];
    HighlightSpansAppend(before, after, text, engine);
    assert [] + HighlightSpans(after, text, engine) == HighlightSpans(after, text, engine);
  }

  /** The span list holds exactly the spans of the rules' captures: nothing more, nothing less. */
  lemma {:induction false} SpanOrigin(rules: seq<CodeHighlight>, text: string, engine: (string, string) -> seq<Capture>,
                                      s: TagSpan)
    ensures s in HighlightSpans(rules, text, engine) <==>
      exists i, k :: 0 <= i < |rules| && 0 <= k < |engine(rules[i].expression, text)| &&
        s == SpanOf(rules[i].tagName, engine(rules[i].expression, text)[k])
  {
    if rules != [] {
      var init := rules[..|rules| - 1];
      var last := rules[|rules| - 1];
      var caps := engine(last.expression, text);
      SpanOrigin(init, text, engine, s);
      MatchSpansSpec(last.tagName, caps);
      var m := MatchSpans(last.tagName, caps);
      if s in m {
        var k :| 0 <= k < |m| && m[k] == s;
        assert s == SpanOf(rules[|rules| - 1].tagName, engine(rules[|rules| - 1].expression, text)[k]);
      }
      if exists i, k :: 0 <= i < |rules| && 0 <= k < |engine(rules[i].expression, text)| &&
          s == SpanOf(rules[i].tagName, engine(rules[i].expression, text)[k])
      {
        var i, k :| 0 <= i < |rules| && 0 <= k < |engine(rules[i].expression, text)| &&
          s == SpanOf(rules[i].tagName, engine(rules[i].expression, text)[k]);
        if i < |rules| - 1 {
          assert init[i] == rules[i];
        } else {
          assert m[k] == s;
        }
      }
      if s in HighlightSpans(init, text, engine) {
        var i, k :| 0 <= i < |init| && 0 <= k < |engine(init[i].expression, text)| &&
          s == SpanOf(init[i].tagName, engine(init[i].expression, text)[k]);
        assert rules[i] == init[i];
      }
    }
  }

  /** Captures that stay inside the text give spans that stay inside it. */
  lemma SpansWithinText(rules: seq<CodeHighlight>, text: string, engine: (string, string) -> seq<Capture>)
    requires forall i, k :: 0 <= i < |rules| && 0 <= k < |engine(rules[i].expression, text)| ==>
      engine(rules[i].expression, text)[k].index + engine(rules[i].expression, text)[k].length <= |text|
    ensures forall s :: s in HighlightSpans(rules, text, engine) ==> s.start <= s.end <= |text|
  {
    forall s | s in HighlightSpans(rules, text, engine) ensures s.start <= s.end <= |text| {
      SpanOrigin(rules, text, engine, s);
    }
  }

  /**
   * The highlighting loop: for each rule in list order, for each match of
   * its expression in the text, the tag is applied to the match's group 1.
   */
  method ApplyHighlights(rules: seq<CodeHighlight>, text: string, engine: (string, string) -> seq<Capture>)
    returns (spans: seq<TagSpan>)
    ensures spans == HighlightSpans(rules, text, engine)
  {
    spans := [];
    var i := 0;
    while i < |rules|
      invariant 0 <= i <= |rules|
      invariant spans == HighlightSpans(rules[..i], text, engine)
    {
      var highlight := rules[i];
      var matches := engine(highlight.expression, text);
      var k := 0;
      while k < |matches|
        invariant 0 <= k <= |matches|
        invariant spans == HighlightSpans(rules[..i], text, engine) + MatchSpans(highlight.tagName, matches[..k])
      {
        assert matches[..k + 1][..k] == matches[..k];
        spans := spans + [SpanOf(highlight.tagName, matches[k])];
        k := k + 1;
      }
      assert matches[..k] == matches;
      assert rules[..i + 1][..i] == rules[..i];
      i := i + 1;
    }
    assert rules[..i] == rules;
  }
}
