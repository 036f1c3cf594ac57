/** The text transform of the "format document" command (`formatFile`):
    cut the document into lines at `\r\n` or `\n`, remove each line's
    leading whitespace, and join the lines again with `\n`. */
module Formatter {
  import opened Text

  /** `lines.map(line => line.replace(/^\s+/, ''))`. */
  function StripEach(lines: seq<string>): seq<string>
  {
    seq(|lines|, i requires 0 <= i < |lines| => StripLeadingWs(lines[i]))
  }

  /** A line is unindented when it is empty or starts with a character
      outside `\s`. */
  predicate Unindented(line: string)
  {
    line == [] || !IsWs(line[0])
  }

  /** The new whole text that replaces the document. */
  function Format(text: string): string
  {
    Join(StripEach(Split(text)))
  }

  /** Read back on `\n`, the output has one line per input line, in the same
      order, and each is the input line without its leading whitespace;
      interior and trailing characters are kept. */
  lemma FormatLines(text: string)
    ensures |SplitLf(Format(text))| == |Split(text)|
    ensures forall i :: 0 <= i < |Split(text)| ==>
      SplitLf(Format(text))[i] == StripLeadingWs(Split(text)[i])
  {
    var lines := Split(text);
    var stripped := StripEach(lines);
    forall i | 0 <= i < |stripped| ensures '\n' !in stripped[i] {
      var k := |lines[i]| - |stripped[i]|;
      assert stripped[i] == lines[i][k..];
    }
    SplitLfJoin(stripped);
  }

  /** No line of the output starts with whitespace. */
  lemma FormatUnindents(text: string)
    ensures forall i :: 0 <= i < |SplitLf(Format(text))| ==> Unindented(SplitLf(Format(text))[i])
  {
    FormatLines(text);
  }

  /** The output has exactly as many line feeds as the input: no line is
      added or lost, although every `\r\n` becomes `\n`. */
  lemma FormatKeepsLineCount(text: string)
    ensures LineFeeds(Format(text)) == LineFeeds(text)
  {
    FormatLines(text);
    SplitLfCount(Format(text));
    SplitCount(text);
  }

  /** An empty document stays empty. */
  lemma FormatEmpty()
    ensures Format("") == ""
  {
  }

  /** The formatted text splits back into the formatted lines, as long as
      no formatted line other than the last ends in `\r`. */
  lemma SplitFormat(text: string)
    requires forall i :: 0 <= i < |Split(text)| - 1 ==>
      NoTrailingCr(StripLeadingWs(Split(text)[i]))
    ensures Split(Format(text)) == StripEach(Split(text))
  {
    var stripped := StripEach(Split(text));
    FormatLines(text);
    forall i | 0 <= i < |stripped| ensures '\n' !in stripped[i] {
      assert stripped[i] == SplitLf(Format(text))[i];
    }
    SplitJoin(stripped);
  }

  /** Formatting twice is formatting once when no output line other than
      the last ends in `\r`. */
  lemma FormatStable(text: string)
    requires forall i :: 0 <= i < |Split(text)| - 1 ==>
      NoTrailingCr(StripLeadingWs(Split(text)[i]))
    ensures Format(Format(text)) == Format(text)
  {
    var stripped := StripEach(Split(text));
    SplitFormat(text);
    assert StripEach(stripped) == stripped by {
      forall i | 0 <= i < |stripped| ensures StripLeadingWs(stripped[i]) == stripped[i] {
        assert Unindented(stripped[i]);
      }
    }
  }

  /** An output line other than the last that ends in `\r` makes the second
      pass shorten the text, so it differs from the first. */
  lemma FormatUnstable(text: string, i: nat)
    requires i < |Split(text)| - 1 && !NoTrailingCr(StripLeadingWs(Split(text)[i]))
    ensures |Format(Format(text))| < |Format(text)|
  {
    var once := Format(text);
    assert HasCrLf(once) by {
      HasCrLfJoin(StripEach(Split(text)), i);
    }
    JoinStripShorter(Split(once));
    JoinSplit(once);
  }

  /** Formatting twice is formatting once exactly when no output line other
      than the last ends in `\r`. */
  lemma FormatIdempotentWhen(text: string)
    ensures Format(Format(text)) == Format(text) <==>
      forall i :: 0 <= i < |Split(text)| - 1 ==> NoTrailingCr(StripLeadingWs(Split(text)[i]))
  {
    if forall i :: 0 <= i < |Split(text)| - 1 ==> NoTrailingCr(StripLeadingWs(Split(text)[i])) {
      FormatStable(text);
    } else {
      var i :| 0 <= i < |Split(text)| - 1 && !NoTrailingCr(StripLeadingWs(Split(text)[i]));
      FormatUnstable(text, i);
    }
  }

  /** Formatting is idempotent on text without carriage returns. */
  lemma FormatIdempotent(text: string)
    requires '\r' !in text
    ensures Format(Format(text)) == Format(text)
  {
    var lines := Split(text);
    SplitChars(text);
    forall i | 0 <= i < |lines| - 1 ensures NoTrailingCr(StripLeadingWs(lines[i])) {
      var r := StripLeadingWs(lines[i]);
      if r != [] {
        assert r[|r| - 1] == lines[i][|lines[i]| - 1];
      }
    }
    FormatStable(text);
  }

  /** Two unindented lines separated by `\r\n` come out separated by `\n`,
      whatever the first line ends in. */
  lemma FormatCrLfPair(x: string, y: string)
    requires '\n' !in x && Unindented(x)
    requires '\n' !in y && Unindented(y)
    ensures Format(x + "\r\n" + y) == x + "\n" + y
  {
    assert Split(x + "\r\n" + y) == [x, y] by {
      SplitLine(y, []);
      assert y + [] == y;
      SplitCrLfLine(x, y);
    }
    assert StripEach([x, y]) == [x, y];
    assert Join([x, y]) == x + "\n" + y by {
      assert [x, y][1..] == [y];
    }
  }

  /** A `\r` left at the end of a line meets the joining `\n` and is read as
      a `\r\n` on the second pass, so formatting is not idempotent on every
      text: `"a\r\r\nb"` becomes `"a\r\nb"`, which then becomes `"a\nb"`. */
  lemma FormatNotIdempotent(a: string, b: string)
    requires a != [] && !IsWs(a[0]) && '\n' !in a
    requires '\n' !in b && Unindented(b)
    ensures Format(a + "\r\r\n" + b) == a + "\r\n" + b
    ensures Format(a + "\r\n" + b) == a + "\n" + b
    ensures Format(Format(a + "\r\r\n" + b)) != Format(a + "\r\r\n" + b)
  {
    var aCr := a + "\r";
    assert '\n' !in aCr && aCr[0] == a[0];
    FormatCrLfPair(aCr, b);
    assert aCr + "\r\n" + b == a + "\r\r\n" + b;
    assert aCr + "\n" + b == a + "\r\n" + b;
    FormatCrLfPair(a, b);
    assert |a + "\r\n" + b| != |a + "\n" + b|;
  }

  /** Removing indentation never makes the joined text longer. */
  lemma {:induction false} JoinStripShorter(lines: seq<string>)
    ensures |Join(StripEach(lines))| <= |Join(lines)|
  {
    if |lines| > 1 {
      assert StripEach(lines)[1..] == StripEach(lines[1..]);
      JoinStripShorter(lines[1..]);
    }
  }

  /** The text is left exactly as it is if and only if it has no `\r\n`
      and none of its lines starts with whitespace. */
  lemma FormatFixedPoint(text: string)
    ensures Format(text) == text <==>
      && !HasCrLf(text)
      && forall i :: 0 <= i < |SplitLf(text)| ==> Unindented(SplitLf(text)[i])
  {
    var lines := SplitLf(text);
    if !HasCrLf(text) && forall i :: 0 <= i < |lines| ==> Unindented(lines[i]) {
      SplitWithoutCrLf(text);
      assert StripEach(lines) == lines;
      JoinSplitLf(text);
    }
    if Format(text) == text {
      JoinStripShorter(Split(text));
      JoinSplit(text);
      FormatLines(text);
    }
  }
}
