/** Lines of a document text: JavaScript's `\s` class, the two ways the
    formatter cuts a text into lines, joining lines back together, and
    removing a line's indentation. */
module Text {

  /** A character of JavaScript's regular-expression class `\s`: the
      ECMAScript WhiteSpace code points (tab, vertical tab, form feed, space,
      no-break space, the zero-width no-break space and every Unicode space
      separator) and its LineTerminator code points. */
  predicate IsWs(c: char)
  {
    || c == '\t' || c == '\n' || c == '\U{000B}' || c == '\U{000C}' || c == '\r'
    || c == ' ' || c == '\U{00A0}' || c == '\U{1680}'
    || ('\U{2000}' <= c <= '\U{200A}')
    || c == '\U{2028}' || c == '\U{2029}' || c == '\U{202F}' || c == '\U{205F}'
    || c == '\U{3000}' || c == '\U{FEFF}'
  }

  /** The number of line feeds in `s`. */
  function LineFeeds(s: string): nat
  {
    multiset(s)['\n']
  }

  /** `s` contains a carriage return immediately followed by a line feed. */
  predicate HasCrLf(s: string)
  {
    exists i :: 0 <= i < |s| - 1 && s[i] == '\r' && s[i + 1] == '\n'
  }

  /** `s` is empty or does not end in a carriage return. */
  predicate NoTrailingCr(s: string)
  {
    s == [] || s[|s| - 1] != '\r'
  }

  /** `s.split(/\r?\n/)`: scanning from the left, every `\r\n` and every
      `\n` not preceded by `\r` ends a line. A `\r` that is not followed by
      `\n` stays in its line. */
  function Split(s: string): (lines: seq<string>)
    ensures |lines| >= 1
    ensures forall i :: 0 <= i < |lines| ==> '\n' !in lines[i]
    decreases |s|
  {
    if s == [] then [[]]
    else if s[0] == '\n' then [[]] + Split(s[1..])
    else if |s| >= 2 && s[0] == '\r' && s[1] == '\n' then
      [[]] + Split(s[2..])
    else
      var rest := Split(s[1..]);
      [[s[0]] + rest[0]] + rest[1..]
  }

  /** `s.split('\n')`: every line feed ends a line. This is how the lines of
      the formatted text are read back. */
  function SplitLf(s: string): (lines: seq<string>)
    ensures |lines| >= 1
    ensures forall i :: 0 <= i < |lines| ==> '\n' !in lines[i]
    decreases |s|
  {
    if s == [] then [[]]
    else if s[0] == '\n' then [[]] + SplitLf(s[1..])
    else
      var rest := SplitLf(s[1..]);
      [[s[0]] + rest[0]] + rest[1..]
  }

  /** `lines.join('\n')`. */
  function Join(lines: seq<string>): string
  {
    if |lines| == 0 then []
    else if |lines| == 1 then lines[0]
    else lines[0] + "\n" + Join(lines[1..])
  }

  /** `s` with every `\r\n` (scanning from the left) replaced by `\n`. */
  function Normalize(s: string): (r: string)
    ensures |r| <= |s|
    ensures HasCrLf(s) ==> |r| < |s|
    decreases |s|
  {
    if s == [] then []
    else if |s| >= 2 && s[0] == '\r' && s[1] == '\n' then "\n" + Normalize(s[2..])
    else
      assert HasCrLf(s) ==> HasCrLf(s[1..]) by {
        if HasCrLf(s) {
          var i :| 0 <= i < |s| - 1 && s[i] == '\r' && s[i + 1] == '\n';
          assert i != 0;
          assert s[1..][i - 1] == s[i] && s[1..][i] == s[i + 1];
        }
      }
      [s[0]] + Normalize(s[1..])
  }

  /** `line.replace(/^\s+/, '')`: the line without its longest prefix of
      whitespace. */
  function StripLeadingWs(line: string): (r: string)
    ensures |r| <= |line| && r == line[|line| - |r|..]
    ensures forall i :: 0 <= i < |line| - |r| ==> IsWs(line[i])
    ensures r == [] || !IsWs(r[0])
    decreases |line|
  {
    if |line| > 0 && IsWs(line[0]) then StripLeadingWs(line[1..]) else line
  }

  /** Joining the pieces of `Split` gives the text back, with each `\r\n`
      turned into `\n`. */
  lemma {:induction false} JoinSplit(s: string)
    ensures Join(Split(s)) == Normalize(s)
    decreases |s|
  {
    if s == [] {
    } else if s[0] == '\n' {
      JoinSplit(s[1..]);
    } else if |s| >= 2 && s[0] == '\r' && s[1] == '\n' {
      JoinSplit(s[2..]);
    } else {
      JoinSplit(s[1..]);
      JoinConsChar(s[0], Split(s[1..]));
    }
  }

  /** Joining the pieces of `SplitLf` gives the text back unchanged. */
  lemma {:induction false} JoinSplitLf(s: string)
    ensures Join(SplitLf(s)) == s
    decreases |s|
  {
    if s == [] {
    } else if s[0] == '\n' {
      var rest := SplitLf(s[1..]);
      JoinSplitLf(s[1..]);
      var l := [[]] + rest;
      assert l[1..] == rest;
      assert Join(l) == [] + "\n" + Join(rest);
      assert s == "\n" + s[1..];
    } else {
      JoinSplitLf(s[1..]);
      JoinConsChar(s[0], SplitLf(s[1..]));
      assert s == [s[0]] + s[1..];
    }
  }

  /** Prepending a character to the first line prepends it to the joined text. */
  lemma {:induction false} JoinConsChar(c: char, lines: seq<string>)
    requires |lines| >= 1
    ensures Join([[c] + lines[0]] + lines[1..]) == [c] + Join(lines)
  {
    var l := [[c] + lines[0]] + lines[1..];
    assert l[0] == [c] + lines[0] && l[1..] == lines[1..];
    if |lines| > 1 {
      assert Join(l) == l[0] + "\n" + Join(l[1..]);
      assert Join(lines) == lines[0] + "\n" + Join(lines[1..]);
    }
  }

  /** Splitting on `\n` undoes joining with `\n`, for lines without `\n`. */
  lemma {:induction false} SplitLfJoin(lines: seq<string>)
    requires |lines| >= 1
    requires forall i :: 0 <= i < |lines| ==> '\n' !in lines[i]
    ensures SplitLf(Join(lines)) == lines
  {
    if |lines| == 1 {
      SplitLfLine(lines[0], []);
      assert lines[0] + [] == lines[0];
    } else {
      var tail := lines[1..];
      var rest := "\n" + Join(tail);
      assert rest[1..] == Join(tail);
      SplitLfJoin(tail);
      SplitLfLine(lines[0], rest);
      assert Join(lines) == lines[0] + rest;
      assert lines == [lines[0]] + tail;
    }
  }

  /** A line without `\n` in front of `rest` is the first piece of
      `SplitLf`, provided `rest` is empty or starts a new line. */
  lemma {:induction false} SplitLfLine(a: string, rest: string)
    requires '\n' !in a
    requires rest == [] || rest[0] == '\n'
    ensures SplitLf(a + rest) == if rest == [] then [a] else [a] + SplitLf(rest[1..])
    decreases |a|
  {
    if a == [] {
      assert a + rest == rest;
    } else {
      var x := a + rest;
      assert x[1..] == a[1..] + rest;
      SplitLfLine(a[1..], rest);
      assert [a[0]] + a[1..] == a;
    }
  }

  /** Splitting on `\r?\n` undoes joining with `\n`, for lines without `\n`
      where no line but the last ends in `\r`. */
  lemma {:induction false} SplitJoin(lines: seq<string>)
    requires |lines| >= 1
    requires forall i :: 0 <= i < |lines| ==> '\n' !in lines[i]
    requires forall i :: 0 <= i < |lines| - 1 ==> NoTrailingCr(lines[i])
    ensures Split(Join(lines)) == lines
  {
    if |lines| == 1 {
      SplitLine(lines[0], []);
      assert lines[0] + [] == lines[0];
    } else {
      var tail := lines[1..];
      var rest := "\n" + Join(tail);
      assert rest[1..] == Join(tail);
      SplitJoin(tail);
      SplitLine(lines[0], rest);
      assert Join(lines) == lines[0] + rest;
      assert lines == [lines[0]] + tail;
    }
  }

  /** A line without `\n` in front of `rest` is the first piece of `Split`,
      provided `rest` is empty, or starts a new line and the line does not
      end in `\r`. */
  lemma {:induction false} SplitLine(a: string, rest: string)
    requires '\n' !in a
    requires rest == [] || (rest[0] == '\n' && NoTrailingCr(a))
    ensures Split(a + rest) == if rest == [] then [a] else [a] + Split(rest[1..])
    decreases |a|
  {
    if a == [] {
      assert a + rest == rest;
    } else {
      var x := a + rest;
      assert x[1..] == a[1..] + rest;
      assert x[0] == a[0] && x[0] != '\n';
      assert |x| >= 2 ==> x[1] == if |a| >= 2 then a[1] else rest[0];
      assert !(|x| >= 2 && x[0] == '\r' && x[1] == '\n');
      var r := Split(x[1..]);
      assert Split(x) == [[x[0]] + r[0]] + r[1..];
      SplitLine(a[1..], rest);
      assert [a[0]] + a[1..] == a;
      if rest == [] {
        assert r == [a[1..]];
      } else {
        assert r == [a[1..]] + Split(rest[1..]);
      }
    }
  }

  /** Without any `\r\n`, the two ways of cutting a text into lines agree. */
  lemma {:induction false} SplitWithoutCrLf(s: string)
    requires !HasCrLf(s)
    ensures Split(s) == SplitLf(s)
    decreases |s|
  {
    if s != [] {
      SplitWithoutCrLf(s[1..]);
    }
  }

  /** `Split` yields one line more than the text has line feeds: each `\n`
      ends exactly one line, whether or not a `\r` precedes it. */
  lemma {:induction false} SplitCount(s: string)
    ensures |Split(s)| == LineFeeds(s) + 1
    decreases |s|
  {
    if s != [] {
      assert s == [s[0]] + s[1..];
      if |s| >= 2 && s[0] == '\r' && s[1] == '\n' {
        assert s[1..] == [s[1]] + s[2..];
        SplitCount(s[2..]);
      } else {
        SplitCount(s[1..]);
      }
    }
  }

  /** `SplitLf` yields one line more than the text has line feeds. */
  lemma {:induction false} SplitLfCount(s: string)
    ensures |SplitLf(s)| == LineFeeds(s) + 1
    decreases |s|
  {
    if s != [] {
      assert s == [s[0]] + s[1..];
      SplitLfCount(s[1..]);
    }
  }

  /** Every character of every line of `Split(s)` comes from `s`. */
  lemma {:induction false} SplitChars(s: string)
    ensures forall i, c :: 0 <= i < |Split(s)| && c in Split(s)[i] ==> c in s
    decreases |s|
  {
    if s == [] {
    } else if s[0] == '\n' {
      SplitChars(s[1..]);
      assert forall c :: c in s[1..] ==> c in s;
    } else if |s| >= 2 && s[0] == '\r' && s[1] == '\n' {
      SplitChars(s[2..]);
      assert forall c :: c in s[2..] ==> c in s;
    } else {
      SplitChars(s[1..]);
      assert forall c :: c in s[1..] ==> c in s;
      var rest := Split(s[1..]);
      assert forall c :: c in [s[0]] + rest[0] ==> c == s[0] || c in rest[0];
    }
  }

  /** A line without `\n` followed by `\r\n` is the first piece of `Split`,
      even when the line itself ends in `\r`. */
  lemma {:induction false} SplitCrLfLine(a: string, rest: string)
    requires '\n' !in a
    ensures Split(a + "\r\n" + rest) == [a] + Split(rest)
    decreases |a|
  {
    var x := a + "\r\n" + rest;
    if a == [] {
      assert x == "\r\n" + rest && x[2..] == rest;
    } else {
      assert x[1..] == a[1..] + "\r\n" + rest;
      assert x[0] == a[0] && x[0] != '\n';
      assert |a| == 1 ==> x[1] == '\r';
      assert |a| >= 2 ==> x[1] == a[1];
      var r := Split(x[1..]);
      assert Split(x) == [[x[0]] + r[0]] + r[1..];
      SplitCrLfLine(a[1..], rest);
      assert [a[0]] + a[1..] == a;
    }
  }

  /** A line ending in `\r` that is not the last meets the joining `\n`, so
      the joined text contains `\r\n`. */
  lemma {:induction false} HasCrLfJoin(lines: seq<string>, i: nat)
    requires i < |lines| - 1 && !NoTrailingCr(lines[i])
    ensures HasCrLf(Join(lines))
  {
    var tail := Join(lines[1..]);
    assert Join(lines) == lines[0] + "\n" + tail;
    if i == 0 {
      var k := |lines[0]| - 1;
      assert Join(lines)[k] == '\r' && Join(lines)[k + 1] == '\n';
    } else {
      HasCrLfJoin(lines[1..], i - 1);
      var k :| 0 <= k < |tail| - 1 && tail[k] == '\r' && tail[k + 1] == '\n';
      var off := |lines[0]| + 1;
      assert Join(lines)[off + k] == '\r' && Join(lines)[off + k + 1] == '\n';
    }
  }
}
