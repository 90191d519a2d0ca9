/** Line splitting as `data.split(/\r?\n/)` does it: every line feed ends a line,
    and a carriage return directly in front of a line feed belongs to that line
    break. A carriage return anywhere else is an ordinary character. */
module Lines {
  import opened Strings

  /** `s.split(/\r?\n/)`, as the regular expression scans `s` from left to
      right: at each position it first tries "\r\n", then "\n". The result has
      one more line than `s` has line feeds, and no line holds a line feed. */
  function SplitLines(s: string): (lines: seq<string>)
    ensures |lines| == Occurrences(s, '\n') + 1
    ensures forall i :: 0 <= i < |lines| ==> '\n' !in lines[i]
    decreases |s|
  {
    if |s| == 0 then [""]
    else if s[0] == '\n' then [""] + SplitLines(s[1..])
    else if |s| >= 2 && s[0] == '\r' && s[1] == '\n' then
      assert Occurrences(s, '\n') == Occurrences(s[1..], '\n');
      assert s[2..] == s[1..][1..];
      [""] + SplitLines(s[2..])
    else
      var rest := SplitLines(s[1..]);
      [[s[0]] + rest[0]] + rest[1..]
  }

  /** `a` without one trailing carriage return, if it has one. */
  function DropCr(a: string): (r: string)
    ensures a == r || a == r + ['\r']
  {
    if |a| > 0 && a[|a| - 1] == '\r' then a[..|a| - 1] else a
  }

  /** A text without line feeds is a single line, kept whole (a lone carriage
      return included). */
  lemma {:induction false} SplitLinesSingle(a: string)
    requires '\n' !in a
    ensures SplitLines(a) == [a]
    decreases |a|
  {
    if |a| > 0 {
      assert '\n' !in a[1..];
      SplitLinesSingle(a[1..]);
      assert [a[0]] + a[1..] == a;
    }
  }

  /** A line feed ends the line before it; a carriage return right in front of
      it is part of the break, not of the line. */
  lemma {:induction false} SplitLinesCons(a: string, b: string)
    requires '\n' !in a
    ensures SplitLines(a + "\n" + b) == [DropCr(a)] + SplitLines(b)
    decreases |a|
  {
    var s := a + "\n" + b;
    if |a| == 0 {
      assert s[1..] == b;
    } else if a == "\r" {
      assert s[2..] == b;
    } else {
      assert s[0] == a[0] && a[0] != '\n';
      assert |a| >= 2 ==> s[1] == a[1] && a[1] != '\n';
      assert s[1..] == a[1..] + "\n" + b;
      assert '\n' !in a[1..];
      SplitLinesCons(a[1..], b);
      var rest := SplitLines(s[1..]);
      assert rest == [DropCr(a[1..])] + SplitLines(b);
      assert SplitLines(s) == [[a[0]] + rest[0]] + rest[1..];
      assert rest[1..] == SplitLines(b);
      if |a| == 1 {
        assert a == [a[0]] && a[0] != '\r';
        assert DropCr(a) == a && a[1..] == "" && rest[0] == "";
        assert [a[0]] + rest[0] == a;
      } else {
        assert DropCr(a) == [a[0]] + DropCr(a[1..]);
      }
    }
  }

  /** A "\r\n" break ends the line before it, and that line keeps none of the
      break's characters. */
  lemma SplitLinesCrLf(a: string, b: string)
    requires '\n' !in a
    ensures SplitLines(a + "\r\n" + b) == [a] + SplitLines(b)
  {
    assert a + "\r\n" + b == (a + "\r") + "\n" + b;
    SplitLinesCons(a + "\r", b);
    assert (a + "\r")[..|a|] == a;
  }

  /** The second line of a text whose first line break is a line feed and
      whose second line is ended by another line feed. */
  lemma SecondLineLf(first: string, line: string, rest: string)
    requires '\n' !in first && '\n' !in line
    ensures |SplitLines(first + "\n" + line + "\n" + rest)| >= 2
    ensures SplitLines(first + "\n" + line + "\n" + rest)[1] == DropCr(line)
  {
    var after := line + "\n" + rest;
    assert first + "\n" + line + "\n" + rest == first + "\n" + after;
    SplitLinesCons(first, after);
    SplitLinesCons(line, rest);
  }

  /** The same with a "\r\n" ending: the second line keeps none of it. */
  lemma SecondLineCrLf(first: string, line: string, rest: string)
    requires '\n' !in first && '\n' !in line
    ensures |SplitLines(first + "\n" + line + "\r\n" + rest)| >= 2
    ensures SplitLines(first + "\n" + line + "\r\n" + rest)[1] == line
  {
    assert first + "\n" + line + "\r\n" + rest == first + "\n" + (line + "\r") + "\n" + rest;
    SecondLineLf(first, line + "\r", rest);
    assert (line + "\r")[..|line|] == line;
  }

  /** The second line of a text that has exactly one line break, a line feed:
      all that follows it, a carriage return at its end included. */
  lemma SecondLineLast(first: string, line: string)
    requires '\n' !in first && '\n' !in line
    ensures |SplitLines(first + "\n" + line)| >= 2
    ensures SplitLines(first + "\n" + line)[1] == line
  {
    SplitLinesCons(first, line);
    SplitLinesSingle(line);
  }

  /** An independent description of the same split: cut at every line feed,
      then drop one trailing carriage return from every piece except the last. */
  function SplitThenStrip(s: string): seq<string> {
    DropCrButLast(Split(s, '\n'))
  }

  /** Every piece but the last without its trailing carriage return. */
  function DropCrButLast(pieces: seq<string>): (r: seq<string>)
    ensures |r| == |pieces|
    decreases |pieces|
  {
    if |pieces| <= 1 then pieces else [DropCr(pieces[0])] + DropCrButLast(pieces[1..])
  }

  /** Position of the first occurrence of `c` in `s`. */
  function IndexOf(s: string, c: char): (i: nat)
    requires c in s
    ensures i < |s| && s[i] == c && c !in s[..i]
    decreases |s|
  {
    if s[0] == c then 0 else 1 + IndexOf(s[1..], c)
  }

  /** The scanner agrees with the split-then-strip description on every text. */
  lemma {:induction false} SplitLinesIsSplitThenStrip(s: string)
    ensures SplitLines(s) == SplitThenStrip(s)
    decreases |s|
  {
    if '\n' !in s {
      SplitLinesSingle(s);
      SplitWithoutSeparator(s, '\n');
    } else {
      var i := IndexOf(s, '\n');
      var a, b := s[..i], s[i + 1..];
      assert s == a + "\n" + b;
      assert SplitLines(s) == [DropCr(a)] + SplitLines(b) by {
        SplitLinesCons(a, b);
      }
      var pieces := Split(b, '\n');
      assert Split(s, '\n') == [a] + pieces by {
        SplitCons(a, '\n', b);
      }
      assert DropCrButLast([a] + pieces) == [DropCr(a)] + DropCrButLast(pieces) by {
        assert ([a] + pieces)[1..] == pieces;
      }
      SplitLinesIsSplitThenStrip(b);
    }
  }
}
