// Lines and tab-separated fields, as the loaders cut them up and the writers join them.

module Fields {
  import opened Options
  import opened Decimal

  /** The first place of c in s, or the end. */
  function IndexOf(s: string, c: char): (i: nat)
    ensures i <= |s| && c !in s[..i] && (i < |s| ==> s[i] == c)
    decreases |s|
  {
    if s == [] || s[0] == c then 0
    else
      var i := 1 + IndexOf(s[1..], c);
      assert s[..i] == [s[0]] + s[1..][..i - 1];
      i
  }

  lemma {:induction false} IndexOfUnique(a: string, c: char, b: string)
    requires c !in a
    ensures IndexOf(a + [c] + b, c) == |a|
    decreases |a|
  {
    var s := a + [c] + b;
    if a != [] {
      assert s[0] == a[0] && s[1..] == a[1..] + [c] + b;
      IndexOfUnique(a[1..], c, b);
    }
  }

  lemma IndexOfPresent(s: string, c: char)
    requires c in s
    ensures IndexOf(s, c) < |s|
  {
    assert s[..|s|] == s;
  }

  lemma IndexOfAbsent(s: string, c: char)
    requires c !in s
    ensures IndexOf(s, c) == |s|
  {
  }

  // ----- lines -----

  /** The lines of a text, each ended by a newline. */
  function Lines(s: string): seq<string>
    decreases |s|
  {
    if s == [] then []
    else
      var i := IndexOf(s, '\n');
      if i == |s| then [s] else [s[..i]] + Lines(s[i + 1..])
  }

  function Unlines(lines: seq<string>): string
    decreases |lines|
  {
    if lines == [] then [] else lines[0] + ['\n'] + Unlines(lines[1..])
  }

  predicate NoneHas(parts: seq<string>, c: char) {
    forall i :: 0 <= i < |parts| ==> c !in parts[i]
  }

  lemma {:induction false} LinesOfUnlines(lines: seq<string>)
    requires NoneHas(lines, '\n')
    ensures Lines(Unlines(lines)) == lines
    decreases |lines|
  {
    if lines != [] {
      var rest := Unlines(lines[1..]);
      IndexOfUnique(lines[0], '\n', rest);
      var s := lines[0] + ['\n'] + rest;
      assert s[..|lines[0]|] == lines[0] && s[|lines[0]| + 1..] == rest;
      LinesOfUnlines(lines[1..]);
    }
  }

  /** A text that ends in a newline: its first line and the text of the others. */
  lemma CutFirstLine(s: string) returns (line: string, rest: string)
    requires s != [] && s[|s| - 1] == '\n'
    ensures s == line + ['\n'] + rest && Lines(s) == [line] + Lines(rest)
    ensures rest == [] || rest[|rest| - 1] == '\n'
  {
    var i := IndexOf(s, '\n');
    FirstLine(s);
    line, rest := s[..i], s[i + 1..];
  }

  /** Writing the lines of a text that ends in a newline gives the text back. */
  lemma {:induction false} UnlinesOfLines(s: string)
    requires s == [] || s[|s| - 1] == '\n'
    ensures Unlines(Lines(s)) == s
    decreases |s|
  {
    if s != [] {
      var line, rest := CutFirstLine(s);
      UnlinesOfLines(rest);
      UnlinesOfCons(line, Lines(rest));
    }
  }

  lemma UnlinesOfCons(line: string, lines: seq<string>)
    ensures Unlines([line] + lines) == line + ['\n'] + Unlines(lines)
  {
    assert ([line] + lines)[1..] == lines;
  }

  lemma {:induction false} LinesLack(s: string, c: char)
    requires c == '\n' || c !in s
    ensures NoneHas(Lines(s), c)
    decreases |s|
  {
    if s != [] {
      var i := IndexOf(s, '\n');
      if i == |s| {
        assert s[..i] == s;
      } else {
        LinesLack(s[i + 1..], c);
      }
    }
  }

  lemma {:induction false} UnlinesEndsInNewline(lines: seq<string>)
    requires lines != []
    ensures |Unlines(lines)| > 0 && Unlines(lines)[|Unlines(lines)| - 1] == '\n'
    decreases |lines|
  {
    if |lines| > 1 {
      UnlinesEndsInNewline(lines[1..]);
    } else {
      assert Unlines(lines[1..]) == [];
    }
  }

  lemma {:induction false} UnlinesLacks(lines: seq<string>, c: char)
    requires NoneHas(lines, c) && c != '\n'
    ensures c !in Unlines(lines)
    decreases |lines|
  {
    if lines != [] {
      UnlinesLacks(lines[1..], c);
    }
  }

  lemma {:induction false} UnlinesLength(lines: seq<string>, most: nat)
    requires forall i :: 0 <= i < |lines| ==> |lines[i]| <= most
    ensures |Unlines(lines)| <= |lines| * (most + 1)
    decreases |lines|
  {
    if lines != [] {
      UnlinesLength(lines[1..], most);
      assert |lines| * (most + 1) == (|lines| - 1) * (most + 1) + most + 1;
    }
  }

  lemma {:induction false} UnlinesOfAppend(lines: seq<string>, line: string)
    ensures Unlines(lines + [line]) == Unlines(lines) + line + ['\n']
    decreases |lines|
  {
    if lines == [] {
      assert lines + [line] == [line] && [line][1..] == [];
      assert Unlines([line]) == line + ['\n'] + [];
    } else {
      UnlinesOfAppend(lines[1..], line);
      assert (lines + [line])[1..] == lines[1..] + [line];
    }
  }

  lemma {:induction false} UnlinesPrefix(lines: seq<string>, k: nat)
    requires k <= |lines|
    ensures |Unlines(lines[..k])| <= |Unlines(lines)|
    decreases |lines| - k
  {
    if k == |lines| {
      assert lines[..k] == lines;
    } else {
      assert lines[..k + 1] == lines[..k] + [lines[k]];
      UnlinesOfAppend(lines[..k], lines[k]);
      UnlinesPrefix(lines, k + 1);
    }
  }

  lemma Slices(s: string, a: nat, b: nat)
    requires a <= b <= |s|
    ensures s[a..][..b - a] == s[a..b]
    ensures b < |s| ==> s[a..][b - a + 1..] == s[b + 1..]
  {
  }

  /** The lines cut so far and those of the rest make the whole. */
  ghost predicate LinesSoFar(whole: seq<string>, lines: seq<string>, s: string, cursor: nat) {
    cursor <= |s| && whole == lines + Lines(s[cursor..])
  }

  lemma FirstLine(t: string)
    requires t != [] && t[|t| - 1] == '\n'
    ensures var i := IndexOf(t, '\n');
            i < |t| && Lines(t) == [t[..i]] + Lines(t[i + 1..])
  {
    IndexOfPresent(t, '\n');
  }

  lemma LinesAdvance(whole: seq<string>, lines: seq<string>, s: string, cursor: nat, newline: nat)
    requires cursor < |s| && s[|s| - 1] == '\n' && newline - cursor == IndexOf(s[cursor..], '\n')
    requires LinesSoFar(whole, lines, s, cursor)
    ensures newline < |s| && LinesSoFar(whole, lines + [s[cursor..newline]], s, newline + 1)
  {
    FirstLine(s[cursor..]);
    Slices(s, cursor, newline);
    Regroup(lines, s[cursor..newline], Lines(s[newline + 1..]));
  }

  lemma Regroup(a: seq<string>, x: string, b: seq<string>)
    ensures a + ([x] + b) == a + [x] + b
  {
  }

  // ----- fields -----

  /** The parts of a text between separators; there is always at least one. */
  function Parts(s: string, sep: char): (f: seq<string>)
    ensures |f| > 0
    decreases |s|
  {
    var i := IndexOf(s, sep);
    if i == |s| then [s] else [s[..i]] + Parts(s[i + 1..], sep)
  }

  /** The tab-separated fields of a line. */
  function Split(s: string): seq<string> {
    Parts(s, '\t')
  }

  /** The parts cut so far and those of the rest make the whole. */
  ghost predicate CutSoFar(whole: seq<string>, parts: seq<string>, s: string, sep: char, cursor: nat) {
    cursor <= |s| && whole == parts + Parts(s[cursor..], sep)
  }

  lemma FirstPart(t: string, sep: char, i: nat)
    requires i == IndexOf(t, sep)
    ensures i == |t| ==> Parts(t, sep) == [t]
    ensures i < |t| ==> Parts(t, sep) == [t[..i]] + Parts(t[i + 1..], sep)
  {
  }

  lemma CutAdvances(whole: seq<string>, parts: seq<string>, s: string, sep: char, cursor: nat, at: nat)
    requires CutSoFar(whole, parts, s, sep, cursor) && cursor <= at && at - cursor == IndexOf(s[cursor..], sep)
    ensures |parts| < |whole| && cursor <= at <= |s| && whole[|parts|] == s[cursor..at]
    ensures at == |s| ==> whole == parts + [s[cursor..at]]
    ensures at < |s| ==> CutSoFar(whole, parts + [s[cursor..at]], s, sep, at + 1)
  {
    FirstPart(s[cursor..], sep, at - cursor);
    Slices(s, cursor, at);
    if at < |s| {
      CutBefore(whole, parts, s[cursor..at], Parts(s[at + 1..], sep));
    } else {
      assert s[cursor..at] == s[cursor..];
    }
  }

  lemma CutBefore(whole: seq<string>, parts: seq<string>, x: string, rest: seq<string>)
    requires whole == parts + ([x] + rest)
    ensures whole == parts + [x] + rest && |parts| < |whole| && whole[|parts|] == x
  {
  }

  function Join(fields: seq<string>): string
    requires fields != []
    decreases |fields|
  {
    if |fields| == 1 then fields[0] else fields[0] + ['\t'] + Join(fields[1..])
  }

  lemma SplitFirst(a: string, rest: string)
    requires '\t' !in a
    ensures Split(a + ['\t'] + rest) == [a] + Split(rest)
  {
    var s := a + ['\t'] + rest;
    IndexOfUnique(a, '\t', rest);
    assert s[..|a|] == a && s[|a| + 1..] == rest;
  }

  /** Splitting undoes joining. */
  lemma {:induction false} SplitOfJoin(fields: seq<string>)
    requires fields != [] && NoneHas(fields, '\t')
    ensures Split(Join(fields)) == fields
    decreases |fields|
  {
    if |fields| == 1 {
      IndexOfAbsent(fields[0], '\t');
      assert fields == [fields[0]];
    } else {
      SplitFirst(fields[0], Join(fields[1..]));
      SplitOfJoin(fields[1..]);
      assert fields == [fields[0]] + fields[1..];
    }
  }

  lemma {:induction false} JoinLacks(fields: seq<string>, c: char)
    requires fields != [] && NoneHas(fields, c) && c != '\t'
    ensures c !in Join(fields)
    decreases |fields|
  {
    if |fields| > 1 {
      JoinLacks(fields[1..], c);
    }
  }

  function Total(fields: seq<string>): nat
    decreases |fields|
  {
    if fields == [] then 0 else |fields[0]| + Total(fields[1..])
  }

  lemma {:induction false} JoinLength(fields: seq<string>)
    requires fields != []
    ensures |Join(fields)| == Total(fields) + |fields| - 1
    decreases |fields|
  {
    if |fields| > 1 {
      JoinLength(fields[1..]);
    }
  }

  function Sum(bounds: seq<nat>): nat
    decreases |bounds|
  {
    if bounds == [] then 0 else bounds[0] + Sum(bounds[1..])
  }

  lemma {:induction false} TotalBound(fields: seq<string>, bounds: seq<nat>)
    requires |fields| == |bounds| && forall i :: 0 <= i < |fields| ==> |fields[i]| <= bounds[i]
    ensures Total(fields) <= Sum(bounds)
    decreases |fields|
  {
    if fields != [] {
      TotalBound(fields[1..], bounds[1..]);
    }
  }

  /** A line is no longer than its fields and the tabs between them. */
  lemma JoinBound(fields: seq<string>, bounds: seq<nat>, most: nat)
    requires fields != [] && |fields| == |bounds| && Sum(bounds) + |bounds| - 1 <= most
    requires forall i :: 0 <= i < |fields| ==> |fields[i]| <= bounds[i]
    ensures |Join(fields)| <= most
  {
    JoinLength(fields);
    TotalBound(fields, bounds);
  }

  // ----- visible fields -----

  /** Only characters above the space: no tab, newline, return or NUL. */
  predicate Visible(s: string) {
    forall i :: 0 <= i < |s| ==> s[i] > ' '
  }

  predicate AllVisible(fields: seq<string>) {
    forall i :: 0 <= i < |fields| ==> Visible(fields[i])
  }

  /** A line of visible fields has no other control characters than its tabs. */
  lemma VisibleLine(fields: seq<string>, c: char)
    requires fields != [] && c <= ' ' && AllVisible(fields)
    ensures NoneHas(fields, c) && (c != '\t' ==> c !in Join(fields))
  {
    if c != '\t' {
      JoinLacks(fields, c);
    }
  }

  lemma PrintIntIsVisible(v: int)
    ensures Visible(PrintInt(v))
  {
    PrintIntChars(v);
    forall i | 0 <= i < |PrintInt(v)| ensures PrintInt(v)[i] > ' ' {
      assert PrintInt(v)[i] in PrintInt(v);
    }
  }
}
