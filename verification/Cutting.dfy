// The loops that cut a buffer into lines and fields.

module Cutting {
  import opened Options
  import opened Fields

  /** strchr from a place in the buffer. */
  method FindChar(s: string, from: nat, c: char) returns (at: nat)
    requires from <= |s|
    ensures from <= at <= |s| && at - from == IndexOf(s[from..], c)
  {
    at := from;
    while at < |s| && s[at] != c
      invariant from <= at <= |s|
      invariant IndexOf(s[from..], c) == at - from + IndexOf(s[at..], c)
    {
      assert s[at..][1..] == s[at + 1..];
      at := at + 1;
    }
  }

  /** split_fields: the fields of a line, or None if there are more than `capacity`. */
  method SplitFields(line: string, capacity: nat) returns (fields: Option<seq<string>>)
    ensures fields == if |Split(line)| <= capacity then Some(Split(line)) else None
  {
    assert line[0..] == line && [] + Split(line) == Split(line);
    fields := CutFields(line, capacity, Split(line));
  }

  method CutFields(line: string, capacity: nat, ghost whole: seq<string>) returns (fields: Option<seq<string>>)
    requires CutSoFar(whole, [], line, '\t', 0)
    ensures fields == if |whole| <= capacity then Some(whole) else None
  {
    var parts: seq<string> := [];
    var cursor := 0;
    while true
      invariant CutSoFar(whole, parts, line, '\t', cursor)
      decreases |line| - cursor
    {
      var tab := FindChar(line, cursor, '\t');
      CutAdvances(whole, parts, line, '\t', cursor, tab);
      if |parts| >= capacity { return None; }
      parts := parts + [line[cursor..tab]];
      if tab == |line| { return Some(parts); }
      cursor := tab + 1;
    }
  }

  /** The text cut at its newlines. */
  method CutLines(output: string) returns (lines: seq<string>)
    requires output != [] && output[|output| - 1] == '\n'
    ensures lines == Lines(output)
  {
    assert output[0..] == output && [] + Lines(output) == Lines(output);
    lines := CutAt(output, Lines(output));
  }

  method CutAt(output: string, ghost whole: seq<string>) returns (lines: seq<string>)
    requires output != [] && output[|output| - 1] == '\n' && LinesSoFar(whole, [], output, 0)
    ensures lines == whole
  {
    lines := [];
    var cursor := 0;
    while cursor < |output|
      invariant 0 <= cursor <= |output| && LinesSoFar(whole, lines, output, cursor)
      decreases |output| - cursor
    {
      var newline := FindChar(output, cursor, '\n');
      LinesAdvance(whole, lines, output, cursor, newline);
      lines := lines + [output[cursor..newline]];
      cursor := newline + 1;
    }
    assert output[cursor..] == [] && lines + [] == lines;
  }
}
