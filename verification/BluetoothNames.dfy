// bluetooth_model.c: making a device name safe to print, whatever bytes the radio delivered.

module BluetoothNames {
  import opened Options
  import opened Utf8

  const NAME_BYTES := 96
  const ANONYMOUS := "Bluetooth device"

  function Printable(c: char): char {
    if c as int < 0x20 || c as int == 0x7F then ' ' else c
  }

  /** What is written for the byte or character at `at`, as long as what is read for it:
      controls are blanked, and bytes that start no valid sequence become '?'. */
  function Piece(s: string, at: nat): (p: string)
    ensures |p| <= |s|
  {
    if at >= |s| then []
    else if s[at] as int < 0x80 then [Printable(s[at])]
    else
      var n := HelperSequence(s[at..]);
      if n == 0 || n > |s| - at then ['?'] else s[at..at + n]
  }

  /** The copying loop from position `at`: it ends with the input, or at a character that
      does not fit the `room` bytes left. */
  function Gather(piece: nat -> string, at: nat, room: nat): (r: string)
    ensures |r| <= room
    decreases room
  {
    var p := piece(at);
    if p == [] || |p| > room then [] else p + Gather(piece, at + |p|, room - |p|)
  }

  function Pieces(s: string): nat -> string {
    (at: nat) => Piece(s, at)
  }

  function Scrub(s: string): string {
    Gather(Pieces(s), 0, NAME_BYTES)
  }

  function TrimRight(s: string): (r: string)
    ensures |r| <= |s| && (r != [] ==> r[|r| - 1] != ' ')
    decreases |s|
  {
    if s != [] && s[|s| - 1] == ' ' then TrimRight(s[..|s| - 1]) else s
  }

  /** rg40xxv_bt_sanitize_name */
  function Sanitize(input: string, fallback: string): string {
    var trimmed := TrimRight(Scrub(input));
    if trimmed != [] then trimmed
    else
      var f := if fallback != [] then fallback else ANONYMOUS;
      if |f| <= NAME_BYTES then f else f[..NAME_BYTES]
  }

  // ----- what comes out is valid -----

  /** A character at the front does not depend on what follows it. */
  ghost predicate Local(len: string -> nat) {
    && (forall s: string, r: string :: 0 < len(s) <= |s| ==> len(s[..len(s)] + r) == len(s))
    && (forall s: string :: 0 < len(s) <= |s| ==> s[0] as int >= 0x80 && s[len(s) - 1] as int >= 0x80)
  }

  lemma SequenceIsLocal()
    ensures Local(Sequence)
  {
    forall s: string, r: string | Sequence(s) > 0 ensures Sequence(s[..Sequence(s)] + r) == Sequence(s) {
      var t := s[..Sequence(s)] + r;
      assert forall i :: 0 <= i < Sequence(s) ==> t[i] == s[i];
    }
  }

  /** What every piece preserves, the whole satisfies. */
  lemma {:induction false} GatherSatisfies(piece: nat -> string, good: string -> bool, at: nat, room: nat)
    requires good([]) && forall i: nat, r: string :: good(r) ==> good(piece(i) + r)
    ensures good(Gather(piece, at, room))
    decreases room
  {
    var p := piece(at);
    if p != [] && |p| <= room {
      GatherSatisfies(piece, good, at + |p|, room - |p|);
    }
  }

  lemma PieceIsText(s: string, at: nat, r: string)
    requires Octets(s) && Octets(r) && Text(r)
    ensures Octets(Piece(s, at) + r) && Text(Piece(s, at) + r)
  {
    var p := Piece(s, at);
    assert (p + r)[|p|..] == r;
    if at < |s| && s[at] as int >= 0x80 {
      var t := s[at..];
      HelperFollowsGrammar(t);
      if Sequence(t) > 0 {
        SequenceIsLocal();
        assert p == t[..Sequence(t)];
      }
    }
  }

  lemma ScrubIsText(s: string)
    requires Octets(s)
    ensures Octets(Scrub(s)) && Text(Scrub(s))
  {
    var piece := Pieces(s);
    var good: string -> bool := r => Octets(r) && Text(r);
    forall i: nat, r: string | good(r) ensures good(piece(i) + r) {
      PieceIsText(s, i, r);
    }
    GatherSatisfies(piece, good, 0, NAME_BYTES);
  }

  lemma {:induction false} DropSpace(len: string -> nat, s: string)
    requires Local(len) && TextBy(len, s) && s != [] && s[|s| - 1] == ' '
    ensures TextBy(len, s[..|s| - 1])
    decreases |s|
  {
    var t := s[..|s| - 1];
    if t != [] {
      if s[0] as int < 0x80 {
        assert s[1..][..|s| - 2] == t[1..];
        DropSpace(len, s[1..]);
      } else {
        var n := len(s);
        assert n < |s|;
        assert t == s[..n] + s[n..][..|s| - n - 1];
        assert len(t) == n;
        assert t[n..] == s[n..][..|s| - n - 1];
        DropSpace(len, s[n..]);
      }
    }
  }

  lemma {:induction false} TrimIsText(len: string -> nat, s: string)
    requires Local(len) && TextBy(len, s) && Octets(s)
    ensures TextBy(len, TrimRight(s)) && Octets(TrimRight(s))
    decreases |s|
  {
    if s != [] && s[|s| - 1] == ' ' {
      DropSpace(len, s);
      TrimIsText(len, s[..|s| - 1]);
    }
  }

  /** A name fit to be shown: 1 to 96 bytes of printable UTF-8. */
  predicate Presentable(name: string) {
    1 <= |name| <= NAME_BYTES && Octets(name) && Text(name)
  }

  /** Whatever the input, the result is presentable, if the fallback is. */
  lemma SanitizeIsPresentable(input: string, fallback: string)
    requires Octets(input) && (fallback == [] || Presentable(fallback))
    ensures Presentable(Sanitize(input, fallback))
  {
    SequenceIsLocal();
    ScrubIsText(input);
    TrimIsText(Sequence, Scrub(input));
    AnonymousIsPresentable();
  }

  lemma AnonymousIsPresentable()
    ensures Presentable(ANONYMOUS)
  {
    AsciiText(ANONYMOUS);
  }

  lemma {:induction false} AsciiText(s: string)
    requires forall i :: 0 <= i < |s| ==> 0x20 <= s[i] as int < 0x7F
    ensures Text(s) && Octets(s)
    decreases |s|
  {
    if s != [] {
      AsciiText(s[1..]);
    }
  }

  // ----- what is already valid is left alone -----

  /** The piece at `i` is what stands there, and leads to a place that holds again. */
  ghost predicate Kept(piece: nat -> string, holds: nat -> bool, s: string, i: nat) {
    0 < |piece(i)| <= |s| - i && piece(i) == s[i..i + |piece(i)|] && holds(i + |piece(i)|)
  }

  /** Copying what needs no change, from one place it holds to the next. */
  lemma {:induction false} GatherKeeps(piece: nat -> string, holds: nat -> bool, s: string, at: nat, room: nat)
    requires at <= |s| && |s| - at <= room && holds(at) && piece(|s|) == []
    requires forall i: nat {:trigger Kept(piece, holds, s, i)} :: i < |s| && holds(i) ==> Kept(piece, holds, s, i)
    ensures Gather(piece, at, room) == s[at..]
    decreases room
  {
    if at < |s| {
      assert Kept(piece, holds, s, at);
      var p := piece(at);
      GatherKeeps(piece, holds, s, at + |p|, room - |p|);
      assert s[at..at + |p|] + s[at + |p|..] == s[at..];
    }
  }

  ghost function TextFrom(s: string): nat -> bool {
    (at: nat) => at <= |s| && Text(s[at..])
  }

  lemma PieceKeepsText(s: string, at: nat)
    requires Octets(s) && at < |s| && TextFrom(s)(at)
    ensures Kept(Pieces(s), TextFrom(s), s, at)
  {
    var t, p := s[at..], Piece(s, at);
    HelperFollowsGrammar(t);
    assert t[|p|..] == s[at + |p|..];
  }

  lemma ScrubKeepsText(s: string)
    requires Octets(s) && Text(s) && |s| <= NAME_BYTES
    ensures Scrub(s) == s
  {
    assert s[0..] == s;
    forall i: nat | i < |s| && TextFrom(s)(i) ensures Kept(Pieces(s), TextFrom(s), s, i) {
      PieceKeepsText(s, i);
    }
    GatherKeeps(Pieces(s), TextFrom(s), s, 0, NAME_BYTES);
  }

  /** A presentable name that does not end in a space is its own sanitised form, so
      sanitising twice is sanitising once. */
  lemma SanitizeKeepsPresentable(name: string, fallback: string)
    requires Presentable(name) && name[|name| - 1] != ' '
    ensures Sanitize(name, fallback) == name
  {
    ScrubKeepsText(name);
  }

  // ----- as the helper runs it -----

  method Trim(s: string) returns (output: string)
    ensures output == TrimRight(s)
  {
    output := s;
    while output != [] && output[|output| - 1] == ' '
      invariant TrimRight(output) == TrimRight(s)
    {
      output := output[..|output| - 1];
    }
  }

  /** The copy so far and what the loop still adds make the whole. */
  ghost predicate Copied(piece: nat -> string, whole: string, output: string, at: nat) {
    |output| <= NAME_BYTES && whole == output + Gather(piece, at, NAME_BYTES - |output|)
  }

  lemma CopyAdvances(piece: nat -> string, whole: string, output: string, at: nat, p: string)
    requires Copied(piece, whole, output, at) && p == piece(at)
    ensures p == [] || |output| + |p| > NAME_BYTES ==> whole == output
    ensures p != [] && |output| + |p| <= NAME_BYTES ==> Copied(piece, whole, output + p, at + |p|)
  {
  }

  method CopyName(input: string) returns (output: string)
    requires Octets(input)
    ensures output == Scrub(input)
  {
    output := CopyAll(input, Scrub(input), Pieces(input));
  }

  method CopyAll(input: string, ghost whole: string, ghost piece: nat -> string) returns (output: string)
    requires Octets(input) && whole == Gather(piece, 0, NAME_BYTES)
    requires forall i: nat :: piece(i) == Piece(input, i)
    ensures output == whole
  {
    output := [];
    var cursor := 0;
    while cursor < |input| && |output| < NAME_BYTES
      invariant 0 <= cursor <= |input| && Copied(piece, whole, output, cursor)
      decreases |input| - cursor
    {
      CopyAdvances(piece, whole, output, cursor, Piece(input, cursor));
      var advanced;
      output, cursor, advanced := CopyPiece(input, cursor, output);
      if !advanced { return; }
    }
    CopyAdvances(piece, whole, output, cursor, Piece(input, cursor));
  }

  /** One turn of the loop; no progress when the character does not fit. */
  method CopyPiece(input: string, cursor: nat, output: string) returns (longer: string, next: nat, advanced: bool)
    requires Octets(input) && cursor < |input| && |output| < NAME_BYTES
    ensures advanced <==> |output| + |Piece(input, cursor)| <= NAME_BYTES
    ensures Piece(input, cursor) != []
    ensures advanced ==> longer == output + Piece(input, cursor) && next == cursor + |Piece(input, cursor)| <= |input|
    ensures !advanced ==> longer == output && next == cursor
  {
    longer, next, advanced := output, cursor, true;
    if input[cursor] as int < 0x80 {
      longer := longer + [Printable(input[cursor])];
      next := next + 1;
    } else {
      HelperFollowsGrammar(input[cursor..]);
      var sequence := HelperSequence(input[cursor..]);
      if sequence == 0 {
        longer := longer + ['?'];
        next := next + 1;
      } else if |output| + sequence > NAME_BYTES {
        advanced := false;
      } else {
        longer := longer + input[cursor..cursor + sequence];
        next := next + sequence;
      }
    }
  }

  method SanitizeName(input: string, fallback: string) returns (output: string)
    requires Octets(input)
    ensures output == Sanitize(input, fallback)
  {
    output := CopyName(input);
    output := Trim(output);
    if output == [] {
      output := if fallback != [] then fallback else ANONYMOUS;
      if |output| > NAME_BYTES { output := output[..NAME_BYTES]; }
    }
  }
}
