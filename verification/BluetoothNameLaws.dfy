// What sanitising does to a name, byte by byte where bytes stand alone.

module BluetoothNameLaws {
  import opened Options
  import opened Utf8
  import opened BluetoothNames

  /** Every place is copied by one character. */
  ghost predicate Singly(piece: nat -> string, n: nat, to: nat -> char) {
    (forall i: nat :: i < n ==> piece(i) == [to(i)]) && forall i: nat :: i >= n ==> piece(i) == []
  }

  lemma {:induction false} GatheredSingly(piece: nat -> string, n: nat, to: nat -> char, at: nat, room: nat)
    requires Singly(piece, n, to) && at <= n <= at + room
    ensures var g := Gather(piece, at, room);
            |g| == n - at && forall i :: 0 <= i < |g| ==> g[i] == to(at + i)
    decreases room
  {
    if at < n {
      GatheredSingly(piece, n, to, at + 1, room - 1);
    } else {
      assert piece(at) == [];
    }
  }

  /** A byte on its own: a control becomes a blank, and one that is not ASCII and starts
      nothing a question mark. */
  function Alone(c: char): char {
    if c as int >= 128 then '?' else if c as int <= 31 || c as int == 127 then ' ' else c
  }

  /** ASCII, and bytes that only continue a sequence. */
  predicate Lone(c: char) {
    c as int < 128 || 128 <= c as int <= 191
  }

  predicate AllLone(s: string) {
    forall i :: 0 <= i < |s| ==> Lone(s[i])
  }

  lemma LonePiece(s: string, i: nat)
    requires AllLone(s)
    ensures Piece(s, i) == if i < |s| then [Alone(s[i])] else []
  {
    if i < |s| && s[i] as int >= 128 {
      assert s[i..][0] == s[i];
    }
  }

  /** Names of up to 96 bytes that each stand alone are copied byte by byte. */
  lemma ScrubbedAlone(s: string)
    requires AllLone(s) && |s| <= 96
    ensures var g := Scrub(s);
            |g| == |s| && forall i :: 0 <= i < |s| ==> g[i] == Alone(s[i])
  {
    var to := (i: nat) => if i < |s| then Alone(s[i]) else ' ';
    forall i: nat ensures Pieces(s)(i) == if i < |s| then [to(i)] else [] {
      LonePiece(s, i);
    }
    GatheredSingly(Pieces(s), |s|, to, 0, NAME_BYTES);
  }

  lemma {:induction false} TrimmedText(s: string, n: nat)
    requires n <= |s| && (n > 0 ==> s[n - 1] != ' ') && forall i :: n <= i < |s| ==> s[i] == ' '
    ensures TrimRight(s) == s[..n]
    decreases |s|
  {
    if n < |s| {
      TrimmedText(s[..|s| - 1], n);
      assert s[..|s| - 1][..n] == s[..n];
    } else {
      assert s[..n] == s;
    }
  }

  /** Such a name comes out blank for blank and mark for mark, without the blanks at its
      end; a name of blanks is replaced by the fallback, or by a fixed one. */
  lemma SanitizedAlone(s: string, fallback: string, n: nat)
    requires AllLone(s) && |s| <= 96 && |fallback| <= 96
    requires n <= |s| && (n > 0 ==> Alone(s[n - 1]) != ' ') && forall i :: n <= i < |s| ==> Alone(s[i]) == ' '
    ensures var r := Sanitize(s, fallback);
            if n > 0 then |r| == n && forall i :: 0 <= i < n ==> r[i] == Alone(s[i])
            else r == if fallback == [] then "Bluetooth device" else fallback
  {
    ScrubbedAlone(s);
    TrimmedText(Scrub(s), n);
  }
}
