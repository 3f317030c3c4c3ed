// The two databases of netstream.c share one shape: a table of records found by key, with
// a default, kept in a text file of percent-encoded tab-separated lines.  What they share
// is stated here once, for any record format; NetstreamWifi and NetstreamHosts are the two.

module NetstreamTable {
  import opened Options
  import opened Utf8
  import opened Percent
  import opened Fields
  import opened NetstreamText

  const DB_MAX_BYTES := 262144

  datatype Table<T> = Table(items: seq<T>, selected: string)

  /** A record format: its file header and line tag, how many fields a line has, how many
      records fit, and how records are named, checked, printed and read. */
  datatype Format<!T> = Format(header: string, tag: string, width: nat, limit: nat, keyBytes: nat,
                               key: T -> string, valid: T -> bool, fields: T -> seq<string>, parse: seq<string> -> Option<T>)

  const LINE_MAX := 1200

  /** What a format must provide. */
  ghost predicate FormatOk<T(!new)>(f: Format<T>) {
    && 2 <= f.width && (f.limit + 2) * (LINE_MAX + 1) <= DB_MAX_BYTES && f.keyBytes <= 96
    && CText(f.header) && '\n' !in f.header && |f.header| <= LINE_MAX
    && Visible(f.tag) && |f.tag| == 1 && f.tag != "D"
    && (forall x: T :: f.valid(x) ==> RecordOk(f, x))
  }

  ghost predicate RecordOk<T>(f: Format<T>, x: T) {
    && CText(f.key(x)) && 0 < |f.key(x)| <= f.keyBytes
    && |f.fields(x)| == f.width > 0 && f.fields(x)[0] == f.tag
    && AllVisible(f.fields(x))
    && |Join(f.fields(x))| <= LINE_MAX
    && f.parse(f.fields(x)) == Some(x)
  }

  // ----- keyed operations -----

  /** The first record with this key. */
  function Find<T>(f: Format<T>, items: seq<T>, key: string): Option<nat>
    decreases |items|
  {
    if items == [] then None
    else
      var n := |items| - 1;
      match Find(f, items[..n], key)
      case Some(i) => Some(i)
      case None => if f.key(items[n]) == key then Some(n) else None
  }

  lemma {:induction false} FindSpec<T>(f: Format<T>, items: seq<T>, key: string)
    ensures match Find(f, items, key)
            case None => forall i :: 0 <= i < |items| ==> f.key(items[i]) != key
            case Some(i) => i < |items| && f.key(items[i]) == key && forall j :: 0 <= j < i ==> f.key(items[j]) != key
    decreases |items|
  {
    if items != [] {
      FindSpec(f, items[..|items| - 1], key);
    }
  }

  predicate DistinctKeys<T>(f: Format<T>, items: seq<T>) {
    forall i, j :: 0 <= i < j < |items| ==> f.key(items[i]) != f.key(items[j])
  }

  /** validate_wifi_db and validate_host_db */
  predicate ValidTable<T>(f: Format<T>, t: Table<T>) {
    && |t.items| <= f.limit && (forall i :: 0 <= i < |t.items| ==> f.valid(t.items[i])) && DistinctKeys(f, t.items)
    && (t.selected == [] || Find(f, t.items, t.selected).Some?)
  }

  datatype Outcome<T> = Changed(table: Table<T>) | Refused

  /** The record stored under a key. */
  function Lookup<T>(f: Format<T>, t: Table<T>, key: string): Option<T> {
    match Find(f, t.items, key)
    case None => None
    case Some(i) => FindSpec(f, t.items, key); Some(t.items[i])
  }

  function Upsert<T>(f: Format<T>, t: Table<T>, x: T): Outcome<T> {
    if |t.items| > f.limit || !f.valid(x) then Refused
    else match Find(f, t.items, f.key(x))
      case Some(i) => FindSpec(f, t.items, f.key(x)); Changed(t.(items := t.items[i := x]))
      case None => if |t.items| >= f.limit then Refused else Changed(t.(items := t.items + [x]))
  }

  /** A name that could be a key at all; ns_wifi_forget and ns_host_delete refuse others. */
  predicate KeyText<T>(f: Format<T>, key: string) {
    1 <= |key| <= f.keyBytes && Clean(key)
  }

  function Forget<T>(f: Format<T>, t: Table<T>, key: string): Outcome<T> {
    if !KeyText(f, key) then Refused
    else match Find(f, t.items, key)
      case None => Refused
      case Some(i) =>
        FindSpec(f, t.items, key);
        Changed(Table(t.items[..i] + t.items[i + 1..], if t.selected == key then [] else t.selected))
  }

  function Select<T>(f: Format<T>, t: Table<T>, key: string): Outcome<T> {
    if Find(f, t.items, key).None? then Refused else Changed(t.(selected := key))
  }

  /** With distinct keys a record is found wherever it stands. */
  lemma FoundAt<T>(f: Format<T>, items: seq<T>, i: nat)
    requires DistinctKeys(f, items) && i < |items|
    ensures Find(f, items, f.key(items[i])) == Some(i)
  {
    FindSpec(f, items, f.key(items[i]));
  }

  /** Storing a record keeps the table valid, puts exactly that record under its key, and
      leaves every other key and the default as they were. */
  lemma UpsertStores<T>(f: Format<T>, t: Table<T>, x: T, other: string)
    requires ValidTable(f, t) && Upsert(f, t, x).Changed?
    ensures var u := Upsert(f, t, x).table;
            && ValidTable(f, u) && Lookup(f, u, f.key(x)) == Some(x) && u.selected == t.selected
            && (other != f.key(x) ==> Lookup(f, u, other) == Lookup(f, t, other))
  {
    var u := Upsert(f, t, x).table;
    var at := if Find(f, t.items, f.key(x)).Some? then Find(f, t.items, f.key(x)).value else |t.items|;
    FindSpec(f, t.items, f.key(x));
    assert DistinctKeys(f, u.items);
    assert u.items[at] == x;
    FoundAt(f, u.items, at);
    SameElsewhere(f, t.items, u.items, at, other);
    SameElsewhere(f, t.items, u.items, at, t.selected);
    FindSpec(f, t.items, t.selected);
  }

  /** Two tables alike but for one place find the same under keys that are not there. */
  lemma SameElsewhere<T>(f: Format<T>, a: seq<T>, b: seq<T>, at: nat, key: string)
    requires DistinctKeys(f, a) && DistinctKeys(f, b) && at < |b|
    requires (at < |a| && b == a[at := b[at]]) || (at == |a| && b == a + [b[at]])
    requires at < |a| ==> f.key(a[at]) == f.key(b[at])
    ensures f.key(b[at]) != key ==> Find(f, b, key) == Find(f, a, key)
    ensures f.key(b[at]) != key && Find(f, a, key).Some? ==>
              Find(f, a, key).value < |a| && b[Find(f, a, key).value] == a[Find(f, a, key).value]
  {
    if f.key(b[at]) != key {
      FindSpec(f, a, key);
      assert forall i :: 0 <= i < |a| && i != at ==> b[i] == a[i];
      if Find(f, a, key).Some? {
        FoundAt(f, b, Find(f, a, key).value);
      } else {
        assert forall i :: 0 <= i < |b| ==> f.key(b[i]) != key;
        FindSpec(f, b, key);
      }
    }
  }

  /** Forgetting removes that record and no other, keeps the order, and clears the default
      exactly when it named the record. */
  lemma ForgetRemoves<T>(f: Format<T>, t: Table<T>, key: string, other: string)
    requires ValidTable(f, t) && Forget(f, t, key).Changed?
    ensures var u := Forget(f, t, key).table;
            && ValidTable(f, u) && Lookup(f, u, key) == None
            && u.selected == (if t.selected == key then [] else t.selected)
            && (other != key ==> Lookup(f, u, other) == Lookup(f, t, other))
  {
    var u := Forget(f, t, key).table;
    var at := Find(f, t.items, key).value;
    FindSpec(f, t.items, key);
    RemovedKeys(f, t.items, at);
    FindSpec(f, u.items, key);
    SameAfterRemoval(f, t.items, at, other);
    SameAfterRemoval(f, t.items, at, t.selected);
  }

  lemma RemovedKeys<T>(f: Format<T>, items: seq<T>, at: nat)
    requires DistinctKeys(f, items) && at < |items|
    ensures var rest := items[..at] + items[at + 1..];
            DistinctKeys(f, rest) && forall i :: 0 <= i < |rest| ==> rest[i] in items && f.key(rest[i]) != f.key(items[at])
  {
    var rest := items[..at] + items[at + 1..];
    assert forall i :: 0 <= i < |rest| ==> rest[i] == items[if i < at then i else i + 1];
  }

  lemma SameAfterRemoval<T>(f: Format<T>, items: seq<T>, at: nat, key: string)
    requires DistinctKeys(f, items) && at < |items|
    ensures var rest := items[..at] + items[at + 1..];
            f.key(items[at]) != key ==>
              Lookup(f, Table(rest, []), key) == Lookup(f, Table(items, []), key)
  {
    if f.key(items[at]) != key {
      var rest := items[..at] + items[at + 1..];
      RemovedKeys(f, items, at);
      FindSpec(f, items, key);
      FindSpec(f, rest, key);
      if Find(f, items, key).Some? {
        var i := Find(f, items, key).value;
        assert items[i] == rest[if i < at then i else i - 1];
        FoundAt(f, rest, if i < at then i else i - 1);
      } else {
        assert forall i :: 0 <= i < |rest| ==> rest[i] == items[if i < at then i else i + 1];
      }
    }
  }

  /** Selecting keeps the table valid and makes an existing record the default. */
  lemma SelectKeepsValid<T>(f: Format<T>, t: Table<T>, key: string)
    requires ValidTable(f, t) && Select(f, t, key).Changed?
    ensures var u := Select(f, t, key).table;
            ValidTable(f, u) && u.items == t.items && u.selected == key && Lookup(f, u, key).Some?
  {
  }

  // ----- exactly when an operation succeeds -----

  /** A record is stored under the key. */
  predicate HasKey<T>(f: Format<T>, items: seq<T>, key: string) {
    exists i :: 0 <= i < |items| && f.key(items[i]) == key
  }

  lemma FoundExactly<T>(f: Format<T>, items: seq<T>, key: string)
    ensures Find(f, items, key).Some? <==> HasKey(f, items, key)
  {
    FindSpec(f, items, key);
  }

  /** Storing succeeds if and only if the record is valid and its key is there or there is
      room.  A new one goes to the end; a known one takes the place of the old. */
  lemma UpsertExactly<T>(f: Format<T>, t: Table<T>, x: T)
    requires ValidTable(f, t)
    ensures Upsert(f, t, x).Changed? <==> f.valid(x) && (HasKey(f, t.items, f.key(x)) || |t.items| < f.limit)
    ensures Upsert(f, t, x).Changed? ==>
              var u := Upsert(f, t, x).table;
              && (if HasKey(f, t.items, f.key(x)) then |u.items| == |t.items| else u.items == t.items + [x])
              && (forall i :: 0 <= i < |t.items| ==> u.items[i] == if f.key(t.items[i]) == f.key(x) then x else t.items[i])
  {
    FoundExactly(f, t.items, f.key(x));
    FindSpec(f, t.items, f.key(x));
  }

  /** Forgetting succeeds if and only if the name is well formed and a record has it; the
      others keep their order. */
  lemma ForgetExactly<T>(f: Format<T>, t: Table<T>, key: string)
    ensures Forget(f, t, key).Changed? <==> 1 <= |key| <= f.keyBytes && Clean(key) && HasKey(f, t.items, key)
    ensures ValidTable(f, t) && Forget(f, t, key).Changed? ==>
              var u := Forget(f, t, key).table;
              exists at :: 0 <= at < |t.items| && f.key(t.items[at]) == key && u.items == t.items[..at] + t.items[at + 1..]
  {
    FoundExactly(f, t.items, key);
    FindSpec(f, t.items, key);
  }

  /** Selecting succeeds if and only if a record has the key. */
  lemma SelectExactly<T>(f: Format<T>, t: Table<T>, key: string)
    ensures Select(f, t, key).Changed? <==> HasKey(f, t.items, key)
  {
    FoundExactly(f, t.items, key);
  }
}
