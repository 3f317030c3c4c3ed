// Saving and loading a netstream table: ns_wifi_save/ns_wifi_load and
// ns_hosts_save/ns_hosts_load, for any record format.

module NetstreamFile {
  import opened Options
  import opened Utf8
  import opened Percent
  import opened Fields
  import opened NetstreamText
  import opened NetstreamTable

  // ----- saving -----

  lemma SelectedIsText<T(!new)>(f: Format<T>, t: Table<T>)
    requires FormatOk(f) && ValidTable(f, t)
    ensures CText(t.selected) && |t.selected| <= f.keyBytes
  {
    if t.selected != [] {
      FindSpec(f, t.items, t.selected);
      assert RecordOk(f, t.items[Find(f, t.items, t.selected).value]);
    }
  }

  function DefaultFields(selected: string): seq<string>
    requires Octets(selected)
  {
    ["D", Encode(selected)]
  }

  function RecordLines<T>(f: Format<T>, items: seq<T>): (lines: seq<string>)
    requires forall i :: 0 <= i < |items| ==> f.fields(items[i]) != []
    ensures |lines| == |items| && forall i :: 0 <= i < |items| ==> lines[i] == Join(f.fields(items[i]))
  {
    seq(|items|, i requires 0 <= i < |items| => Join(f.fields(items[i])))
  }

  function AllLines<T>(f: Format<T>, t: Table<T>): seq<string>
    requires Octets(t.selected) && forall i :: 0 <= i < |t.items| ==> f.fields(t.items[i]) != []
  {
    [f.header, Join(DefaultFields(t.selected))] + RecordLines(f, t.items)
  }

  lemma RecordsHaveFields<T(!new)>(f: Format<T>, items: seq<T>)
    requires FormatOk(f) && forall i :: 0 <= i < |items| ==> f.valid(items[i])
    ensures forall i :: 0 <= i < |items| ==> f.fields(items[i]) != []
  {
    forall i | 0 <= i < |items| ensures f.fields(items[i]) != [] {
      assert RecordOk(f, items[i]);
    }
  }

  /** The bytes to be written, or None if the table is invalid or does not fit the buffer. */
  function Save<T(!new)>(f: Format<T>, t: Table<T>): Option<string>
    requires FormatOk(f)
  {
    if !ValidTable(f, t) then None
    else
      SelectedIsText(f, t);
      RecordsHaveFields(f, t.items);
      var text := Unlines(AllLines(f, t));
      if |text| > DB_MAX_BYTES then None else Some(text)
  }

  // ----- loading -----

  /** A line as the C string functions see it: up to the first NUL. */
  function CString(s: string): string {
    s[..IndexOf(s, '\0')]
  }

  function LoadDefault<T>(f: Format<T>, line: string): Option<string> {
    var fields := Split(line);
    if |line| < 2 || line[..2] != "D\t" || |fields| != 2 || fields[0] != "D" then None
    else match StrictDecode(fields[1])
      case Some(s) => if |s| <= f.keyBytes then Some(s) else None
      case None => None
  }

  function LoadRecord<T>(f: Format<T>, line: string, items: seq<T>): Option<T> {
    var fields := Split(line);
    if |items| >= f.limit || |line| < 2 || line[..2] != f.tag + "\t" || |fields| != f.width || fields[0] != f.tag then None
    else match f.parse(fields)
      case Some(x) => if f.valid(x) && Find(f, items, f.key(x)).None? then Some(x) else None
      case None => None
  }

  function LoadRecords<T>(f: Format<T>, lines: seq<string>, items: seq<T>): Option<seq<T>>
    decreases |lines|
  {
    if lines == [] then Some(items)
    else match LoadRecord(f, CString(lines[0]), items)
      case None => None
      case Some(x) => LoadRecords(f, lines[1..], items + [x])
  }

  function LoadLines<T>(f: Format<T>, lines: seq<string>): Option<Table<T>> {
    if |lines| < 2 || CString(lines[0]) != f.header then None
    else match (LoadDefault(f, CString(lines[1])), LoadRecords(f, lines[2..], []))
      case (Some(selected), Some(items)) =>
        if ValidTable(f, Table(items, selected)) then Some(Table(items, selected)) else None
      case _ => None
  }

  function Load<T>(f: Format<T>, text: string): Option<Table<T>> {
    if |text| == 0 || |text| > DB_MAX_BYTES || text[|text| - 1] != '\n' then None else LoadLines(f, Lines(text))
  }

  /** Nothing invalid is ever loaded. */
  lemma LoadedIsValid<T>(f: Format<T>, text: string)
    requires Load(f, text).Some?
    ensures ValidTable(f, Load(f, text).value)
  {
  }

  // ----- what a NUL hides -----

  lemma CStringOfText(s: string)
    requires '\0' !in s
    ensures CString(s) == s
  {
    IndexOfAbsent(s, '\0');
    assert s[..|s|] == s;
  }

  /** Every line up to its first NUL. */
  function CutAll(lines: seq<string>): (r: seq<string>)
    ensures |r| == |lines| && forall i :: 0 <= i < |lines| ==> r[i] == CString(lines[i])
  {
    seq(|lines|, i requires 0 <= i < |lines| => CString(lines[i]))
  }

  function CutText(text: string): string {
    Unlines(CutAll(Lines(text)))
  }

  lemma CutAgain(s: string)
    ensures '\0' !in CString(s) && CString(CString(s)) == CString(s)
  {
    CStringOfText(CString(s));
  }

  lemma {:induction false} RecordsSeeCut<T>(f: Format<T>, lines: seq<string>, items: seq<T>)
    ensures LoadRecords(f, CutAll(lines), items) == LoadRecords(f, lines, items)
    decreases |lines|
  {
    if lines != [] {
      CutAgain(lines[0]);
      assert CutAll(lines)[1..] == CutAll(lines[1..]);
      match LoadRecord(f, CString(lines[0]), items) {
        case None =>
        case Some(x) => RecordsSeeCut(f, lines[1..], items + [x]);
      }
    }
  }

  lemma LinesSeeCut<T>(f: Format<T>, lines: seq<string>)
    ensures LoadLines(f, CutAll(lines)) == LoadLines(f, lines)
  {
    if |lines| >= 2 {
      CutAgain(lines[0]);
      CutAgain(lines[1]);
      RecordsSeeCut(f, lines[2..], []);
      assert CutAll(lines)[2..] == CutAll(lines[2..]);
    }
  }

  lemma {:induction false} CutIsShorter(lines: seq<string>)
    ensures |Unlines(CutAll(lines))| <= |Unlines(lines)|
    decreases |lines|
  {
    if lines != [] {
      assert CutAll(lines)[1..] == CutAll(lines[1..]);
      CutIsShorter(lines[1..]);
    }
  }

  lemma CutLinesOf(text: string)
    ensures Lines(CutText(text)) == CutAll(Lines(text))
  {
    LinesLack(text, '\n');
    LinesOfUnlines(CutAll(Lines(text)));
  }

  /** A text of permitted size loads to whatever its lines load to up to their first NUL;
      so the loader sees the whole text exactly when there is no NUL in it. */
  lemma LoadSeesUpToNul<T>(f: Format<T>, text: string)
    requires 0 < |text| <= DB_MAX_BYTES && text[|text| - 1] == '\n'
    ensures Load(f, text) == Load(f, CutText(text))
    ensures CutText(text) == text <==> '\0' !in text
  {
    UnlinesOfLines(text);
    CutIsShorter(Lines(text));
    CutLinesOf(text);
    LinesSeeCut(f, Lines(text));
    UnlinesEndsInNewline(CutAll(Lines(text)));
    CutIsWhole(text);
  }

  lemma CutIsWhole(text: string)
    requires text != [] && text[|text| - 1] == '\n'
    ensures CutText(text) == text <==> '\0' !in text
  {
    UnlinesOfLines(text);
    var lines := Lines(text);
    if '\0' in text {
      forall i | 0 <= i < |lines| ensures '\0' !in CutAll(lines)[i] {
        CutAgain(lines[i]);
      }
      UnlinesLacks(CutAll(lines), '\0');
    } else {
      LinesLack(text, '\0');
      forall i | 0 <= i < |lines| ensures CutAll(lines)[i] == lines[i] {
        CStringOfText(lines[i]);
      }
      assert CutAll(lines) == lines;
    }
  }

  /** Whatever stands behind a NUL in a line of a file that loads is not looked at: here
      behind the header of an empty database. */
  lemma NulHidesTail<T(!new)>(f: Format<T>, tail: string)
    requires FormatOk(f) && '\n' !in tail && |tail| <= LINE_MAX
    ensures Load(f, f.header + "\0" + tail + "\nD\t\n") == Some(Table([], []))
  {
    var first := f.header + "\0" + tail;
    var lines := [first, "D\t"];
    assert lines[1..] == ["D\t"] && ["D\t"][1..] == [];
    assert Unlines(["D\t"]) == "D\t\n";
    assert Unlines(lines) == first + "\nD\t\n";
    IndexOfUnique(f.header, '\0', tail);
    assert CString(first) == f.header;
    DefaultRoundTrip(f, []);
    assert Join(DefaultFields([])) == "D\t" by {
      assert DefaultFields([])[1..] == [[]];
    }
    LinesLoad(f, first, "D\t", [], Table([], []));
    assert [first, "D\t"] + [] == lines;
    TextLoads(f, lines, Table([], []));
  }

  // ----- what is saved is read back -----

  lemma FieldsRoundTrip(fields: seq<string>)
    requires fields != [] && AllVisible(fields)
    ensures CString(Join(fields)) == Join(fields) && Split(Join(fields)) == fields && '\n' !in Join(fields)
  {
    VisibleLine(fields, '\0');
    VisibleLine(fields, '\n');
    VisibleLine(fields, '\t');
    CStringOfText(Join(fields));
    SplitOfJoin(fields);
  }

  lemma TagFirst(tag: string, fields: seq<string>)
    requires |tag| == 1 && |fields| >= 2 && fields[0] == tag
    ensures |Join(fields)| >= 2 && Join(fields)[..2] == tag + "\t"
  {
    assert Join(fields) == tag + ['\t'] + Join(fields[1..]);
  }

  lemma DefaultRoundTrip<T>(f: Format<T>, selected: string)
    requires CText(selected) && |selected| <= f.keyBytes
    ensures var line := Join(DefaultFields(selected));
            CString(line) == line && LoadDefault(f, line) == Some(selected) && '\n' !in line
  {
    var fields := DefaultFields(selected);
    EncodeIsVisible(selected);
    FieldsRoundTrip(fields);
    TagFirst("D", fields);
    StrictRoundTrip(selected);
  }

  lemma RecordRoundTrip<T>(f: Format<T>, x: T, items: seq<T>)
    requires RecordOk(f, x) && f.width >= 2 && |f.tag| == 1 && f.valid(x) && |items| < f.limit && Find(f, items, f.key(x)).None?
    ensures var line := Join(f.fields(x));
            CString(line) == line && LoadRecord(f, line, items) == Some(x) && '\n' !in line
  {
    FieldsRoundTrip(f.fields(x));
    TagFirst(f.tag, f.fields(x));
  }

  lemma {:induction false} RecordsRoundTrip<T(!new)>(f: Format<T>, lines: seq<string>, items: seq<T>, earlier: seq<T>)
    requires FormatOk(f) && |earlier| + |items| <= f.limit && DistinctKeys(f, earlier + items)
    requires |lines| == |items| && forall i :: 0 <= i < |items| ==> f.valid(items[i]) && RecordOk(f, items[i]) && lines[i] == Join(f.fields(items[i]))
    ensures LoadRecords(f, lines, earlier) == Some(earlier + items)
    decreases |items|
  {
    if items == [] {
      assert earlier + items == earlier;
    } else {
      var x := items[0];
      NotYet(f, earlier, items);
      RecordRoundTrip(f, x, earlier);
      assert earlier + [x] + items[1..] == earlier + items;
      RecordsRoundTrip(f, lines[1..], items[1..], earlier + [x]);
    }
  }

  lemma NotYet<T>(f: Format<T>, earlier: seq<T>, items: seq<T>)
    requires items != [] && DistinctKeys(f, earlier + items)
    ensures Find(f, earlier, f.key(items[0])).None?
  {
    FindSpec(f, earlier, f.key(items[0]));
    var all := earlier + items;
    assert all[|earlier|] == items[0];
    assert forall i :: 0 <= i < |earlier| ==> all[i] == earlier[i];
  }

  lemma ShortLines<T(!new)>(f: Format<T>, t: Table<T>)
    requires FormatOk(f) && ValidTable(f, t) && Octets(t.selected) && |t.selected| <= f.keyBytes
    requires forall i :: 0 <= i < |t.items| ==> f.fields(t.items[i]) != []
    ensures |Unlines(AllLines(f, t))| <= DB_MAX_BYTES
  {
    var lines := AllLines(f, t);
    DefaultLength(t.selected);
    forall i | 0 <= i < |lines| ensures |lines[i]| <= LINE_MAX {
      if i >= 2 {
        assert RecordOk(f, t.items[i - 2]);
      }
    }
    UnlinesLength(lines, LINE_MAX);
    Widest(|lines|, f.limit + 2);
  }

  lemma DefaultLength(selected: string)
    requires Octets(selected) && |selected| <= 96
    ensures |Join(DefaultFields(selected))| <= LINE_MAX
  {
    var fields := DefaultFields(selected);
    assert fields[1..] == [Encode(selected)];
  }

  lemma Widest(a: nat, b: nat)
    requires a <= b
    ensures a * (LINE_MAX + 1) <= b * (LINE_MAX + 1)
  {
  }

  /** Serialising a valid table never hits the size limit. */
  lemma SaveSucceeds<T(!new)>(f: Format<T>, t: Table<T>)
    requires FormatOk(f)
    ensures Save(f, t).Some? <==> ValidTable(f, t)
  {
    if ValidTable(f, t) {
      SelectedIsText(f, t);
      RecordsHaveFields(f, t.items);
      ShortLines(f, t);
    }
  }

  /** Any lines with the right parts load to the table. */
  lemma LinesLoad<T>(f: Format<T>, first: string, second: string, records: seq<string>, t: Table<T>)
    requires CString(first) == f.header && LoadDefault(f, CString(second)) == Some(t.selected)
    requires LoadRecords(f, records, []) == Some(t.items) && ValidTable(f, t)
    ensures LoadLines(f, [first, second] + records) == Some(t)
  {
    assert ([first, second] + records)[2..] == records;
  }

  lemma TextLoads<T>(f: Format<T>, lines: seq<string>, t: Table<T>)
    requires lines != [] && NoneHas(lines, '\n') && |Unlines(lines)| <= DB_MAX_BYTES && LoadLines(f, lines) == Some(t)
    ensures Load(f, Unlines(lines)) == Some(t)
  {
    LinesOfUnlines(lines);
    UnlinesEndsInNewline(lines);
  }

  lemma NoNewlines<T(!new)>(f: Format<T>, t: Table<T>)
    requires FormatOk(f) && ValidTable(f, t) && CText(t.selected) && |t.selected| <= f.keyBytes
    requires forall i :: 0 <= i < |t.items| ==> f.fields(t.items[i]) != []
    ensures NoneHas(AllLines(f, t), '\n')
  {
    var lines := AllLines(f, t);
    DefaultRoundTrip(f, t.selected);
    forall i | 0 <= i < |lines| ensures '\n' !in lines[i] {
      if i >= 2 {
        assert RecordOk(f, t.items[i - 2]);
        FieldsRoundTrip(f.fields(t.items[i - 2]));
      }
    }
  }

  /** Loading what was saved returns the same table. */
  lemma SaveLoad<T(!new)>(f: Format<T>, t: Table<T>)
    requires FormatOk(f) && ValidTable(f, t)
    ensures Save(f, t).Some? && Load(f, Save(f, t).value) == Some(t)
  {
    SaveSucceeds(f, t);
    SelectedIsText(f, t);
    RecordsHaveFields(f, t.items);
    CStringOfText(f.header);
    DefaultRoundTrip(f, t.selected);
    var records := RecordLines(f, t.items);
    assert [] + t.items == t.items;
    RecordsRoundTrip(f, records, t.items, []);
    LinesLoad(f, f.header, Join(DefaultFields(t.selected)), records, t);
    NoNewlines(f, t);
    TextLoads(f, AllLines(f, t), t);
  }

  /** Whatever bytes were loaded: saving what they gave and loading it again changes nothing. */
  lemma LoadedIsStable<T(!new)>(f: Format<T>, text: string)
    requires FormatOk(f) && Load(f, text).Some?
    ensures var t := Load(f, text).value;
            Save(f, t).Some? && Load(f, Save(f, t).value) == Some(t)
  {
    LoadedIsValid(f, text);
    SaveLoad(f, Load(f, text).value);
  }

  // ----- whole sessions -----

  datatype Edit<T> = Put(record: T) | Drop(key: string) | Choose(key: string) | Reload

  /** One command of the tool; what is refused leaves the table alone.  Reload is a save
      followed by a load in the next process. */
  function Apply<T(!new)>(f: Format<T>, t: Table<T>, e: Edit<T>): Table<T>
    requires FormatOk(f)
  {
    match e
    case Put(x) => (match Upsert(f, t, x) case Changed(u) => u case Refused => t)
    case Drop(key) => (match Forget(f, t, key) case Changed(u) => u case Refused => t)
    case Choose(key) => (match Select(f, t, key) case Changed(u) => u case Refused => t)
    case Reload =>
      match Save(f, t)
      case None => t
      case Some(text) => (match Load(f, text) case Some(u) => u case None => Table([], []))
  }

  function ApplyAll<T(!new)>(f: Format<T>, t: Table<T>, edits: seq<Edit<T>>): Table<T>
    requires FormatOk(f)
    decreases |edits|
  {
    if edits == [] then t else ApplyAll(f, Apply(f, t, edits[0]), edits[1..])
  }

  lemma ApplyKeepsValid<T(!new)>(f: Format<T>, t: Table<T>, e: Edit<T>)
    requires FormatOk(f) && ValidTable(f, t)
    ensures ValidTable(f, Apply(f, t, e))
    ensures e.Reload? ==> Apply(f, t, e) == t
  {
    match e {
      case Put(x) => if Upsert(f, t, x).Changed? { UpsertStores(f, t, x, []); }
      case Drop(key) => if Forget(f, t, key).Changed? { ForgetRemoves(f, t, key, []); }
      case Choose(key) =>
      case Reload => SaveLoad(f, t);
    }
  }

  /** Whatever is stored, dropped, chosen and reloaded, in any order: the table stays valid. */
  lemma {:induction false} SessionsKeepValid<T(!new)>(f: Format<T>, t: Table<T>, edits: seq<Edit<T>>)
    requires FormatOk(f) && ValidTable(f, t)
    ensures ValidTable(f, ApplyAll(f, t, edits))
    decreases |edits|
  {
    if edits != [] {
      ApplyKeepsValid(f, t, edits[0]);
      SessionsKeepValid(f, Apply(f, t, edits[0]), edits[1..]);
    }
  }

  function WithoutReloads<T>(edits: seq<Edit<T>>): seq<Edit<T>>
    decreases |edits|
  {
    if edits == [] then []
    else (if edits[0].Reload? then [] else [edits[0]]) + WithoutReloads(edits[1..])
  }

  /** Saving and loading between commands is not observable. */
  lemma {:induction false} ReloadsChangeNothing<T(!new)>(f: Format<T>, t: Table<T>, edits: seq<Edit<T>>)
    requires FormatOk(f) && ValidTable(f, t)
    ensures ApplyAll(f, t, edits) == ApplyAll(f, t, WithoutReloads(edits))
    decreases |edits|
  {
    if edits != [] {
      ApplyKeepsValid(f, t, edits[0]);
      ReloadsChangeNothing(f, Apply(f, t, edits[0]), edits[1..]);
      var rest := WithoutReloads(edits[1..]);
      if edits[0].Reload? {
        assert [] + rest == rest;
      } else {
        assert ([edits[0]] + rest)[1..] == rest;
      }
    }
  }
}
