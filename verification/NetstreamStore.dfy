// netstream.c as it runs: the growing buffer a database is written into, and the tables
// edited in place.  Each method is proved to be the corresponding function.

module NetstreamStore {
  import opened Options
  import opened Utf8
  import opened Percent
  import opened Fields
  import opened Cutting
  import opened NetstreamText
  import opened NetstreamTable
  import opened NetstreamFile

  /** NsBuffer: `data` is the allocation, with one byte more than the longest content for
      the terminating NUL. */
  class Buffer {
    var data: array<char>
    var length: nat

    ghost predicate Valid()
      reads this
    {
      data.Length <= DB_MAX_BYTES + 1 && (length < data.Length || (length == 0 && data.Length == 0))
    }

    ghost function Contents(): string
      reads this, data
      requires Valid()
    {
      data[..length]
    }

    constructor ()
      ensures Valid() && Contents() == [] && fresh(data)
    {
      data := new char[0];
      length := 0;
    }

    /** How far the capacity grows: doubling, or straight to the limit. */
    method Grown(wanted: nat) returns (capacity: nat)
      requires Valid() && data.Length < wanted <= DB_MAX_BYTES + 1
      ensures wanted <= capacity <= DB_MAX_BYTES + 1
    {
      capacity := if data.Length == 0 then 1024 else data.Length;
      while capacity < wanted
        invariant 0 < capacity <= DB_MAX_BYTES + 1
        decreases DB_MAX_BYTES + 1 - capacity
      {
        if capacity > DB_MAX_BYTES / 2 {
          return DB_MAX_BYTES + 1;
        }
        capacity := capacity * 2;
      }
    }

    /** buffer_reserve: room for `extra` more bytes and the NUL, unless that breaks the limit. */
    method Reserve(extra: nat) returns (ok: bool)
      requires Valid()
      modifies this
      ensures Valid() && length == old(length) && Contents() == old(Contents())
      ensures data == old(data) || fresh(data)
      ensures ok <==> old(length) + extra <= DB_MAX_BYTES
      ensures ok ==> length + extra < data.Length
    {
      if length + extra > DB_MAX_BYTES { return false; }
      var wanted := length + extra + 1;
      if wanted > data.Length {
        var capacity := Grown(wanted);
        var bigger := new char[capacity];
        for i := 0 to length
          modifies bigger
          invariant bigger[..i] == data[..i]
        {
          bigger[i] := data[i];
        }
        data := bigger;
      }
      ok := true;
    }

    /** buffer_append */
    method Append(text: string) returns (ok: bool)
      requires Valid()
      modifies this, data
      ensures Valid() && (data == old(data) || fresh(data))
      ensures ok <==> |old(Contents())| + |text| <= DB_MAX_BYTES
      ensures Contents() == if ok then old(Contents()) + text else old(Contents())
    {
      ok := Reserve(|text|);
      if !ok { return; }
      ghost var before := Contents();
      for i := 0 to |text|
        modifies data
        invariant forall k :: 0 <= k < length ==> data[k] == before[k]
        invariant forall k :: 0 <= k < i ==> data[length + k] == text[k]
      {
        data[length + i] := text[i];
      }
      length := length + |text|;
      data[length] := '\0';
      assert data[..length] == before + text;
    }

    /** buffer_encoded: byte by byte; a failure leaves what fitted. */
    method AppendEncoded(text: string) returns (ok: bool)
      requires Valid() && Octets(text)
      modifies this, data
      ensures Valid() && (data == old(data) || fresh(data))
      ensures ok <==> |old(Contents())| + |Encode(text)| <= DB_MAX_BYTES
      ensures ok ==> Contents() == old(Contents()) + Encode(text)
    {
      ghost var before := Contents();
      for i := 0 to |text|
        invariant Valid() && (data == old(data) || fresh(data))
        invariant Contents() == before + EncodedTo(text, i)
      {
        EncodeNext(text, i);
        ok := Append(EncodeByte(text[i]));
        if !ok { return; }
      }
      ok := true;
    }
  }

  /** The encoding of the first k bytes. */
  function EncodedTo(text: string, k: nat): (e: string)
    requires Octets(text) && k <= |text|
    ensures k == 0 ==> e == []
    ensures k == |text| ==> e == Encode(text)
  {
    assert k == |text| ==> text[..k] == text;
    Encode(text[..k])
  }

  lemma EncodeNext(text: string, k: nat)
    requires Octets(text) && k < |text|
    ensures EncodedTo(text, k + 1) == EncodedTo(text, k) + EncodeByte(text[k])
    ensures |EncodedTo(text, k)| + |EncodeByte(text[k])| <= |Encode(text)|
  {
    assert text[..k + 1] == text[..k] + [text[k]];
    EncodeOfAppend(text[..k], text[k]);
    EncodePrefix(text, k + 1);
  }

  /** A longer text encodes to something longer. */
  lemma {:induction false} EncodePrefix(text: string, k: nat)
    requires Octets(text) && k <= |text|
    ensures |EncodedTo(text, k)| <= |Encode(text)|
    decreases |text| - k
  {
    if k < |text| {
      assert text[..k + 1] == text[..k] + [text[k]];
      EncodeOfAppend(text[..k], text[k]);
      EncodePrefix(text, k + 1);
    }
  }

  /** The first lines written, and the next one to come. */
  lemma NextSaved(lines: seq<string>, k: nat)
    requires k < |lines|
    ensures Unlines(lines[..k + 1]) == Unlines(lines[..k]) + (lines[k] + ['\n'])
    ensures |Unlines(lines[..k])| + |lines[k] + ['\n']| <= |Unlines(lines)|
  {
    assert lines[..k + 1] == lines[..k] + [lines[k]];
    UnlinesOfAppend(lines[..k], lines[k]);
    UnlinesPrefix(lines, k + 1);
  }

  /** The header and default line, in the three pieces they are written in. */
  lemma Opening(header: string, selected: string)
    requires Octets(selected)
    ensures Unlines([header, Join(DefaultFields(selected))]) == header + "\nD\t" + Encode(selected) + "\n"
  {
    var line := Join(DefaultFields(selected));
    assert DefaultFields(selected)[1..] == [Encode(selected)];
    assert Join([Encode(selected)]) == Encode(selected);
    assert line == "D" + ['\t'] + Encode(selected);
    UnlinesOfAppend([header], line);
    UnlinesOfAppend([], header);
    assert [] + [header] == [header] && [header] + [line] == [header, line];
  }

  method WriteOpening(b: Buffer, header: string, selected: string) returns (ok: bool)
    requires b.Valid() && b.Contents() == [] && Octets(selected)
    modifies b, b.data
    ensures b.Valid() && (b.data == old(b.data) || fresh(b.data))
    ensures var text := Unlines([header, Join(DefaultFields(selected))]);
            (ok <==> |text| <= DB_MAX_BYTES) && (ok ==> b.Contents() == text)
  {
    Opening(header, selected);
    ok := WritePieces(b, header + "\nD\t", selected, "\n");
  }

  method WritePieces(b: Buffer, first: string, encoded: string, last: string) returns (ok: bool)
    requires b.Valid() && b.Contents() == [] && Octets(encoded)
    modifies b, b.data
    ensures b.Valid() && (b.data == old(b.data) || fresh(b.data))
    ensures ok <==> |first + Encode(encoded) + last| <= DB_MAX_BYTES
    ensures ok ==> b.Contents() == first + Encode(encoded) + last
  {
    ok := b.Append(first);
    if !ok { return; }
    assert b.Contents() == first;
    ok := b.AppendEncoded(encoded);
    if !ok { return; }
    ok := b.Append(last);
  }

  /** ns_wifi_save and ns_hosts_save, up to the bytes handed to atomic_write. */
  method SaveTable<T(!new)>(f: Format<T>, t: Table<T>) returns (text: Option<string>)
    requires FormatOk(f)
    ensures text == Save(f, t)
  {
    if !ValidTable(f, t) { return None; }
    SelectedIsText(f, t);
    RecordsHaveFields(f, t.items);
    ghost var lines := AllLines(f, t);
    assert lines[..2] == [f.header, Join(DefaultFields(t.selected))];
    UnlinesPrefix(lines, 2);
    var b := new Buffer();
    var ok := WriteOpening(b, f.header, t.selected);
    if !ok { return None; }
    for i := 0 to |t.items|
      invariant b.Valid() && fresh(b) && fresh(b.data) && b.Contents() == Unlines(lines[..2 + i])
    {
      NextSaved(lines, 2 + i);
      ok := b.Append(Join(f.fields(t.items[i])) + ['\n']);
      if !ok { return None; }
    }
    assert lines[..2 + |t.items|] == lines;
    text := Some(b.data[..b.length]);
  }

  /** ns_wifi_load and ns_hosts_load, from the bytes read. */
  method LoadTable<T(!new)>(f: Format<T>, text: string) returns (t: Option<Table<T>>)
    ensures t == Load(f, text)
  {
    if |text| == 0 || |text| > DB_MAX_BYTES || text[|text| - 1] != '\n' { return None; }
    var lines := CutLines(text);
    t := LoadCut(f, lines);
  }

  method LoadCut<T(!new)>(f: Format<T>, lines: seq<string>) returns (t: Option<Table<T>>)
    ensures t == LoadLines(f, lines)
  {
    if |lines| < 2 || CString(lines[0]) != f.header { return None; }
    var selected := LoadDefault(f, CString(lines[1]));
    if selected.None? { return None; }
    var items := LoadAll(f, lines[2..]);
    if items.None? || !ValidTable(f, Table(items.value, selected.value)) { return None; }
    t := Some(Table(items.value, selected.value));
  }

  method LoadAll<T(!new)>(f: Format<T>, lines: seq<string>) returns (items: Option<seq<T>>)
    ensures items == LoadRecords(f, lines, [])
  {
    var read: seq<T> := [];
    for n := 0 to |lines|
      invariant LoadRecords(f, lines, []) == LoadRecords(f, lines[n..], read)
    {
      assert lines[n..][1..] == lines[n + 1..];
      var x := LoadRecord(f, CString(lines[n]), read);
      if x.None? { return None; }
      read := read + [x.value];
    }
    items := Some(read);
  }

  // ----- tables in place -----

  /** A table as the program holds it: an array of slots and a count. */
  class Store<T(!new)> {
    const format: Format<T>
    const slots: array<T>
    const blank: T
    var count: nat
    var selected: string

    ghost predicate Valid()
      reads this
    {
      slots.Length == format.limit && count <= format.limit
    }

    ghost function Abs(): Table<T>
      reads this, slots
      requires Valid()
    {
      Table(slots[..count], selected)
    }

    constructor (format: Format<T>, blank: T)
      ensures Valid() && fresh(slots) && this.format == format && Abs() == Table([], [])
    {
      this.format, this.blank := format, blank;
      slots := new T[format.limit](_ => blank);
      count, selected := 0, [];
    }

    /** ns_wifi_find and ns_host_find */
    method FindRecord(key: string) returns (index: Option<nat>)
      requires Valid()
      ensures index == Find(format, slots[..count], key)
    {
      index := None;
      for i := 0 to count
        invariant index == Find(format, slots[..i], key)
      {
        assert slots[..i + 1][..i] == slots[..i];
        if index.None? && format.key(slots[i]) == key { index := Some(i); }
      }
    }

    /** ns_wifi_upsert and ns_host_upsert */
    method UpsertRecord(x: T) returns (ok: bool)
      requires Valid()
      modifies this, slots
      ensures Valid() && ok == Upsert(format, old(Abs()), x).Changed?
      ensures Abs() == if ok then Upsert(format, old(Abs()), x).table else old(Abs())
    {
      if !format.valid(x) { return false; }
      var index := FindRecord(format.key(x));
      FindSpec(format, slots[..count], format.key(x));
      if index.Some? {
        slots[index.value] := x;
        return true;
      }
      if count >= format.limit { return false; }
      slots[count] := x;
      count := count + 1;
      ok := true;
    }

    /** ns_wifi_forget and ns_host_delete: close the gap, blank the slot left over. */
    method ForgetRecord(key: string) returns (ok: bool)
      requires Valid() && Octets(key)
      modifies this, slots
      ensures Valid() && ok == Forget(format, old(Abs()), key).Changed?
      ensures Abs() == if ok then Forget(format, old(Abs()), key).table else old(Abs())
    {
      var text := ValidateUtf8Text(key, 1, format.keyBytes);
      if !text { return false; }
      var index := FindRecord(key);
      FindSpec(format, slots[..count], key);
      if index.None? { return false; }
      if selected == key { selected := []; }
      RemoveAt(index.value);
      ok := true;
    }

    method RemoveAt(index: nat)
      requires Valid() && index < count
      modifies this`count, slots
      ensures Valid() && slots[..count] == old(slots[..count])[..index] + old(slots[..count])[index + 1..]
    {
      ghost var before := slots[..count];
      assert slots[..index] == before[..index] && slots[index + 1..count] == before[index + 1..];
      CloseGap(index);
      count := count - 1;
      slots[count] := blank;
    }

    method CloseGap(index: nat)
      requires Valid() && index < count
      modifies slots
      ensures slots[..count - 1] == old(slots[..index]) + old(slots[index + 1..count])
    {
      ghost var before := slots[..count];
      for i := index to count - 1
        invariant slots[..i] == before[..index] + before[index + 1..i + 1]
        invariant slots[i + 1..count] == before[i + 1..]
      {
        assert slots[i + 1] == slots[i + 1..count][0] == before[i + 1];
        slots[i] := slots[i + 1];
        assert slots[..i + 1] == slots[..i] + [before[i + 1]];
        assert before[index + 1..i + 2] == before[index + 1..i + 1] + [before[i + 1]];
        assert slots[i + 2..count] == before[i + 2..];
      }
    }

    /** ns_wifi_select and ns_host_select */
    method SelectRecord(key: string) returns (ok: bool)
      requires Valid()
      modifies this
      ensures Valid() && ok == Select(format, old(Abs()), key).Changed?
      ensures Abs() == if ok then Select(format, old(Abs()), key).table else old(Abs())
    {
      var index := FindRecord(key);
      ok := index.Some?;
      if ok { selected := key; }
    }
  }
}
