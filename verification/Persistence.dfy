/** Saving the name server's table to the metadata file, and loading it at the start. */
module Persistence {
  import opened Namespace
  import opened MetadataFile
  import opened NameServer
  import AccessList
  import Decimals
  import Text

  // ns_save_metadata
  method Save(r: Registry) returns (text: string)
    requires r.Valid()
    ensures text == Saved(r.model)
  {
    text := Decimals.Decimal(r.count) + "\n";
    var i := 0;
    while i < r.count
      invariant 0 <= i <= r.count && text + RecordsText(r.model[i..]) == Saved(r.model)
    {
      var f := r.files[i];
      assert f == r.model[i];
      FirstRecord(r.model, i);
      var record := WriteRecord(f);
      Text.Associative(text, record, RecordsText(r.model[i + 1..]));
      text := text + record;
      i := i + 1;
    }
    assert r.model[r.count..] == [];
  }

  method WriteRecord(f: Meta) returns (record: string)
    ensures record == RecordText(f)
  {
    var readers := WriteList(f.readers);
    var writers := WriteList(f.writers);
    return FileBody(f) + "\n" + ("READ|" + readers + "\n" + ("WRITE|" + writers + "\n"));
  }

  // ns_load_metadata: index and cache start afresh, and the table is what the file says.
  method Load(text: string) returns (r: Registry)
    ensures fresh(r) && r.model == Loaded(text) && r.servers == []
    ensures r.Filling() && (DistinctNames(r.model) ==> r.Valid())
  {
    r := new Registry();
    if text != "" {
      LoadLines(r, text[LineEnd(text)..]);
    }
    if DistinctNames(r.model) {
      LastIsFirst(r.index.model, r.model);
    }
  }

  // The loop over the lines after the first.
  method LoadLines(r: Registry, text: string)
    requires r.Filling() && r.model == []
    modifies r`count, r`model, r.files, r.index, r.index.buckets
    ensures r.Filling() && r.model == LoadFrom(text, Loading([], false))
  {
    var rest, current := text, false;
    while rest != "" && r.count < MAX_FILES
      invariant r.Filling() && (current ==> r.count > 0)
      invariant LoadFrom(rest, Loading(r.model, current)) == LoadFrom(text, Loading([], false))
      decreases |rest|
    {
      var n := LineEnd(rest);
      current := LoadTheLine(r, rest[..n], current);
      rest := rest[n..];
    }
  }

  // One line of the file.
  method LoadTheLine(r: Registry, raw: string, current: bool) returns (next: bool)
    requires r.Filling() && r.count < MAX_FILES && (current ==> r.count > 0)
    modifies r`count, r`model, r.files, r.index, r.index.buckets
    ensures r.Filling()
    ensures Loading(r.model, next) == LoadLine(Text.Trim(raw), Loading(old(r.model), current))
  {
    var line := Text.TrimString(raw);
    if line == "" {
      return current;
    }
    if "FILE|" <= line {
      next := LoadFileLine(r, line[5..]);
      return;
    }
    if current {
      LoadListLine(r, line);
    }
    return current;
  }

  // A line of access lists, if it is one, for the record read last.
  method LoadListLine(r: Registry, line: string)
    requires r.Filling() && r.count > 0 && line != "" && !("FILE|" <= line)
    modifies r`model, r.files
    ensures r.Filling()
    ensures r.model == LoadLine(line, Loading(old(r.model), true)).files
  {
    assert r.model != [];
    var last := r.files[r.count - 1];
    if "READ|" <= line {
      var readers := AccessList.ParseCsv(line[5..]);
      r.ReplaceLast(last.(readers := readers));
    } else if "WRITE|" <= line {
      var writers := AccessList.ParseCsv(line[6..]);
      r.ReplaceLast(last.(writers := writers));
    }
  }

  method LoadFileLine(r: Registry, payload: string) returns (next: bool)
    requires r.Filling() && r.count < MAX_FILES
    modifies r`count, r`model, r.files, r.index, r.index.buckets
    ensures r.Filling() && next == ValidFilename(Parts(payload)[0])
    ensures r.model == if next then old(r.model) + [RecordOf(Parts(payload))] else old(r.model)
  {
    var parts := SplitParts(payload);
    next := ValidFilename(parts[0]);
    if next {
      var f := ReadRecord(parts);
      r.LoadRecord(f);
    }
  }

  // Loading what was saved: the same table, with an index and a cache that agree with it.
  method SaveThenLoad(r: Registry) returns (again: Registry)
    requires r.Valid() && forall i :: 0 <= i < |r.model| ==> StorableMeta(r.model[i])
    ensures again.Valid() && again.model == Kept(r.model)
  {
    var text := Save(r);
    RoundTrip(r.model);
    assert DistinctNames(Kept(r.model));
    again := Load(text);
  }
}
