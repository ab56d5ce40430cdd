/** The metadata file of the name server: what is written for a table, and what is read back, line by line. */
module MetadataFile {
  import opened Wrappers
  import opened Text
  import opened Namespace
  import opened Decimals
  import AccessList
  import Wire

  const LINE_SIZE: nat := 8192
  const PARTS: nat := 13
  const MAX_IP_LENGTH: nat := 64
  const NONE := "N/A"

  // ---------- writing ----------

  function OrNone(user: string): string {
    if user == "" then NONE else user
  }

  function FieldsOf(f: Meta): (fields: seq<string>)
    ensures |fields| == PARTS
  {
    [f.name, f.owner, f.ip, Decimal(f.port), Decimal(f.size), Decimal(f.words), Decimal(f.chars),
     Decimal(f.created), Decimal(f.modified), Decimal(f.lastAccess), if f.isDirectory then "1" else "0",
     OrNone(f.lastAccessUser), OrNone(f.lastModifiedUser)]
  }

  function FileBody(f: Meta): string {
    "FILE|" + Wire.Joined(FieldsOf(f))
  }

  function RecordText(f: Meta): string {
    FileBody(f) + "\n" + ("READ|" + AccessList.Csv(f.readers) + "\n" + ("WRITE|" + AccessList.Csv(f.writers) + "\n"))
  }

  function RecordsText(fs: seq<Meta>): string {
    if fs == [] then "" else RecordText(fs[0]) + RecordsText(fs[1..])
  }

  function Saved(fs: seq<Meta>): string {
    Decimal(|fs|) + "\n" + RecordsText(fs)
  }

  // The names of a list with a comma after each but the last.
  method WriteList(us: seq<string>) returns (text: string)
    ensures text == AccessList.Csv(us)
  {
    text := "";
    for j := 0 to |us|
      invariant text == AccessList.Csv(us[..j]) + (if 0 < j < |us| then "," else "")
    {
      assert us[..j + 1][..j] == us[..j];
      text := text + us[j] + (if j + 1 < |us| then "," else "");
    }
    assert us[..|us|] == us;
  }

  // ---------- reading ----------

  // fgets: up to a newline, the end of the file, or the size of the buffer.
  function LineEnd(text: string): (n: nat)
    requires text != ""
    ensures 0 < n <= |text|
  {
    var newline := First(text, '\n');
    var whole := if newline < |text| then newline + 1 else newline;
    if whole >= LINE_SIZE then LINE_SIZE - 1 else whole
  }

  function Parts(payload: string): (parts: seq<string>)
    ensures 1 <= |parts| <= PARTS
  {
    FirstParts(Wire.Split(payload))
  }

  function FirstParts(all: seq<string>): seq<string> {
    if |all| > PARTS then all[..PARTS] else all
  }

  function FromCursor(payload: string, cursor: Option<nat>): seq<string>
    requires cursor.Some? ==> cursor.value <= |payload|
  {
    if cursor.Some? then Wire.Split(payload[cursor.value..]) else []
  }

  lemma AppendNothing(s: seq<string>)
    ensures s + [] == s
  {}

  // strchr: the part at the cursor, and where the next one starts, if there is one.
  method CutPart(payload: string, cursor: nat, ghost parts: seq<string>) returns (part: string, next: Option<nat>)
    requires cursor <= |payload| && Wire.Split(payload) == parts + Wire.Split(payload[cursor..])
    ensures next.Some? ==> next.value <= |payload|
    ensures Wire.Split(payload) == parts + [part] + FromCursor(payload, next)
  {
    var bar := Wire.FindDelimiter(payload, cursor);
    if bar == |payload| {
      LastPart(payload, cursor, parts);
      return payload[cursor..], None;
    }
    InnerPart(payload, cursor, bar, parts);
    return payload[cursor..bar], Some(bar + 1);
  }

  lemma LastPart(payload: string, cursor: nat, parts: seq<string>)
    requires cursor <= |payload| && First(payload[cursor..], Wire.DELIMITER) == |payload| - cursor
    ensures parts + Wire.Split(payload[cursor..]) == parts + [payload[cursor..]] + []
  {
    Wire.SplitLast(payload, cursor);
    AppendNothing(parts + [payload[cursor..]]);
  }

  lemma InnerPart(payload: string, cursor: nat, bar: nat, parts: seq<string>)
    requires cursor <= bar < |payload| && First(payload[cursor..], Wire.DELIMITER) == bar - cursor
    ensures parts + Wire.Split(payload[cursor..]) == parts + [payload[cursor..bar]] + Wire.Split(payload[bar + 1..])
  {
    Wire.SplitInner(payload, cursor, bar);
    Associative(parts, [payload[cursor..bar]], Wire.Split(payload[bar + 1..]));
  }

  // The loop that cuts a line at its separators and keeps empty fields.
  method SplitParts(payload: string) returns (parts: seq<string>)
    ensures parts == Parts(payload)
  {
    parts := [];
    var cursor: Option<nat> := Some(0);
    while |parts| < PARTS && cursor.Some?
      invariant |parts| <= PARTS && (cursor.Some? ==> cursor.value <= |payload|)
      invariant Wire.Split(payload) == parts + FromCursor(payload, cursor)
      decreases PARTS - |parts|
    {
      var part, next := CutPart(payload, cursor.value, parts);
      parts, cursor := parts + [part], next;
    }
    if |parts| == PARTS {
      FullParts(parts, FromCursor(payload, cursor));
    }
  }

  lemma FullParts(parts: seq<string>, more: seq<string>)
    requires |parts| == PARTS
    ensures FirstParts(parts + more) == parts
  {}

  function Part(parts: seq<string>, i: nat): string {
    if i < |parts| then parts[i] else ""
  }

  function UserOf(s: string): string {
    if s == NONE then "" else Cut(s, AccessList.MAX_USERNAME_LENGTH)
  }

  // A record from its parts; a line with fewer than eleven is of the older form without counts.
  function RecordOf(parts: seq<string>): Meta
    requires |parts| > 0
  {
    var owner := Cut(Part(parts, 1), AccessList.MAX_USERNAME_LENGTH);
    var ip := Cut(Part(parts, 2), MAX_IP_LENGTH);
    var port, size := Number(Part(parts, 3)), Number(Part(parts, 4));
    if |parts| >= 11 then
      Meta(parts[0], owner, ip, port, size, Number(parts[5]), Number(parts[6]), Number(parts[10]) != 0,
           Number(parts[7]), Number(parts[8]), Number(parts[9]),
           UserOf(Part(parts, 11)), UserOf(Part(parts, 12)), [], [])
    else
      Meta(parts[0], owner, ip, port, size, 0, 0, false,
           Number(Part(parts, 5)), Number(Part(parts, 6)), Number(Part(parts, 7)), "", "", [], [])
  }

  method ReadRecord(parts: seq<string>) returns (f: Meta)
    requires |parts| > 0
    ensures f == RecordOf(parts)
  {
    var owner := Cut(Part(parts, 1), AccessList.MAX_USERNAME_LENGTH);
    var ip := Cut(Part(parts, 2), MAX_IP_LENGTH);
    var port := ReadNumber(Part(parts, 3));
    var size := ReadNumber(Part(parts, 4));
    if |parts| >= 11 {
      var words := ReadNumber(parts[5]);
      var chars := ReadNumber(parts[6]);
      var created := ReadNumber(parts[7]);
      var modified := ReadNumber(parts[8]);
      var lastAccess := ReadNumber(parts[9]);
      var flag := ReadNumber(parts[10]);
      return Meta(parts[0], owner, ip, port, size, words, chars, flag != 0, created, modified, lastAccess,
                  UserOf(Part(parts, 11)), UserOf(Part(parts, 12)), [], []);
    }
    var created := ReadNumber(Part(parts, 5));
    var modified := ReadNumber(Part(parts, 6));
    var lastAccess := ReadNumber(Part(parts, 7));
    return Meta(parts[0], owner, ip, port, size, 0, 0, false, created, modified, lastAccess, "", "", [], []);
  }

  datatype Loading = Loading(files: seq<Meta>, current: bool)

  predicate Sane(l: Loading) {
    l.current ==> l.files != []
  }

  function WithReaders(l: Loading, us: seq<string>): Loading
    requires Sane(l) && l.current
  {
    var last := |l.files| - 1;
    Loading(l.files[last := l.files[last].(readers := us)], true)
  }

  function WithWriters(l: Loading, us: seq<string>): Loading
    requires Sane(l) && l.current
  {
    var last := |l.files| - 1;
    Loading(l.files[last := l.files[last].(writers := us)], true)
  }

  // One trimmed line. current says that the last record may still receive its access lists.
  function LoadLine(line: string, l: Loading): (r: Loading)
    requires Sane(l)
    ensures Sane(r)
  {
    if line == "" then l
    else if "FILE|" <= line then
      var parts := Parts(line[5..]);
      if ValidFilename(parts[0]) then Loading(l.files + [RecordOf(parts)], true) else Loading(l.files, false)
    else if l.current && "READ|" <= line then WithReaders(l, AccessList.Parsed(line[5..]))
    else if l.current && "WRITE|" <= line then WithWriters(l, AccessList.Parsed(line[6..]))
    else l
  }

  // A line is read before the table is found to be full.
  function LoadFrom(text: string, l: Loading): seq<Meta>
    requires Sane(l)
    decreases |text|
  {
    if text == "" || |l.files| >= MAX_FILES then l.files
    else
      var n := LineEnd(text);
      LoadFrom(text[n..], LoadLine(Trim(text[..n]), l))
  }

  // The count in the first line is not used.
  function Loaded(text: string): seq<Meta> {
    if text == "" then [] else LoadFrom(text[LineEnd(text)..], Loading([], false))
  }

  // ---------- the round trip ----------

  predicate ShortField(s: string, size: nat) {
    |s| < size && Wire.CleanField(s)
  }

  predicate StorableUser(u: string) {
    u == "" || AccessList.ValidUser(u)
  }

  predicate StorableList(us: seq<string>) {
    AccessList.Storable(us) && |AccessList.Csv(us)| < AccessList.MAX_FIELD_SIZE
  }

  // What a record must satisfy to survive: a valid name, no separators inside the fields, fields and access lists
  // that fit their buffers, and numbers in the range of their C types.
  predicate StorableMeta(f: Meta) {
    && ValidFilename(f.name) && Wire.CleanField(f.name)
    && ShortField(f.owner, AccessList.MAX_USERNAME_LENGTH) && ShortField(f.ip, MAX_IP_LENGTH)
    && Fits32(f.port) && Fits64(f.size) && Fits64(f.words) && Fits64(f.chars)
    && Fits64(f.created) && Fits64(f.modified) && Fits64(f.lastAccess)
    && StorableUser(f.lastAccessUser) && StorableUser(f.lastModifiedUser)
    && StorableList(f.readers) && StorableList(f.writers)
  }

  function Bare(f: Meta): Meta {
    f.(readers := [], writers := [])
  }

  lemma UserIsClean(u: string)
    requires StorableUser(u)
    ensures GoodField(OrNone(u)) && UserOf(OrNone(u)) == u && OrNone(u) != ""
    ensures !IsSpace(OrNone(u)[|OrNone(u)| - 1])
  {
    if u != "" {
      assert AccessList.IsUserChar(u[|u| - 1]);
      assert |u| > 1 ==> AccessList.IsUserChar(u[1]);
    }
  }

  lemma DecimalIsClean(n: int)
    requires Fits64(n)
    ensures GoodField(Decimal(n)) && Number(Decimal(n)) == n
  {
    NumberOfDecimal(n);
    DecimalLength(n);
  }

  lemma FlagIsClean(b: bool)
    ensures var s := if b then "1" else "0"; GoodField(s) && (Number(s) != 0) == b
  {
    assert Digits(1) == "1" && Digits(0) == "0";
    NumberOfDecimal(1);
    NumberOfDecimal(0);
  }

  predicate GoodField(s: string) {
    Wire.CleanField(s) && |s| < MAX_FILENAME_LENGTH
  }

  lemma FieldsClean(f: Meta)
    requires StorableMeta(f)
    ensures forall i :: 0 <= i < PARTS ==> GoodField(FieldsOf(f)[i])
  {
    DecimalIsClean(f.port);
    DecimalIsClean(f.size);
    DecimalIsClean(f.words);
    DecimalIsClean(f.chars);
    DecimalIsClean(f.created);
    DecimalIsClean(f.modified);
    DecimalIsClean(f.lastAccess);
    FlagIsClean(f.isDirectory);
    UserIsClean(f.lastAccessUser);
    UserIsClean(f.lastModifiedUser);
    AllGood(f.name, f.owner, f.ip, Decimal(f.port), Decimal(f.size), Decimal(f.words), Decimal(f.chars),
            Decimal(f.created), Decimal(f.modified), Decimal(f.lastAccess), if f.isDirectory then "1" else "0",
            OrNone(f.lastAccessUser), OrNone(f.lastModifiedUser));
  }

  lemma AllGood(a: string, b: string, c: string, d: string, e: string, f: string, g: string, h: string, i: string,
                j: string, k: string, l: string, m: string)
    requires GoodField(a) && GoodField(b) && GoodField(c) && GoodField(d) && GoodField(e) && GoodField(f) && GoodField(g)
    requires GoodField(h) && GoodField(i) && GoodField(j) && GoodField(k) && GoodField(l) && GoodField(m)
    ensures forall n :: 0 <= n < PARTS ==> GoodField([a, b, c, d, e, f, g, h, i, j, k, l, m][n])
  {}

  // A record is read back from its fields.
  lemma FieldsBack(f: Meta)
    requires StorableMeta(f)
    ensures RecordOf(FieldsOf(f)) == Bare(f)
  {
    DecimalIsClean(f.port);
    DecimalIsClean(f.size);
    DecimalIsClean(f.words);
    DecimalIsClean(f.chars);
    DecimalIsClean(f.created);
    DecimalIsClean(f.modified);
    DecimalIsClean(f.lastAccess);
    FlagIsClean(f.isDirectory);
    UserIsClean(f.lastAccessUser);
    UserIsClean(f.lastModifiedUser);
  }

  lemma {:induction false} JoinedAtMost(fields: seq<string>, width: nat)
    requires forall i :: 0 <= i < |fields| ==> |fields[i]| < width
    ensures |Wire.Joined(fields)| <= |fields| * width
  {
    if |fields| > 1 {
      JoinedAtMost(fields[..|fields| - 1], width);
    }
  }

  // A line that is short enough and free of newlines is read whole, and trimming takes off only its newline.
  lemma LineBack(body: string, more: string)
    requires body != "" && |body| < LINE_SIZE - 1 && '\n' !in body
    requires !IsSpace(body[0]) && !IsSpace(body[|body| - 1])
    ensures var text := body + "\n" + more;
            LineEnd(text) == |body| + 1 && Trim(text[..|body| + 1]) == body && text[|body| + 1..] == more
  {
    var text := body + "\n" + more;
    FirstIs(text, '\n', |body|);
    assert text[..|body| + 1] == body + "\n";
    TrimLine(body);
  }

  lemma LoadOneLine(body: string, more: string, l: Loading)
    requires body != "" && |body| < LINE_SIZE - 1 && '\n' !in body
    requires !IsSpace(body[0]) && !IsSpace(body[|body| - 1])
    requires Sane(l) && |l.files| < MAX_FILES
    ensures LoadFrom(body + "\n" + more, l) == LoadFrom(more, LoadLine(body, l))
  {
    LineBack(body, more);
  }

  lemma FileBodyFits(f: Meta)
    requires StorableMeta(f)
    ensures var body := FileBody(f);
            && body[5..] == Wire.Joined(FieldsOf(f)) && |body| < LINE_SIZE - 1 && '\n' !in body
            && !IsSpace(body[|body| - 1])
  {
    var fields, body := FieldsOf(f), FileBody(f);
    FieldsClean(f);
    JoinedAtMost(fields, MAX_FILENAME_LENGTH);
    Wire.JoinedClean(fields);
    UserIsClean(f.lastModifiedUser);
    var last := OrNone(f.lastModifiedUser);
    assert fields[PARTS - 1] == last;
    assert body[|body| - 1] == last[|last| - 1];
  }

  // A FILE line adds its record, still without access lists.
  lemma FileLineAdds(f: Meta, l: Loading)
    requires StorableMeta(f) && Sane(l)
    ensures LoadLine(FileBody(f), l) == Loading(l.files + [Bare(f)], true)
  {
    PartsOfLine(f);
    FieldsBack(f);
  }

  // The layout of a FILE line, part by part.
  lemma LineLayout(f: Meta)
    requires StorableMeta(f)
    ensures "FILE|" <= FileBody(f)
    ensures Parts(FileBody(f)[5..]) ==
      [f.name, f.owner, f.ip, Decimal(f.port), Decimal(f.size), Decimal(f.words), Decimal(f.chars),
       Decimal(f.created), Decimal(f.modified), Decimal(f.lastAccess), if f.isDirectory then "1" else "0",
       if f.lastAccessUser == "" then "N/A" else f.lastAccessUser,
       if f.lastModifiedUser == "" then "N/A" else f.lastModifiedUser]
  {
    PartsOfLine(f);
  }

  lemma PartsOfLine(f: Meta)
    requires StorableMeta(f)
    ensures "FILE|" <= FileBody(f) && Parts(FileBody(f)[5..]) == FieldsOf(f)
  {
    FileBodyFits(f);
    FieldsClean(f);
    Wire.SplitJoined(FieldsOf(f));
  }

  // The older form of a line, without counts, kind and users, is still read: the counts are zero, and the record is
  // a file.
  function OlderFields(f: Meta): seq<string> {
    [f.name, f.owner, f.ip, Decimal(f.port), Decimal(f.size), Decimal(f.created), Decimal(f.modified),
     Decimal(f.lastAccess)]
  }

  lemma OlderLineAdds(f: Meta, l: Loading)
    requires StorableMeta(f) && Sane(l)
    ensures LoadLine("FILE|" + Wire.Joined(OlderFields(f)), l) ==
      Loading(l.files + [Bare(f).(words := 0, chars := 0, isDirectory := false, lastAccessUser := "",
                                  lastModifiedUser := "")], true)
  {
    OlderParts(f);
    OlderFieldsBack(f);
    var line := "FILE|" + Wire.Joined(OlderFields(f));
    assert line[5..] == Wire.Joined(OlderFields(f));
  }

  lemma OlderParts(f: Meta)
    requires StorableMeta(f)
    ensures Parts(Wire.Joined(OlderFields(f))) == OlderFields(f)
  {
    DecimalIsClean(f.port);
    DecimalIsClean(f.size);
    DecimalIsClean(f.created);
    DecimalIsClean(f.modified);
    DecimalIsClean(f.lastAccess);
    AllClean(f.name, f.owner, f.ip, Decimal(f.port), Decimal(f.size), Decimal(f.created), Decimal(f.modified),
             Decimal(f.lastAccess));
    Wire.SplitJoined(OlderFields(f));
  }

  lemma AllClean(a: string, b: string, c: string, d: string, e: string, f: string, g: string, h: string)
    requires Wire.CleanField(a) && Wire.CleanField(b) && Wire.CleanField(c) && Wire.CleanField(d)
    requires Wire.CleanField(e) && Wire.CleanField(f) && Wire.CleanField(g) && Wire.CleanField(h)
    ensures Wire.Clean([a, b, c, d, e, f, g, h])
  {}

  lemma OlderFieldsBack(f: Meta)
    requires StorableMeta(f)
    ensures RecordOf(OlderFields(f))
         == Bare(f).(words := 0, chars := 0, isDirectory := false, lastAccessUser := "", lastModifiedUser := "")
  {
    DecimalIsClean(f.port);
    DecimalIsClean(f.size);
    DecimalIsClean(f.created);
    DecimalIsClean(f.modified);
    DecimalIsClean(f.lastAccess);
  }

  // A FILE line without a valid name enters nothing, and the access lists that follow it go to no record.
  lemma SkippedRecord(bad: string, list: string, l: Loading)
    requires Sane(l) && "FILE|" <= bad && !ValidFilename(Parts(bad[5..])[0]) && ("READ|" <= list || "WRITE|" <= list)
    ensures LoadLine(bad, l).files == l.files && LoadLine(list, LoadLine(bad, l)).files == l.files
  {
    assert list[0] != 'F';
  }

  lemma ListBodyFits(prefix: string, us: seq<string>)
    requires StorableList(us) && 0 < |prefix| <= 6 && prefix[|prefix| - 1] == '|' && '\n' !in prefix
    ensures var body := prefix + AccessList.Csv(us);
            body[|prefix|..] == AccessList.Csv(us) && |body| < LINE_SIZE - 1 && '\n' !in body && !IsSpace(body[|body| - 1])
  {
    var csv := AccessList.Csv(us);
    CsvClean(us);
    if us != [] {
      var last := us[|us| - 1];
      assert AccessList.IsUserChar(last[|last| - 1]);
      assert csv[|csv| - 1] == last[|last| - 1];
    }
  }

  lemma {:induction false} CsvClean(us: seq<string>)
    requires forall i :: 0 <= i < |us| ==> AccessList.ValidUser(us[i])
    ensures '\n' !in AccessList.Csv(us) && (us != [] ==> AccessList.Csv(us) != "")
  {
    if us != [] {
      CsvClean(us[..|us| - 1]);
      var last := us[|us| - 1];
      assert forall i :: 0 <= i < |last| ==> AccessList.IsUserChar(last[i]);
    }
  }

  // The READ and WRITE lines give the last record its access lists.
  lemma ListLinesAdd(us: seq<string>, l: Loading)
    requires StorableList(us) && l.current && Sane(l)
    ensures LoadLine("READ|" + AccessList.Csv(us), l) == WithReaders(l, us)
    ensures LoadLine("WRITE|" + AccessList.Csv(us), l) == WithWriters(l, us)
  {
    AccessList.RoundTrip(us);
    var read, write := "READ|" + AccessList.Csv(us), "WRITE|" + AccessList.Csv(us);
    assert read[0] == 'R' && read[5..] == AccessList.Csv(us) && write[0] == 'W' && write[6..] == AccessList.Csv(us);
  }

  lemma ThreeLines(a: string, b: string, c: string, more: string)
    ensures a + "\n" + (b + "\n" + (c + "\n")) + more == a + "\n" + (b + "\n" + (c + "\n" + more))
  {}

  // One record read back. When it fills the table, its access lists are not read any more.
  lemma LoadRecord(f: Meta, more: string, l: Loading)
    requires StorableMeta(f) && Sane(l) && |l.files| < MAX_FILES
    ensures LoadFrom(RecordText(f) + more, l)
         == if |l.files| + 1 == MAX_FILES then l.files + [Bare(f)]
            else LoadFrom(more, Loading(l.files + [f], true))
  {
    var read, write := "READ|" + AccessList.Csv(f.readers), "WRITE|" + AccessList.Csv(f.writers);
    var rest := read + "\n" + (write + "\n" + more);
    ThreeLines(FileBody(f), read, write, more);
    FileBodyFits(f);
    LoadOneLine(FileBody(f), rest, l);
    FileLineAdds(f, l);
    if |l.files| + 1 < MAX_FILES {
      LoadLists(f, more, l);
    }
  }

  lemma LoadReaders(us: seq<string>, more: string, l: Loading)
    requires StorableList(us) && l.current && Sane(l) && |l.files| < MAX_FILES
    ensures LoadFrom("READ|" + AccessList.Csv(us) + "\n" + more, l) == LoadFrom(more, WithReaders(l, us))
  {
    ListBodyFits("READ|", us);
    LoadOneLine("READ|" + AccessList.Csv(us), more, l);
    ListLinesAdd(us, l);
  }

  lemma LoadWriters(us: seq<string>, more: string, l: Loading)
    requires StorableList(us) && l.current && Sane(l) && |l.files| < MAX_FILES
    ensures LoadFrom("WRITE|" + AccessList.Csv(us) + "\n" + more, l) == LoadFrom(more, WithWriters(l, us))
  {
    ListBodyFits("WRITE|", us);
    LoadOneLine("WRITE|" + AccessList.Csv(us), more, l);
    ListLinesAdd(us, l);
  }

  lemma LoadLists(f: Meta, more: string, l: Loading)
    requires StorableMeta(f) && Sane(l) && |l.files| + 1 < MAX_FILES
    ensures LoadFrom("READ|" + AccessList.Csv(f.readers) + "\n" + ("WRITE|" + AccessList.Csv(f.writers) + "\n" + more),
                     Loading(l.files + [Bare(f)], true))
         == LoadFrom(more, Loading(l.files + [f], true))
  {
    var l1 := Loading(l.files + [Bare(f)], true);
    LoadReaders(f.readers, "WRITE|" + AccessList.Csv(f.writers) + "\n" + more, l1);
    LoadWriters(f.writers, more, WithReaders(l1, f.readers));
    BothLists(l.files, f);
  }

  lemma BothLists(fs: seq<Meta>, f: Meta)
    ensures WithWriters(WithReaders(Loading(fs + [Bare(f)], true), f.readers), f.writers) == Loading(fs + [f], true)
  {
    assert (fs + [Bare(f)])[|fs| := Bare(f).(readers := f.readers)] == fs + [Bare(f).(readers := f.readers)];
  }

  // What survives: everything, but for the access lists of the record that fills the table.
  function Kept(fs: seq<Meta>): seq<Meta> {
    if |fs| == MAX_FILES then fs[MAX_FILES - 1 := Bare(fs[MAX_FILES - 1])] else fs
  }

  lemma FirstRecord(fs: seq<Meta>, n: nat)
    requires n < |fs| <= MAX_FILES
    ensures RecordsText(fs[n..]) == RecordText(fs[n]) + RecordsText(fs[n + 1..])
    ensures fs[..n + 1] == fs[..n] + [fs[n]]
    ensures n + 1 == MAX_FILES ==> Kept(fs) == fs[..n] + [Bare(fs[n])]
  {
    assert fs[n..][0] == fs[n] && fs[n..][1..] == fs[n + 1..];
  }

  lemma {:induction false} LoadRecords(fs: seq<Meta>, n: nat, l: Loading)
    requires |fs| <= MAX_FILES && forall i :: 0 <= i < |fs| ==> StorableMeta(fs[i])
    requires n <= |fs| && n < MAX_FILES && Sane(l) && l.files == fs[..n]
    ensures LoadFrom(RecordsText(fs[n..]), l) == Kept(fs)
    decreases |fs| - n
  {
    if n < |fs| {
      var f := fs[n];
      FirstRecord(fs, n);
      LoadRecord(f, RecordsText(fs[n + 1..]), l);
      if n + 1 < MAX_FILES {
        LoadRecords(fs, n + 1, Loading(fs[..n + 1], true));
      }
    } else {
      assert fs[n..] == [] && fs[..n] == fs;
    }
  }

  // The theorem about saving and loading: the table comes back record by record, access lists included, unless
  // it is full; then exactly the last record's access lists are lost.
  lemma RoundTrip(fs: seq<Meta>)
    requires |fs| <= MAX_FILES && forall i :: 0 <= i < |fs| ==> StorableMeta(fs[i])
    ensures Loaded(Saved(fs)) == Kept(fs)
    ensures Loaded(Saved(fs)) == fs
       <==> |fs| < MAX_FILES || (fs[|fs| - 1].readers == [] && fs[|fs| - 1].writers == [])
  {
    CountLine(|fs|, RecordsText(fs));
    assert fs[0..] == fs;
    LoadRecords(fs, 0, Loading([], false));
    if |fs| == MAX_FILES && Kept(fs) == fs {
      assert Kept(fs)[MAX_FILES - 1] == fs[MAX_FILES - 1];
    }
  }

  lemma CountLine(n: nat, more: string)
    requires n <= MAX_FILES
    ensures Loaded(Decimal(n) + "\n" + more) == LoadFrom(more, Loading([], false))
  {
    DecimalLength(n);
    var body := Decimal(n);
    assert IsDigit(body[0]) && IsDigit(body[|body| - 1]);
    LineBack(body, more);
  }
}
