/** The name server's table of files and folders as a plain sequence of records: paths, lookup, folder tree,
    what MOVE and DELETE make of the table, and the load of each storage server. */
module Namespace {
  import opened Wrappers

  const MAX_FILENAME_LENGTH: nat := 512
  const MAX_FILES: nat := 10000

  datatype Meta = Meta(
    name: string,
    owner: string,
    ip: string,
    port: int,
    size: int,
    words: int,
    chars: int,
    isDirectory: bool,
    created: int,
    modified: int,
    lastAccess: int,
    lastAccessUser: string,
    lastModifiedUser: string,
    readers: seq<string>,
    writers: seq<string>)

  datatype ErrorCode = InvalidRequest | FileNotFound | PermissionDenied | FileExists | Internal

  // ---------- lookup ----------

  predicate DistinctNames(fs: seq<Meta>) {
    forall i, j :: 0 <= i < j < |fs| ==> fs[i].name != fs[j].name
  }

  // The reference that every lookup is measured against: a linear search.
  function Find(fs: seq<Meta>, name: string): (r: Option<nat>)
    ensures r.Some? ==> r.value < |fs| && fs[r.value].name == name
    ensures forall i :: 0 <= i < (if r.Some? then r.value else |fs|) ==> fs[i].name != name
  {
    if fs == [] then None
    else if Find(fs[..|fs| - 1], name).Some? then Find(fs[..|fs| - 1], name)
    else if fs[|fs| - 1].name == name then Some(|fs| - 1)
    else None
  }

  lemma FindIs(fs: seq<Meta>, name: string, i: nat)
    requires DistinctNames(fs) && i < |fs| && fs[i].name == name
    ensures Find(fs, name) == Some(i)
  {
    assert Find(fs, name).Some?;
  }

  // The last record with a name; the same one when names are distinct.
  function FindLast(fs: seq<Meta>, name: string): (r: Option<nat>)
    ensures r.Some? ==> r.value < |fs| && fs[r.value].name == name
    ensures r.None? ==> forall i :: 0 <= i < |fs| ==> fs[i].name != name
  {
    if fs == [] then None
    else if fs[|fs| - 1].name == name then Some(|fs| - 1)
    else FindLast(fs[..|fs| - 1], name)
  }

  lemma FindLastIsFind(fs: seq<Meta>, name: string)
    requires DistinctNames(fs)
    ensures FindLast(fs, name) == Find(fs, name)
  {
    if FindLast(fs, name).Some? {
      FindIs(fs, name, FindLast(fs, name).value);
    }
  }

  lemma {:induction false} FindLastSameNames(fs: seq<Meta>, fs': seq<Meta>, name: string)
    requires |fs| == |fs'| && forall i :: 0 <= i < |fs| ==> fs'[i].name == fs[i].name
    ensures FindLast(fs', name) == FindLast(fs, name)
  {
    if fs != [] {
      FindLastSameNames(fs[..|fs| - 1], fs'[..|fs| - 1], name);
    }
  }

  // remove_file_metadata_locked on the table alone: the last record fills the gap.
  function RemoveSwap(fs: seq<Meta>, i: nat): (r: seq<Meta>)
    requires i < |fs|
    ensures |r| == |fs| - 1
    ensures forall j :: 0 <= j < |r| ==> r[j] == if j == i then fs[|fs| - 1] else fs[j]
  {
    fs[i := fs[|fs| - 1]][..|fs| - 1]
  }

  // Exactly the record at i goes; no name occurs twice.
  lemma RemoveSwapExact(fs: seq<Meta>, i: nat)
    requires DistinctNames(fs) && i < |fs|
    ensures DistinctNames(RemoveSwap(fs, i))
    ensures forall m :: m in RemoveSwap(fs, i) <==> m in fs && m != fs[i]
  {
    var r := RemoveSwap(fs, i);
    forall m | m in fs && m != fs[i]
      ensures m in r
    {
      var j :| 0 <= j < |fs| && fs[j] == m;
      assert r[if j == |fs| - 1 then i else j] == m;
    }
    forall m | m in r
      ensures m in fs && m != fs[i]
    {
      var j :| 0 <= j < |r| && r[j] == m;
      var k := if j == i then |fs| - 1 else j;
      assert fs[k] == m;
      assert if k < i then fs[k].name != fs[i].name else fs[i].name != fs[k].name;
    }
  }

  // ---------- paths ----------

  predicate ValidNameChar(c: char) {
    c != '<' && c != '>' && c != ':' && c != '"' && c != '|' && c != '?' && c != '*'
  }

  // validate_filename
  predicate ValidFilename(p: string) {
    0 < |p| < MAX_FILENAME_LENGTH && forall i :: 0 <= i < |p| ==> ValidNameChar(p[i])
  }

  // A segment that starts at i is "." or "..".
  predicate DotSegmentAt(p: string, i: nat) {
    && i < |p| && p[i] == '.' && (i == 0 || p[i - 1] == '/')
    && (i + 1 == |p| || p[i + 1] == '/' || (p[i + 1] == '.' && (i + 2 == |p| || p[i + 2] == '/')))
  }

  // ns_validate_logical_path
  predicate ValidPath(p: string) {
    && ValidFilename(p)
    && p[0] != '/' && p[|p| - 1] != '/'
    && (forall i :: 0 <= i < |p| - 1 ==> !(p[i] == '/' && p[i + 1] == '/'))
    && (forall i :: 0 <= i < |p| ==> !DotSegmentAt(p, i))
  }

  // The position of the last separator (strrchr).
  function LastSlash(p: string): (r: Option<nat>)
    ensures r.Some? ==> r.value < |p| && p[r.value] == '/' && forall i :: r.value < i < |p| ==> p[i] != '/'
    ensures r.None? ==> forall i :: 0 <= i < |p| ==> p[i] != '/'
  {
    if p == "" then None
    else if p[|p| - 1] == '/' then Some(|p| - 1)
    else LastSlash(p[..|p| - 1])
  }

  // ns_split_parent_child
  function Parent(p: string): string {
    match LastSlash(p) case None => "" case Some(i) => p[..i]
  }

  function BaseName(p: string): string {
    match LastSlash(p) case None => p case Some(i) => p[i + 1..]
  }

  lemma LastSlashIs(p: string, i: nat)
    requires i < |p| && p[i] == '/' && forall j :: i < j < |p| ==> p[j] != '/'
    ensures LastSlash(p) == Some(i)
  {
    if LastSlash(p).Some? {
      var j := LastSlash(p).value;
      assert !(i < j) && !(j < i);
    }
  }

  lemma BaseNameFacts(p: string)
    requires ValidPath(p)
    ensures BaseName(p) != "" && LastSlash(BaseName(p)).None? && Parent(BaseName(p)) == ""
  {
    var base := BaseName(p);
    forall j | 0 <= j < |base|
      ensures base[j] != '/'
    {
      assert base[j] == p[j + |p| - |base|];
    }
  }

  lemma JoinedParent(folder: string, base: string)
    requires LastSlash(base).None?
    ensures Parent(folder + "/" + base) == folder && BaseName(folder + "/" + base) == base
  {
    var joined := folder + "/" + base;
    forall j | |folder| < j < |joined|
      ensures joined[j] != '/'
    {
      assert joined[j] == base[j - |folder| - 1];
    }
    LastSlashIs(joined, |folder|);
  }

  // ns_is_descendant_path, for an ancestor other than the root: the path itself or one beneath it.
  predicate IsDescendant(candidate: string, ancestor: string) {
    ancestor == "" || (ancestor <= candidate && (|candidate| == |ancestor| || candidate[|ancestor|] == '/'))
  }

  // Strictly beneath a folder.
  predicate Beneath(name: string, folder: string) {
    folder <= name && |name| > |folder| && name[|folder|] == '/'
  }

  lemma BeneathParent(name: string, folder: string)
    requires Beneath(name, folder) && folder != ""
    ensures Parent(name) == folder || Beneath(Parent(name), folder)
  {
    var i := LastSlash(name).value;
    assert i >= |folder|;
    assert name[..i] == Parent(name);
    assert folder == name[..|folder|] == name[..i][..|folder|];
  }

  // ---------- the folder tree ----------

  predicate IsFolder(fs: seq<Meta>, name: string) {
    exists i :: 0 <= i < |fs| && fs[i].isDirectory && fs[i].name == name
  }

  // Every folder lies at the top or in a folder of the table. (Plain files are created without that check.)
  predicate FolderTree(fs: seq<Meta>) {
    forall i :: 0 <= i < |fs| && fs[i].isDirectory && Parent(fs[i].name) != "" ==> IsFolder(fs, Parent(fs[i].name))
  }

  // ---------- move ----------

  // The entries that a MOVE or DELETE of src is about.
  predicate Selected(m: Meta, src: string, whole: bool) {
    m.name == src || (whole && Beneath(m.name, src))
  }

  function NewName(name: string, src: string, root: string): string
    requires |src| <= |name|
  {
    root + name[|src|..]
  }

  function RenamedMeta(m: Meta, src: string, root: string, user: string, now: int): Meta
    requires |src| <= |m.name|
  {
    m.(name := NewName(m.name, src, root), modified := now, lastAccess := now,
       lastModifiedUser := user, lastAccessUser := user)
  }

  // The table after the first n records have been treated.
  function Moved(fs: seq<Meta>, n: nat, src: string, whole: bool, root: string, user: string, now: int): (r: seq<Meta>)
    ensures |r| == |fs|
    ensures forall i :: 0 <= i < |fs| ==>
      r[i] == if i < n && Selected(fs[i], src, whole) then RenamedMeta(fs[i], src, root, user, now) else fs[i]
  {
    seq(|fs|, i requires 0 <= i < |fs| =>
      if i < n && Selected(fs[i], src, whole) then RenamedMeta(fs[i], src, root, user, now) else fs[i])
  }

  // No selected entry gets a name that the table already has.
  predicate NoCollision(fs: seq<Meta>, src: string, whole: bool, root: string) {
    forall i, j :: 0 <= i < |fs| && 0 <= j < |fs| && Selected(fs[i], src, whole) ==>
      NewName(fs[i].name, src, root) != fs[j].name
  }

  // Prefix substitution is injective.
  lemma NewNameInjective(a: string, b: string, src: string, root: string)
    requires src <= a && src <= b && NewName(a, src, root) == NewName(b, src, root)
    ensures a == b
  {
    assert a == src + a[|src|..] && b == src + b[|src|..];
    assert a[|src|..] == NewName(a, src, root)[|root|..] == b[|src|..];
  }

  // Whatever prefix of the work is done, names stay distinct, and a name not yet treated is still found.
  lemma MovedDistinct(fs: seq<Meta>, n: nat, src: string, whole: bool, root: string, user: string, now: int)
    requires DistinctNames(fs) && NoCollision(fs, src, whole, root)
    ensures DistinctNames(Moved(fs, n, src, whole, root, user, now))
  {
    var r := Moved(fs, n, src, whole, root, user, now);
    forall i, j | 0 <= i < j < |r|
      ensures r[i].name != r[j].name
    {
      assert fs[i].name != fs[j].name;
      if r[i].name == r[j].name && r[i] != fs[i] && r[j] != fs[j] {
        NewNameInjective(fs[i].name, fs[j].name, src, root);
      }
    }
  }

  lemma NewNameBeneath(name: string, src: string, root: string)
    requires Beneath(name, src) && root != ""
    ensures Beneath(NewName(name, src, root), root)
    ensures src != "" && Parent(name) == src ==> Parent(NewName(name, src, root)) == root
    ensures src != "" && Beneath(Parent(name), src) ==>
              Parent(NewName(name, src, root)) == NewName(Parent(name), src, root)
  {
    var new' := NewName(name, src, root);
    var i := LastSlash(name).value;
    var k := i - |src| + |root|;
    assert i >= |src|;
    assert forall j :: |src| <= j < |name| ==> new'[j - |src| + |root|] == name[j];
    assert forall j :: k < j < |new'| ==> new'[j] == name[j - |root| + |src|];
    LastSlashIs(new', k);
    assert new'[..k] == root + name[|src|..i];
    assert name[..i][|src|..] == name[|src|..i];
  }

  // The folders named after the move: a selected folder keeps its place beneath the moved root.
  lemma MovedFolder(fs: seq<Meta>, src: string, whole: bool, root: string, user: string, now: int, name: string)
    requires IsFolder(fs, name)
    ensures var r := Moved(fs, |fs|, src, whole, root, user, now);
            if name == src || (whole && Beneath(name, src)) then IsFolder(r, NewName(name, src, root)) else IsFolder(r, name)
  {
    var r := Moved(fs, |fs|, src, whole, root, user, now);
    var i :| 0 <= i < |fs| && fs[i].isDirectory && fs[i].name == name;
    assert r[i].isDirectory;
  }

  // MOVE keeps every folder's parent an existing folder.
  lemma MoveKeepsTree(fs: seq<Meta>, src: string, whole: bool, root: string, user: string, now: int, at: nat)
    requires DistinctNames(fs) && FolderTree(fs) && at < |fs| && fs[at].name == src && fs[at].isDirectory == whole
    requires src != "" && root != ""
    requires Parent(root) != "" ==>
      IsFolder(fs, Parent(root)) && !(whole && (Parent(root) == src || Beneath(Parent(root), src)))
    ensures FolderTree(Moved(fs, |fs|, src, whole, root, user, now))
  {
    var r := Moved(fs, |fs|, src, whole, root, user, now);
    forall i | 0 <= i < |r| && r[i].isDirectory && Parent(r[i].name) != ""
      ensures IsFolder(r, Parent(r[i].name))
    {
      MovedEntryKeepsParent(fs, src, whole, root, user, now, at, i);
    }
  }

  lemma MovedEntryKeepsParent(fs: seq<Meta>, src: string, whole: bool, root: string, user: string, now: int, at: nat, i: nat)
    requires DistinctNames(fs) && FolderTree(fs) && at < |fs| && fs[at].name == src && fs[at].isDirectory == whole
    requires src != "" && root != ""
    requires Parent(root) != "" ==>
      IsFolder(fs, Parent(root)) && !(whole && (Parent(root) == src || Beneath(Parent(root), src)))
    requires i < |fs| && fs[i].isDirectory
    ensures var r := Moved(fs, |fs|, src, whole, root, user, now);
            Parent(r[i].name) != "" ==> IsFolder(r, Parent(r[i].name))
  {
    var r := Moved(fs, |fs|, src, whole, root, user, now);
    var m := fs[i];
    FindIs(fs, src, at);
    if m.name == src {
      FindIs(fs, src, i);
      assert r[i].name == root;
      if Parent(root) != "" {
        MovedFolder(fs, src, whole, root, user, now, Parent(root));
        FileIsNotFolder(fs, at, Parent(root));
      }
    } else if whole && Beneath(m.name, src) {
      NewNameBeneath(m.name, src, root);
      BeneathParent(m.name, src);
      assert IsFolder(fs, Parent(m.name));
      MovedFolder(fs, src, whole, root, user, now, Parent(m.name));
    } else if Parent(m.name) != "" {
      assert IsFolder(fs, Parent(m.name));
      MovedFolder(fs, src, whole, root, user, now, Parent(m.name));
      FileIsNotFolder(fs, at, Parent(m.name));
      ChildOf(m.name, src);
    }
  }

  lemma FileIsNotFolder(fs: seq<Meta>, at: nat, folder: string)
    requires DistinctNames(fs) && at < |fs| && IsFolder(fs, folder)
    ensures !fs[at].isDirectory ==> fs[at].name != folder
  {
    var i :| 0 <= i < |fs| && fs[i].isDirectory && fs[i].name == folder;
    FindIs(fs, folder, i);
    if fs[at].name == folder {
      FindIs(fs, folder, at);
    }
  }

  // A name whose parent is a folder, or beneath it, is beneath the folder.
  lemma ChildOf(name: string, folder: string)
    ensures Parent(name) != "" && (Parent(name) == folder || Beneath(Parent(name), folder)) ==> Beneath(name, folder)
  {
    if LastSlash(name).Some? {
      var i := LastSlash(name).value;
      assert name[..i] == Parent(name);
    }
  }

  // ---------- storage servers and their loads ----------

  datatype ServerInfo = ServerInfo(ip: string, port: int, alive: bool, totalFiles: int, totalBytes: int)

  predicate Hosts(s: ServerInfo, m: Meta) {
    !m.isDirectory && m.ip == s.ip && m.port == s.port
  }

  // The first connected server with this address.
  function FindServer(ss: seq<ServerInfo>, ip: string, port: int): (r: Option<nat>)
    ensures r.Some? ==> r.value < |ss| && ss[r.value].alive && ss[r.value].ip == ip && ss[r.value].port == port
    ensures forall i :: 0 <= i < (if r.Some? then r.value else |ss|) ==>
              !(ss[i].alive && ss[i].ip == ip && ss[i].port == port)
  {
    if ss == [] then None
    else
      var r := FindServer(ss[..|ss| - 1], ip, port);
      var last := ss[|ss| - 1];
      if r.Some? then r
      else if last.alive && last.ip == ip && last.port == port then Some(|ss| - 1)
      else None
  }

  // ns_recalculate_server_load_locked: the number of files on a server and the sum of their sizes.
  function FilesOn(fs: seq<Meta>, s: ServerInfo): int {
    if fs == [] then 0
    else FilesOn(fs[..|fs| - 1], s) + (if Hosts(s, fs[|fs| - 1]) then 1 else 0)
  }

  function BytesOf(m: Meta): int {
    if m.size > 0 then m.size else 0
  }

  function BytesOn(fs: seq<Meta>, s: ServerInfo): int {
    if fs == [] then 0
    else BytesOn(fs[..|fs| - 1], s) + (if Hosts(s, fs[|fs| - 1]) then BytesOf(fs[|fs| - 1]) else 0)
  }

  predicate LoadExact(fs: seq<Meta>, s: ServerInfo) {
    s.totalFiles == FilesOn(fs, s) && s.totalBytes == BytesOn(fs, s)
  }

  // The counters of every connected server are what a recount would give.
  predicate LoadsExact(fs: seq<Meta>, ss: seq<ServerInfo>) {
    forall k :: 0 <= k < |ss| && ss[k].alive ==> LoadExact(fs, ss[k])
  }

  predicate DistinctEndpoints(ss: seq<ServerInfo>) {
    forall i, j :: 0 <= i < j < |ss| && ss[i].alive && ss[j].alive ==> ss[i].ip != ss[j].ip || ss[i].port != ss[j].port
  }

  predicate SizesOk(fs: seq<Meta>) {
    forall i :: 0 <= i < |fs| ==> fs[i].size >= 0
  }

  // Replacing one record changes the load by the difference of the two shares.
  lemma {:induction false} LoadUpdate(fs: seq<Meta>, i: nat, m: Meta, s: ServerInfo)
    requires i < |fs|
    ensures FilesOn(fs[i := m], s)
         == FilesOn(fs, s) - (if Hosts(s, fs[i]) then 1 else 0) + (if Hosts(s, m) then 1 else 0)
    ensures BytesOn(fs[i := m], s)
         == BytesOn(fs, s) - (if Hosts(s, fs[i]) then BytesOf(fs[i]) else 0) + (if Hosts(s, m) then BytesOf(m) else 0)
  {
    if i == |fs| - 1 {
      assert fs[i := m][..|fs| - 1] == fs[..|fs| - 1];
    } else {
      assert fs[i := m][..|fs| - 1] == fs[..|fs| - 1][i := m];
      LoadUpdate(fs[..|fs| - 1], i, m, s);
    }
  }

  lemma LoadAppend(fs: seq<Meta>, m: Meta, s: ServerInfo)
    ensures FilesOn(fs + [m], s) == FilesOn(fs, s) + (if Hosts(s, m) then 1 else 0)
    ensures BytesOn(fs + [m], s) == BytesOn(fs, s) + (if Hosts(s, m) then BytesOf(m) else 0)
  {
    assert (fs + [m])[..|fs|] == fs;
  }

  lemma LoadRemove(fs: seq<Meta>, i: nat, s: ServerInfo)
    requires i < |fs|
    ensures FilesOn(RemoveSwap(fs, i), s) == FilesOn(fs, s) - (if Hosts(s, fs[i]) then 1 else 0)
    ensures BytesOn(RemoveSwap(fs, i), s) == BytesOn(fs, s) - (if Hosts(s, fs[i]) then BytesOf(fs[i]) else 0)
  {
    var last := fs[|fs| - 1];
    SwapIsUpdate(fs, i, last);
    LoadUpdate(fs, i, last, s);
    LoadAppend(RemoveSwap(fs, i), last, s);
  }

  lemma SwapIsUpdate(fs: seq<Meta>, i: nat, last: Meta)
    requires i < |fs| && last == fs[|fs| - 1]
    ensures fs[i := last] == RemoveSwap(fs, i) + [last]
  {}

  lemma {:induction false} LoadBounds(fs: seq<Meta>, s: ServerInfo)
    ensures FilesOn(fs, s) >= 0 && BytesOn(fs, s) >= 0
    ensures forall i :: 0 <= i < |fs| && Hosts(s, fs[i]) ==> FilesOn(fs, s) >= 1 && BytesOn(fs, s) >= BytesOf(fs[i])
  {
    if fs != [] {
      LoadBounds(fs[..|fs| - 1], s);
    }
  }

  // The counters after one file has been deleted from server k; they stop at zero.
  function Unload(s: ServerInfo, size: int): ServerInfo {
    s.(totalFiles := if s.totalFiles > 0 then s.totalFiles - 1 else s.totalFiles,
       totalBytes := if size <= 0 then s.totalBytes else if s.totalBytes >= size then s.totalBytes - size else 0)
  }

  // Deleting a record takes it off its server's counters, and they stay exact: no counter stops at zero early.
  function UnloadFrom(ss: seq<ServerInfo>, m: Meta): (r: seq<ServerInfo>)
    ensures |r| == |ss|
  {
    if m.isDirectory || FindServer(ss, m.ip, m.port).None? then ss
    else
      var k := FindServer(ss, m.ip, m.port).value;
      ss[k := Unload(ss[k], BytesOf(m))]
  }

  lemma DeleteKeepsLoads(fs: seq<Meta>, ss: seq<ServerInfo>, i: nat)
    requires i < |fs| && LoadsExact(fs, ss) && DistinctEndpoints(ss)
    ensures LoadsExact(RemoveSwap(fs, i), UnloadFrom(ss, fs[i])) && DistinctEndpoints(UnloadFrom(ss, fs[i]))
  {
    var r := UnloadFrom(ss, fs[i]);
    forall k | 0 <= k < |r| && r[k].alive
      ensures LoadExact(RemoveSwap(fs, i), r[k])
    {
      assert LoadExact(fs, ss[k]);
      LoadBounds(fs, ss[k]);
      LoadRemove(fs, i, ss[k]);
      SameAddress(RemoveSwap(fs, i), ss[k], r[k]);
    }
  }

  lemma {:induction false} SameAddress(fs: seq<Meta>, s: ServerInfo, s': ServerInfo)
    requires s.ip == s'.ip && s.port == s'.port
    ensures FilesOn(fs, s) == FilesOn(fs, s') && BytesOn(fs, s) == BytesOn(fs, s')
  {
    if fs != [] {
      SameAddress(fs[..|fs| - 1], s, s');
    }
  }

  // WRITE_COMPLETE from server k: the record takes the new figures, the sender's counter the difference.
  function CompletedMeta(m: Meta, size: int, words: int, chars: int, now: int): Meta {
    m.(size := size, words := words, chars := chars, modified := now)
  }

  function CompletedServers(ss: seq<ServerInfo>, k: nat, m: Meta, size: int): (r: seq<ServerInfo>)
    requires k < |ss|
    ensures |r| == |ss|
  {
    if m.ip == ss[k].ip && m.port == ss[k].port then
      var total := ss[k].totalBytes + (size - m.size);
      ss[k := ss[k].(totalBytes := if total < 0 then 0 else total)]
    else ss
  }

  // The counters stay exact if and only if the sender hosts the file, or the size is the old one, or nobody
  // connected hosts it.
  lemma WriteCompleteKeepsLoads(fs: seq<Meta>, ss: seq<ServerInfo>, i: nat, k: nat, size: int, words: int, chars: int, now: int)
    requires i < |fs| && k < |ss| && ss[k].alive && LoadsExact(fs, ss) && DistinctEndpoints(ss)
    requires fs[i].size >= 0 && size >= 0 && !fs[i].isDirectory
    ensures LoadsExact(fs[i := CompletedMeta(fs[i], size, words, chars, now)], CompletedServers(ss, k, fs[i], size))
       <==> Hosts(ss[k], fs[i]) || size == fs[i].size || FindServer(ss, fs[i].ip, fs[i].port).None?
  {
    var m := CompletedMeta(fs[i], size, words, chars, now);
    var fs', ss' := fs[i := m], CompletedServers(ss, k, fs[i], size);
    forall j | 0 <= j < |ss| && ss[j].alive
      ensures LoadExact(fs', ss'[j]) <==> (j == k || !Hosts(ss[j], fs[i]) || size == fs[i].size)
    {
      assert LoadExact(fs, ss[j]);
      LoadBounds(fs, ss[j]);
      LoadUpdate(fs, i, m, ss[j]);
      SameAddress(fs', ss[j], ss'[j]);
    }
    var home := FindServer(ss, fs[i].ip, fs[i].port);
    if home.Some? {
      assert ss[home.value].alive;
    }
  }

  lemma {:induction false} MoveKeepsLoad(fs: seq<Meta>, n: nat, src: string, whole: bool, root: string, user: string,
                                         now: int, s: ServerInfo)
    ensures FilesOn(Moved(fs, n, src, whole, root, user, now), s) == FilesOn(fs, s)
    ensures BytesOn(Moved(fs, n, src, whole, root, user, now), s) == BytesOn(fs, s)
  {
    if fs != [] {
      var init := fs[..|fs| - 1];
      assert Moved(fs, n, src, whole, root, user, now)[..|init|] == Moved(init, n, src, whole, root, user, now);
      MoveKeepsLoad(init, n, src, whole, root, user, now, s);
    }
  }

  // ---------- what MOVE and DELETE check first ----------

  datatype Verdict<T> = Refused(code: ErrorCode) | Granted(value: T)

  // ns_normalize_destination; the root is the empty path.
  function NormalizeDestination(input: string): Option<string> {
    if input == "." || input == "/" then Some("")
    else if ValidPath(input) then Some(input)
    else None
  }

  // A folder that a request names: the root, or a folder of the table.
  function FolderRefusal(fs: seq<Meta>, path: string): Option<ErrorCode> {
    if path == "" then None
    else if Find(fs, path).None? then Some(FileNotFound)
    else if !fs[Find(fs, path).value].isDirectory then Some(InvalidRequest)
    else None
  }

  function MoveRoot(src: string, dest: string): string {
    if dest == "" then BaseName(src) else dest + "/" + BaseName(src)
  }

  function ServerRefusal(ss: seq<ServerInfo>, m: Meta): Option<ErrorCode> {
    if !m.isDirectory && FindServer(ss, m.ip, m.port).None? then Some(Internal) else None
  }

  // One entry of the move plan.
  function EntryRefusal(fs: seq<Meta>, ss: seq<ServerInfo>, m: Meta, src: string, root: string, user: string):
      Option<ErrorCode>
    requires |src| <= |m.name|
  {
    var path := NewName(m.name, src, root);
    if m.owner != user then Some(PermissionDenied)
    else if |path| >= MAX_FILENAME_LENGTH then Some(InvalidRequest)
    else if !ValidPath(path) then Some(InvalidRequest)
    else if Find(fs, path).Some? && path != m.name then Some(FileExists)
    else ServerRefusal(ss, m)
  }

  // The first refusal among the first n records.
  function PlanRefusal(fs: seq<Meta>, ss: seq<ServerInfo>, n: nat, src: string, whole: bool, root: string, user: string):
      (r: Option<ErrorCode>)
    requires n <= |fs|
    ensures r.None? ==> forall i :: 0 <= i < n && Selected(fs[i], src, whole) ==>
              EntryRefusal(fs, ss, fs[i], src, root, user).None?
  {
    if n == 0 then None
    else
      var r := PlanRefusal(fs, ss, n - 1, src, whole, root, user);
      if r.Some? then r
      else if Selected(fs[n - 1], src, whole) then EntryRefusal(fs, ss, fs[n - 1], src, root, user)
      else None
  }

  // The checks of MOVE on source and destination, in order; granted with the new path of the source.
  function RootVerdict(fs: seq<Meta>, src: string, destArg: string, user: string): (v: Verdict<string>)
    ensures v.Granted? ==> Find(fs, src).Some?
  {
    if !ValidPath(src) then Refused(InvalidRequest)
    else if user == "" then Refused(Internal)
    else
      match NormalizeDestination(destArg)
      case None => Refused(InvalidRequest)
      case Some(dest) =>
        var at := Find(fs, src);
        if at.None? then Refused(FileNotFound)
        else if fs[at.value].owner != user then Refused(PermissionDenied)
        else if FolderRefusal(fs, dest).Some? then Refused(FolderRefusal(fs, dest).value)
        else
          var whole, root := fs[at.value].isDirectory, MoveRoot(src, dest);
          if |root| >= MAX_FILENAME_LENGTH then Refused(InvalidRequest)
          else if root == src then Refused(InvalidRequest)
          else if whole && dest != "" && IsDescendant(dest, src) then Refused(InvalidRequest)
          else Granted(root)
  }

  // MOVE then checks every entry of its plan.
  function MoveVerdict(fs: seq<Meta>, ss: seq<ServerInfo>, src: string, destArg: string, user: string): Verdict<string> {
    match RootVerdict(fs, src, destArg, user)
    case Refused(code) => Refused(code)
    case Granted(root) =>
      match PlanRefusal(fs, ss, |fs|, src, fs[Find(fs, src).value].isDirectory, root, user)
      case Some(code) => Refused(code)
      case None => Granted(root)
  }

  // What the checks on source and destination give.
  lemma RootGranted(fs: seq<Meta>, src: string, destArg: string, user: string, root: string)
    requires RootVerdict(fs, src, destArg, user) == Granted(root)
    ensures Find(fs, src).Some? && ValidPath(src) && root != src
    ensures var dest := NormalizeDestination(destArg);
            && dest.Some? && root == MoveRoot(src, dest.value) && FolderRefusal(fs, dest.value).None?
            && (fs[Find(fs, src).value].isDirectory && dest.value != "" ==> !IsDescendant(dest.value, src))
  {}

  // The path that the source is moved to is not empty, its parent is the destination, and its last component is
  // that of the source.
  lemma MoveRootIs(src: string, dest: string)
    requires ValidPath(src)
    ensures src != "" && MoveRoot(src, dest) != "" && Parent(MoveRoot(src, dest)) == dest
    ensures BaseName(MoveRoot(src, dest)) == BaseName(src) && (dest == "" ==> LastSlash(MoveRoot(src, dest)).None?)
  {
    BaseNameFacts(src);
    if dest != "" {
      JoinedParent(dest, BaseName(src));
    }
  }

  lemma FolderFound(fs: seq<Meta>, path: string)
    requires path != "" && FolderRefusal(fs, path).None?
    ensures IsFolder(fs, path)
  {
    assert fs[Find(fs, path).value].isDirectory;
  }

  // A granted MOVE collides with no name of the table.
  lemma MoveSafe(fs: seq<Meta>, ss: seq<ServerInfo>, src: string, destArg: string, user: string, root: string)
    requires MoveVerdict(fs, ss, src, destArg, user) == Granted(root)
    ensures Find(fs, src).Some? && src != "" && root != "" && root != src
    ensures NoCollision(fs, src, fs[Find(fs, src).value].isDirectory, root)
  {
    RootGranted(fs, src, destArg, user, root);
    MoveRootIs(src, NormalizeDestination(destArg).value);
    PlanHasNoCollision(fs, ss, src, fs[Find(fs, src).value].isDirectory, root, user);
  }

  lemma PlanHasNoCollision(fs: seq<Meta>, ss: seq<ServerInfo>, src: string, whole: bool, root: string, user: string)
    requires root != src && PlanRefusal(fs, ss, |fs|, src, whole, root, user).None?
    ensures NoCollision(fs, src, whole, root)
  {
    forall i, j | 0 <= i < |fs| && 0 <= j < |fs| && Selected(fs[i], src, whole)
      ensures NewName(fs[i].name, src, root) != fs[j].name
    {
      assert EntryRefusal(fs, ss, fs[i], src, root, user).None?;
      FreeName(fs, ss, fs[i], src, root, user, j);
    }
  }

  // An entry that is not refused gets a name that no record of the table has.
  lemma FreeName(fs: seq<Meta>, ss: seq<ServerInfo>, m: Meta, src: string, root: string, user: string, j: nat)
    requires root != src && src <= m.name && EntryRefusal(fs, ss, m, src, root, user).None? && j < |fs|
    ensures NewName(m.name, src, root) != fs[j].name
  {
    assert m.name == src + m.name[|src|..];
    if NewName(m.name, src, root) == m.name {
      SamePrefix(root, src, m.name[|src|..]);
    }
  }

  // It puts the source into an existing folder outside the moved subtree.
  lemma MoveInTree(fs: seq<Meta>, ss: seq<ServerInfo>, src: string, destArg: string, user: string, root: string)
    requires MoveVerdict(fs, ss, src, destArg, user) == Granted(root)
    ensures Find(fs, src).Some?
    ensures var whole := fs[Find(fs, src).value].isDirectory;
            Parent(root) != "" ==>
              IsFolder(fs, Parent(root)) && !(whole && (Parent(root) == src || Beneath(Parent(root), src)))
  {
    RootGranted(fs, src, destArg, user, root);
    var dest := NormalizeDestination(destArg).value;
    MoveRootIs(src, dest);
    if dest != "" {
      FolderFound(fs, dest);
    }
  }

  lemma SamePrefix(a: string, b: string, tail: string)
    requires a + tail == b + tail
    ensures a == b
  {
    assert |a| == |b|;
    assert a == (a + tail)[..|a|] == (b + tail)[..|b|] == b;
  }

  // What a record keeps when it is moved.
  predicate KeptBy(m: Meta, m': Meta) {
    && m'.owner == m.owner && m'.ip == m.ip && m'.port == m.port && m'.isDirectory == m.isDirectory
    && m'.size == m.size && m'.words == m.words && m'.chars == m.chars && m'.created == m.created
    && m'.readers == m.readers && m'.writers == m.writers
  }

  lemma MoveKeepsLoads(fs: seq<Meta>, ss: seq<ServerInfo>, src: string, whole: bool, root: string, user: string, now: int)
    requires LoadsExact(fs, ss)
    ensures LoadsExact(Moved(fs, |fs|, src, whole, root, user, now), ss)
  {
    forall k | 0 <= k < |ss| && ss[k].alive
      ensures LoadExact(Moved(fs, |fs|, src, whole, root, user, now), ss[k])
    {
      assert LoadExact(fs, ss[k]);
      MoveKeepsLoad(fs, |fs|, src, whole, root, user, now, ss[k]);
    }
  }

  // The destination that a MOVE request names: "." and "/" stand for the top, the empty path.
  predicate Names(destArg: string, dest: string) {
    if destArg == "." || destArg == "/" then dest == "" else dest == destArg && ValidPath(dest)
  }

  // The stamps that a moved record gets.
  predicate StampedBy(m: Meta, user: string, now: int) {
    m.modified == m.lastAccess == now && m.lastModifiedUser == m.lastAccessUser == user
  }

  // A record before and after the move: the root in place of the source in its name, and all else but the stamps
  // kept; a record that is not selected is the same.
  predicate MovedAs(m: Meta, m': Meta, src: string, whole: bool, root: string, user: string, now: int) {
    && KeptBy(m, m')
    && if Selected(m, src, whole) then m'.name == root + m.name[|src|..] && StampedBy(m', user, now) else m' == m
  }

  lemma MovedRecords(fs: seq<Meta>, src: string, whole: bool, root: string, user: string, now: int)
    ensures var r := Moved(fs, |fs|, src, whole, root, user, now);
            forall i :: 0 <= i < |fs| ==> MovedAs(fs[i], r[i], src, whole, root, user, now)
  {}

  // The theorem about MOVE: the source goes under its own last component into the folder that the client named;
  // exactly the source and what lies beneath it is renamed, by an injective substitution, in place; every name
  // stays unique; all else of every record, the folder tree and the loads are kept.
  lemma MoveCorrect(fs: seq<Meta>, ss: seq<ServerInfo>, src: string, destArg: string, user: string, now: int, root: string)
    requires DistinctNames(fs) && MoveVerdict(fs, ss, src, destArg, user) == Granted(root)
    ensures Names(destArg, Parent(root)) && BaseName(root) == BaseName(src)
    ensures var whole := fs[Find(fs, src).value].isDirectory;
            var r := Moved(fs, |fs|, src, whole, root, user, now);
            && DistinctNames(r)
            && Find(r, src).None? && Find(r, root) == Find(fs, src)
            && (FolderTree(fs) ==> FolderTree(r))
            && (LoadsExact(fs, ss) ==> LoadsExact(r, ss))
            && forall i :: 0 <= i < |fs| ==> MovedAs(fs[i], r[i], src, whole, root, user, now)
  {
    var at := Find(fs, src).value;
    var whole := fs[at].isDirectory;
    MoveGoesInto(fs, ss, src, destArg, user, root);
    MoveSafe(fs, ss, src, destArg, user, root);
    MovedDistinct(fs, |fs|, src, whole, root, user, now);
    MovedRoot(fs, src, whole, root, user, now, at);
    NoOldName(fs, src, whole, root, user, now, at);
    MovedRecords(fs, src, whole, root, user, now);
    if FolderTree(fs) {
      MoveInTree(fs, ss, src, destArg, user, root);
      MoveKeepsTree(fs, src, whole, root, user, now, at);
    }
    if LoadsExact(fs, ss) {
      MoveKeepsLoads(fs, ss, src, whole, root, user, now);
    }
  }

  lemma MoveGoesInto(fs: seq<Meta>, ss: seq<ServerInfo>, src: string, destArg: string, user: string, root: string)
    requires MoveVerdict(fs, ss, src, destArg, user) == Granted(root)
    ensures Names(destArg, Parent(root)) && BaseName(root) == BaseName(src)
  {
    RootGranted(fs, src, destArg, user, root);
    MoveRootIs(src, NormalizeDestination(destArg).value);
  }

  // The source has its new path, in its old place.
  lemma MovedRoot(fs: seq<Meta>, src: string, whole: bool, root: string, user: string, now: int, at: nat)
    requires DistinctNames(fs) && NoCollision(fs, src, whole, root) && at < |fs| && fs[at].name == src
    ensures Find(Moved(fs, |fs|, src, whole, root, user, now), root) == Some(at)
  {
    MovedDistinct(fs, |fs|, src, whole, root, user, now);
    FindIs(Moved(fs, |fs|, src, whole, root, user, now), root, at);
  }

  // The old path is free afterwards.
  lemma NoOldName(fs: seq<Meta>, src: string, whole: bool, root: string, user: string, now: int, at: nat)
    requires at < |fs| && fs[at].name == src && NoCollision(fs, src, whole, root)
    ensures Find(Moved(fs, |fs|, src, whole, root, user, now), src).None?
  {
    var r := Moved(fs, |fs|, src, whole, root, user, now);
    forall i | 0 <= i < |r|
      ensures r[i].name != src
    {
      if Selected(fs[i], src, whole) {
        assert NewName(fs[i].name, src, root) != fs[at].name;
      }
    }
  }

  // One entry of the delete plan.
  function DeleteEntryRefusal(ss: seq<ServerInfo>, m: Meta, user: string): Option<ErrorCode> {
    if m.owner != user then Some(PermissionDenied) else ServerRefusal(ss, m)
  }

  function DeletePlanRefusal(fs: seq<Meta>, ss: seq<ServerInfo>, n: nat, target: string, whole: bool, user: string):
      Option<ErrorCode>
    requires n <= |fs|
  {
    if n == 0 then None
    else
      var r := DeletePlanRefusal(fs, ss, n - 1, target, whole, user);
      if r.Some? then r
      else if Selected(fs[n - 1], target, whole) then DeleteEntryRefusal(ss, fs[n - 1], user)
      else None
  }

  // The checks of DELETE in order; granted with whether everything beneath goes too.
  function DeleteVerdict(fs: seq<Meta>, ss: seq<ServerInfo>, target: string, user: string): Verdict<bool> {
    if !ValidPath(target) then Refused(InvalidRequest)
    else if user == "" then Refused(Internal)
    else
      var at := Find(fs, target);
      if at.None? then Refused(FileNotFound)
      else if fs[at.value].owner != user then Refused(PermissionDenied)
      else
        match DeletePlanRefusal(fs, ss, |fs|, target, fs[at.value].isDirectory, user)
        case Some(code) => Refused(code)
        case None => Granted(fs[at.value].isDirectory)
  }

  // Removing the longest selected name leaves no folder without its parent.
  lemma RemoveKeepsTree(fs: seq<Meta>, i: nat, target: string, whole: bool)
    requires DistinctNames(fs) && FolderTree(fs) && i < |fs| && target != ""
    requires Selected(fs[i], target, whole) && (whole || !fs[i].isDirectory)
    requires forall j :: 0 <= j < |fs| && Selected(fs[j], target, whole) ==> |fs[j].name| <= |fs[i].name|
    ensures FolderTree(RemoveSwap(fs, i))
  {
    var r := RemoveSwap(fs, i);
    forall k | 0 <= k < |r| && r[k].isDirectory && Parent(r[k].name) != ""
      ensures IsFolder(r, Parent(r[k].name))
    {
      var c := if k == i then |fs| - 1 else k;
      assert r[k] == fs[c] && IsFolder(fs, Parent(fs[c].name));
      var p :| 0 <= p < |fs| && fs[p].isDirectory && fs[p].name == Parent(fs[c].name);
      ParentOutlives(fs, i, target, whole, c, p);
      assert r[if p == |fs| - 1 then i else p] == fs[p];
    }
  }

  // The longest selected name is nobody's parent.
  lemma ParentOutlives(fs: seq<Meta>, i: nat, target: string, whole: bool, c: nat, p: nat)
    requires i < |fs| && c < |fs| && p < |fs| && c != i && fs[p].isDirectory && Parent(fs[c].name) == fs[p].name != ""
    requires Selected(fs[i], target, whole) && (whole || !fs[i].isDirectory)
    requires forall j :: 0 <= j < |fs| && Selected(fs[j], target, whole) ==> |fs[j].name| <= |fs[i].name|
    ensures p != i
  {
    ChildSelected(fs[c].name, fs[p].name, target);
  }

  // What lies beneath a path that lies beneath the target, or is the target, lies beneath the target.
  lemma ChildSelected(name: string, folder: string, target: string)
    requires Parent(name) == folder != ""
    ensures |name| > |folder|
    ensures folder == target || Beneath(folder, target) ==> Beneath(name, target)
  {
    ChildOf(name, target);
  }

  // The checks of CREATE before a storage server is asked.
  function CreateVerdict(fs: seq<Meta>, k: Option<nat>, name: string, user: string): Verdict<nat> {
    if !ValidFilename(name) then Refused(InvalidRequest)
    else if user == "" then Refused(Internal)
    else if |fs| >= MAX_FILES then Refused(Internal)
    else if Find(fs, name).Some? then Refused(FileExists)
    else if k.None? then Refused(Internal)
    else Granted(k.value)
  }

  // The checks of CREATEFOLDER in order: a parent, if there is one, must be an existing folder.
  function FolderVerdict(fs: seq<Meta>, path: string, user: string): Verdict<()> {
    if !ValidPath(path) then Refused(InvalidRequest)
    else if user == "" then Refused(Internal)
    else if |fs| >= MAX_FILES then Refused(Internal)
    else if Find(fs, path).Some? then Refused(FileExists)
    else if FolderRefusal(fs, Parent(path)).Some? then Refused(FolderRefusal(fs, Parent(path)).value)
    else Granted(())
  }

  function NewFile(name: string, user: string, ip: string, port: int, now: int): Meta {
    Meta(name, user, ip, port, 0, 0, 0, false, now, now, now, user, user, [], [])
  }

  function NewFolder(name: string, user: string, now: int): Meta {
    Meta(name, user, "", 0, 0, 0, 0, true, now, now, now, user, user, [], [])
  }

  lemma AppendKeeps(fs: seq<Meta>, m: Meta)
    requires DistinctNames(fs) && Find(fs, m.name).None?
    ensures DistinctNames(fs + [m])
    ensures Find(fs + [m], m.name) == Some(|fs|)
    ensures FolderTree(fs) && (m.isDirectory && Parent(m.name) != "" ==> IsFolder(fs, Parent(m.name))) ==>
              FolderTree(fs + [m])
  {
    var r := fs + [m];
    FindIs(r, m.name, |fs|);
    forall i | 0 <= i < |r| && r[i].isDirectory && Parent(r[i].name) != "" && IsFolder(fs, Parent(r[i].name))
      ensures IsFolder(r, Parent(r[i].name))
    {
      var p :| 0 <= p < |fs| && fs[p].isDirectory && fs[p].name == Parent(r[i].name);
      assert r[p] == fs[p];
    }
  }

  // A granted folder has its place in the tree.
  lemma FolderGranted(fs: seq<Meta>, path: string, user: string)
    requires FolderVerdict(fs, path, user) == Granted(())
    ensures Parent(path) != "" ==> IsFolder(fs, Parent(path))
  {}

  // CREATE counts its file on the chosen server once the server has confirmed it.
  lemma CreateKeepsLoads(fs: seq<Meta>, ss: seq<ServerInfo>, k: nat, name: string, user: string, now: int)
    requires LoadsExact(fs, ss) && DistinctEndpoints(ss) && k < |ss| && ss[k].alive
    ensures LoadsExact(fs + [NewFile(name, user, ss[k].ip, ss[k].port, now)],
                       ss[k := ss[k].(totalFiles := ss[k].totalFiles + 1)])
  {
    var m, ss' := NewFile(name, user, ss[k].ip, ss[k].port, now), ss[k := ss[k].(totalFiles := ss[k].totalFiles + 1)];
    forall j | 0 <= j < |ss| && ss[j].alive
      ensures LoadExact(fs + [m], ss'[j])
    {
      assert LoadExact(fs, ss[j]);
      LoadAppend(fs, m, ss[j]);
      SameAddress(fs + [m], ss[j], ss'[j]);
    }
  }

  lemma FolderKeepsLoads(fs: seq<Meta>, ss: seq<ServerInfo>, name: string, user: string, now: int)
    requires LoadsExact(fs, ss)
    ensures LoadsExact(fs + [NewFolder(name, user, now)], ss)
  {
    forall j | 0 <= j < |ss| && ss[j].alive
      ensures LoadExact(fs + [NewFolder(name, user, now)], ss[j])
    {
      assert LoadExact(fs, ss[j]);
      LoadAppend(fs, NewFolder(name, user, now), ss[j]);
    }
  }
}
