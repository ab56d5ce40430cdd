/** When each request to the name server is carried out, and what it then changes; and over every run, whose records
    the table holds. */
module Catalogue {
  import opened Wrappers
  import opened Namespace
  import opened Directory

  // A server with this address is connected.
  predicate Connected(ss: seq<ServerInfo>, ip: string, port: int) {
    exists k :: 0 <= k < |ss| && ss[k].alive && ss[k].ip == ip && ss[k].port == port
  }

  predicate HasName(fs: seq<Meta>, name: string) {
    exists i :: 0 <= i < |fs| && fs[i].name == name
  }

  lemma NameFound(fs: seq<Meta>, name: string)
    ensures Find(fs, name).Some? <==> HasName(fs, name)
  {}

  lemma ServerFound(ss: seq<ServerInfo>, m: Meta)
    ensures ServerRefusal(ss, m) == if m.isDirectory || Connected(ss, m.ip, m.port) then None else Some(Internal)
  {
    assert FindServer(ss, m.ip, m.port).Some? <==> Connected(ss, m.ip, m.port);
  }

  // The root, or a folder of the table.
  predicate IsPlace(fs: seq<Meta>, path: string) {
    path == "" || IsFolder(fs, path)
  }

  lemma PlaceFound(fs: seq<Meta>, path: string)
    requires DistinctNames(fs)
    ensures FolderRefusal(fs, path).None? <==> IsPlace(fs, path)
  {
    if path != "" && IsFolder(fs, path) {
      var i :| 0 <= i < |fs| && fs[i].isDirectory && fs[i].name == path;
      FindIs(fs, path, i);
    } else if path != "" && FolderRefusal(fs, path).None? {
      FolderFound(fs, path);
    }
  }

  // ---------- create ----------

  // A record that has just been entered by its owner.
  predicate IsNew(m: Meta, name: string, user: string, now: int) {
    && m.name == name && m.owner == user && m.size == 0 && m.words == 0 && m.chars == 0
    && m.created == m.modified == m.lastAccess == now && m.lastAccessUser == m.lastModifiedUser == user
    && m.readers == [] && m.writers == []
  }

  // The table has one more record, behind the old ones.
  predicate OneMore(fs: seq<Meta>, fs': seq<Meta>) {
    |fs'| == |fs| + 1 && forall i :: 0 <= i < |fs| ==> fs'[i] == fs[i]
  }

  // One more file is counted on server k; nothing else about the servers differs.
  predicate CountedOn(ss: seq<ServerInfo>, ss': seq<ServerInfo>, k: nat) {
    && |ss'| == |ss| && k < |ss|
    && forall j :: 0 <= j < |ss| ==>
         ss'[j] == if j == k then ss[j].(totalFiles := ss[j].totalFiles + 1) else ss[j]
  }

  // CREATE is carried out exactly for a valid and new name, a known user, a table that is not full, and a chosen
  // server that confirms. Then one record of that user is entered, a file of size 0 on that server, and counted
  // there; otherwise nothing changes.
  lemma CreateCorrect(s: State, name: string, user: string, chosen: Option<nat>, storage: Option<ErrorCode>, now: int)
    requires chosen.Some? ==> chosen.value < |s.servers|
    ensures var (reply, s') := CreateStep(s, name, user, chosen, storage, now);
            && (reply.Done? <==>
                  && ValidFilename(name) && user != "" && |s.files| < MAX_FILES && !HasName(s.files, name)
                  && chosen.Some? && storage.None?)
            && (!reply.Done? ==> s' == s)
            && (reply.Done? ==>
                  && OneMore(s.files, s'.files) && CountedOn(s.servers, s'.servers, chosen.value)
                  && var m := s'.files[|s.files|];
                     && IsNew(m, name, user, now) && !m.isDirectory
                     && m.ip == s.servers[chosen.value].ip && m.port == s.servers[chosen.value].port)
  {
    NameFound(s.files, name);
  }

  // What a refused CREATE answers.
  lemma CreateRefusals(s: State, name: string, user: string, chosen: Option<nat>, storage: Option<ErrorCode>, now: int)
    requires chosen.Some? ==> chosen.value < |s.servers|
    requires user != "" && |s.files| < MAX_FILES && chosen.Some?
    ensures var reply := CreateStep(s, name, user, chosen, storage, now).0;
            && (!ValidFilename(name) ==> reply == Error(InvalidRequest))
            && (ValidFilename(name) && HasName(s.files, name) ==> reply == Error(FileExists))
            && (ValidFilename(name) && !HasName(s.files, name) && storage.Some? ==> reply == Error(storage.value))
  {
    NameFound(s.files, name);
  }

  // CREATEFOLDER is carried out exactly for a valid and new path in the root or an existing folder, a known user and
  // a table that is not full. Then one folder of that user is entered, on no server; otherwise nothing changes.
  lemma FolderCorrect(s: State, path: string, user: string, now: int)
    requires DistinctNames(s.files)
    ensures var (reply, s') := FolderStep(s, path, user, now);
            && (reply.Done? <==>
                  && ValidPath(path) && user != "" && |s.files| < MAX_FILES && !HasName(s.files, path)
                  && IsPlace(s.files, Parent(path)))
            && (!reply.Done? ==> s' == s)
            && (reply.Done? ==>
                  && OneMore(s.files, s'.files) && s'.servers == s.servers
                  && var m := s'.files[|s.files|];
                     IsNew(m, path, user, now) && m.isDirectory && m.ip == "" && m.port == 0)
  {
    NameFound(s.files, path);
    PlaceFound(s.files, Parent(path));
  }

  // ---------- delete ----------

  // A record that this user may delete: it is hers, and a file's server is connected.
  predicate MayRemove(ss: seq<ServerInfo>, m: Meta, user: string) {
    m.owner == user && (m.isDirectory || Connected(ss, m.ip, m.port))
  }

  lemma RemovalRefused(ss: seq<ServerInfo>, m: Meta, user: string)
    ensures DeleteEntryRefusal(ss, m, user)
         == if m.owner != user then Some(PermissionDenied)
            else if m.isDirectory || Connected(ss, m.ip, m.port) then None
            else Some(Internal)
  {
    ServerFound(ss, m);
  }

  // The plan fails at the first selected record that may not be removed, with the reason for that one.
  lemma {:induction false} DeletePlanFails(fs: seq<Meta>, ss: seq<ServerInfo>, n: nat, target: string, whole: bool,
                                           user: string)
    requires n <= |fs|
    ensures DeletePlanRefusal(fs, ss, n, target, whole, user).None?
       <==> forall i :: 0 <= i < n && Selected(fs[i], target, whole) ==> MayRemove(ss, fs[i], user)
    ensures DeletePlanRefusal(fs, ss, n, target, whole, user).Some? ==>
              exists i :: 0 <= i < n && Selected(fs[i], target, whole) && !MayRemove(ss, fs[i], user)
                && (forall j :: 0 <= j < i && Selected(fs[j], target, whole) ==> MayRemove(ss, fs[j], user))
                && DeletePlanRefusal(fs, ss, n, target, whole, user).value
                   == if fs[i].owner != user then PermissionDenied else Internal
  {
    if n > 0 {
      DeletePlanFails(fs, ss, n - 1, target, whole, user);
      RemovalRefused(ss, fs[n - 1], user);
    }
  }

  // Everything that a DELETE of this target is about may be removed by this user.
  predicate MayDelete(s: State, target: string, user: string) {
    && ValidPath(target) && user != "" && Find(s.files, target).Some?
    && forall i :: 0 <= i < |s.files| && Selected(s.files[i], target, s.files[Find(s.files, target).value].isDirectory) ==>
         MayRemove(s.servers, s.files[i], user)
  }

  // DELETE is granted exactly for a target in the table that belongs, with everything beneath a folder, to the user,
  // while the server of every file that would go is connected.
  lemma DeleteGranted(s: State, target: string, user: string)
    ensures DeleteVerdict(s.files, s.servers, target, user).Granted? <==> MayDelete(s, target, user)
    ensures MayDelete(s, target, user) ==>
              DeleteVerdict(s.files, s.servers, target, user) == Granted(s.files[Find(s.files, target).value].isDirectory)
  {
    var at := Find(s.files, target);
    if at.Some? {
      DeletePlanFails(s.files, s.servers, |s.files|, target, s.files[at.value].isDirectory, user);
      assert Selected(s.files[at.value], target, s.files[at.value].isDirectory);
    }
  }

  // A granted DELETE that the storage servers confirm takes out exactly the target and what lies beneath it.
  // Otherwise nothing changes.
  lemma DeleteOutcome(s: State, target: string, user: string, storage: Option<ErrorCode>, order: seq<string>)
    requires DistinctNames(s.files)
    requires MayDelete(s, target, user) ==>
      DeletionOrder(order, s.files, target, s.files[Find(s.files, target).value].isDirectory)
    ensures var (reply, s') := DeleteStep(s, target, user, storage, order);
            && (reply.Done? <==> MayDelete(s, target, user) && storage.None?)
            && (!reply.Done? ==> s' == s)
            && (reply.Done? ==>
                  forall m :: m in s'.files <==>
                    m in s.files && !Selected(m, target, s.files[Find(s.files, target).value].isDirectory))
  {
    DeleteGranted(s, target, user);
    if MayDelete(s, target, user) {
      DeleteCorrect(s, target, user, s.files[Find(s.files, target).value].isDirectory, order);
    }
  }

  // ---------- move ----------

  // A record that this user may move to this path: it is hers, the path is valid and free, and a file's server is
  // connected.
  predicate MayRename(s: State, m: Meta, path: string, user: string) {
    && m.owner == user && ValidPath(path) && (HasName(s.files, path) ==> path == m.name)
    && (m.isDirectory || Connected(s.servers, m.ip, m.port))
  }

  // Why a record cannot be renamed: the first of these that applies.
  lemma RenameRefused(s: State, m: Meta, src: string, root: string, user: string)
    requires |src| <= |m.name|
    ensures var path := root + m.name[|src|..];
            EntryRefusal(s.files, s.servers, m, src, root, user) ==
              if m.owner != user then Some(PermissionDenied)
              else if !ValidPath(path) then Some(InvalidRequest)
              else if HasName(s.files, path) && path != m.name then Some(FileExists)
              else if !m.isDirectory && !Connected(s.servers, m.ip, m.port) then Some(Internal)
              else None
  {
    NameFound(s.files, root + m.name[|src|..]);
    ServerFound(s.servers, m);
  }

  // The plan fails at the first selected record that may not be renamed, with the reason for that one.
  lemma {:induction false} MovePlanFails(s: State, n: nat, src: string, whole: bool, root: string, user: string)
    requires n <= |s.files|
    ensures PlanRefusal(s.files, s.servers, n, src, whole, root, user).None?
       <==> forall i :: 0 <= i < n && Selected(s.files[i], src, whole) ==>
              MayRename(s, s.files[i], root + s.files[i].name[|src|..], user)
    ensures PlanRefusal(s.files, s.servers, n, src, whole, root, user).Some? ==>
              exists i :: 0 <= i < n && Selected(s.files[i], src, whole)
                && (forall j :: 0 <= j < i && Selected(s.files[j], src, whole) ==>
                      MayRename(s, s.files[j], root + s.files[j].name[|src|..], user))
                && EntryRefusal(s.files, s.servers, s.files[i], src, root, user)
                   == PlanRefusal(s.files, s.servers, n, src, whole, root, user)
  {
    if n > 0 {
      MovePlanFails(s, n - 1, src, whole, root, user);
      if Selected(s.files[n - 1], src, whole) {
        RenameRefused(s, s.files[n - 1], src, root, user);
      }
    }
  }

  // The root is where the source belongs in the destination: under its own last component.
  predicate LiesIn(root: string, dest: string, src: string) {
    Parent(root) == dest && BaseName(root) == BaseName(src) && (dest == "" ==> LastSlash(root).None?)
  }

  // Parent and last component determine a path.
  lemma PathOfParts(root: string, root': string, dest: string, src: string)
    requires LiesIn(root, dest, src) && LiesIn(root', dest, src)
    ensures root == root'
  {
    PathFromParts(root);
    PathFromParts(root');
  }

  lemma PathFromParts(p: string)
    ensures p == if LastSlash(p).None? then BaseName(p) else Parent(p) + "/" + BaseName(p)
  {}

  // The user may move the source to the root: the destination is the top or a folder, not inside the source; the
  // root is another path; and every record that is moved may be renamed.
  predicate MayMove(s: State, src: string, dest: string, root: string, user: string) {
    && ValidPath(src) && user != "" && Find(s.files, src).Some?
    && IsPlace(s.files, dest) && LiesIn(root, dest, src) && root != src
    && var whole := s.files[Find(s.files, src).value].isDirectory;
       && !(whole && (dest == src || (dest != "" && Beneath(dest, src))))
       && forall i :: 0 <= i < |s.files| && Selected(s.files[i], src, whole) ==>
            MayRename(s, s.files[i], root + s.files[i].name[|src|..], user)
  }

  // MOVE is granted exactly under these conditions, with the path that the source is to get.
  lemma MoveGranted(s: State, src: string, destArg: string, user: string, root: string)
    requires DistinctNames(s.files)
    ensures MoveVerdict(s.files, s.servers, src, destArg, user) == Granted(root)
       <==> exists dest :: Names(destArg, dest) && MayMove(s, src, dest, root, user)
  {
    if NormalizeDestination(destArg).Some? && ValidPath(src) {
      var dest := NormalizeDestination(destArg).value;
      MoveGrantedInto(s, src, destArg, dest, user, root);
    }
  }

  lemma MoveGrantedInto(s: State, src: string, destArg: string, dest: string, user: string, root: string)
    requires DistinctNames(s.files) && ValidPath(src) && NormalizeDestination(destArg) == Some(dest)
    ensures Names(destArg, dest)
    ensures MoveVerdict(s.files, s.servers, src, destArg, user) == Granted(root) <==> MayMove(s, src, dest, root, user)
  {
    RootFits(src, dest, root);
    RootGrantedWhen(s, src, destArg, dest, user, root);
    var at := Find(s.files, src);
    if at.Some? {
      var whole := s.files[at.value].isDirectory;
      MovePlanFails(s, |s.files|, src, whole, root, user);
      if MayMove(s, src, dest, root, user) {
        SourceIsMoved(s, src, at.value, root, user);
      }
    }
  }

  lemma RootFits(src: string, dest: string, root: string)
    requires ValidPath(src)
    ensures LiesIn(root, dest, src) <==> root == MoveRoot(src, dest)
  {
    MoveRootIs(src, dest);
    if LiesIn(root, dest, src) {
      PathOfParts(root, MoveRoot(src, dest), dest, src);
    }
  }

  // The checks on source and destination alone.
  lemma RootGrantedWhen(s: State, src: string, destArg: string, dest: string, user: string, root: string)
    requires DistinctNames(s.files) && ValidPath(src) && NormalizeDestination(destArg) == Some(dest)
    ensures RootVerdict(s.files, src, destArg, user) == Granted(root) <==>
      && user != "" && Find(s.files, src).Some? && s.files[Find(s.files, src).value].owner == user
      && IsPlace(s.files, dest) && root == MoveRoot(src, dest) && |root| < MAX_FILENAME_LENGTH && root != src
      && !(s.files[Find(s.files, src).value].isDirectory && (dest == src || (dest != "" && Beneath(dest, src))))
  {
    PlaceFound(s.files, dest);
  }

  // The source is itself one of the records that are moved.
  lemma SourceIsMoved(s: State, src: string, at: nat, root: string, user: string)
    requires at < |s.files| && s.files[at].name == src
    requires forall i :: 0 <= i < |s.files| && Selected(s.files[i], src, s.files[at].isDirectory) ==>
               MayRename(s, s.files[i], root + s.files[i].name[|src|..], user)
    ensures s.files[at].owner == user && |root| < MAX_FILENAME_LENGTH
  {
    assert Selected(s.files[at], src, s.files[at].isDirectory);
    assert src[|src|..] == "" && root + "" == root;
  }

  // A granted MOVE that the storage servers confirm renames the source and what lies beneath it, in place, and
  // nothing else. Otherwise nothing changes.
  lemma MoveOutcome(s: State, src: string, destArg: string, user: string, storage: Option<ErrorCode>, now: int)
    returns (dest: string, root: string)
    requires DistinctNames(s.files)
    ensures var (reply, s') := MoveStep(s, src, destArg, user, storage, now);
            && (reply.Done? <==> storage.None? && Names(destArg, dest) && MayMove(s, src, dest, root, user))
            && (!reply.Done? ==> s' == s)
            && (reply.Done? ==>
                  && s'.servers == s.servers && |s'.files| == |s.files|
                  && forall i :: 0 <= i < |s.files| ==>
                       MovedAs(s.files[i], s'.files[i], src, s.files[Find(s.files, src).value].isDirectory, root, user, now))
    ensures forall d, r :: Names(destArg, d) && MayMove(s, src, d, r, user) ==> d == dest && r == root
  {
    var v := MoveVerdict(s.files, s.servers, src, destArg, user);
    dest, root := if destArg == "." || destArg == "/" then "" else destArg, "";
    forall d, r | Names(destArg, d) && MayMove(s, src, d, r, user)
      ensures d == dest && v == Granted(r)
    {
      MoveGranted(s, src, destArg, user, r);
    }
    if v.Granted? {
      root := v.value;
      MoveGranted(s, src, destArg, user, root);
      MovedRecords(s.files, src, s.files[Find(s.files, src).value].isDirectory, root, user, now);
    }
  }

  // ---------- notices of storage servers ----------

  // WRITE_COMPLETE gives the named record the new figures and the time, and the counter of the sender, if the file
  // lies at its address, the difference in size. All else stays as it is; an unknown name changes nothing.
  lemma CompleteCorrect(s: State, k: nat, name: string, size: int, words: int, chars: int, now: int)
    requires DistinctNames(s.files) && k < |s.servers|
    ensures var s' := CompleteStep(s, k, name, size, words, chars, now);
            && |s'.files| == |s.files| && |s'.servers| == |s.servers|
            && (forall i :: 0 <= i < |s.files| ==>
                  var m, m' := s.files[i], s'.files[i];
                  if m.name == name then
                    && m'.size == size && m'.words == words && m'.chars == chars && m'.modified == now
                    && m == m'.(size := m.size, words := m.words, chars := m.chars, modified := m.modified)
                  else m' == m)
            && (forall j :: 0 <= j < |s.servers| && j != k ==> s'.servers[j] == s.servers[j])
            && s.servers[k] == s'.servers[k].(totalBytes := s.servers[k].totalBytes)
            && (forall i :: 0 <= i < |s.files| && s.files[i].name == name ==>
                  s'.servers[k].totalBytes ==
                    if s.files[i].ip != s.servers[k].ip || s.files[i].port != s.servers[k].port
                    then s.servers[k].totalBytes
                    else if s.servers[k].totalBytes + size - s.files[i].size < 0 then 0
                    else s.servers[k].totalBytes + size - s.files[i].size)
            && (!HasName(s.files, name) ==> s' == s)
  {
    NameFound(s.files, name);
    forall i | 0 <= i < |s.files| && s.files[i].name == name
      ensures Find(s.files, name) == Some(i)
    {
      FindIs(s.files, name, i);
    }
  }

  // A storage server is entered exactly if there is room and none with its address is connected. Its counters are
  // those of the files that lie there; the other servers and the table stay as they are.
  lemma ConnectCorrect(s: State, ip: string, port: int)
    ensures var s' := ConnectStep(s, ip, port);
            && s'.files == s.files
            && if |s.servers| < MAX_STORAGE_SERVERS && !Connected(s.servers, ip, port) then
                 && |s'.servers| == |s.servers| + 1
                 && (forall k :: 0 <= k < |s.servers| ==> s'.servers[k] == s.servers[k])
                 && var n := s'.servers[|s.servers|];
                    n.ip == ip && n.port == port && n.alive && LoadExact(s.files, n)
               else s' == s
  {
    assert FindServer(s.servers, ip, port).Some? <==> Connected(s.servers, ip, port);
    var n := ServerInfo(ip, port, true, 0, 0);
    SameAddress(s.files, n, Recounted(s.files, n));
  }

  // A lost server is no longer connected; its counters, the other servers and the table stay as they are.
  lemma LostCorrect(s: State, k: nat)
    requires k < |s.servers|
    ensures var s' := LostStep(s, k);
            && s'.files == s.files && |s'.servers| == |s.servers| && !s'.servers[k].alive
            && s.servers[k] == s'.servers[k].(alive := s.servers[k].alive)
            && forall j :: 0 <= j < |s.servers| && j != k ==> s'.servers[j] == s.servers[j]
  {}
}
