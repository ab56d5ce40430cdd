/** The name server's state as the program keeps it: a flat array of records, the hash index and the lookup cache,
    all updated in place. Lookups agree with a linear search in every state that the methods can produce. */
module NameServer {
  import opened Wrappers
  import opened Namespace
  import opened Directory
  import opened Plans
  import FileIndex
  import FileCache

  // The index says of every name what a linear search of the table says.
  ghost predicate Indexes(m: map<string, nat>, fs: seq<Meta>) {
    forall name :: Find(fs, name) == if name in m then Some(m[name]) else None
  }

  // Names are distinct, the index finds exactly the names of the table, and every valid cache entry points at the
  // slot that holds its name.
  ghost predicate Agree(fs: seq<Meta>, m: map<string, nat>, es: seq<FileCache.Entry>) {
    DistinctNames(fs) && Indexes(m, fs) && FileCache.Sound(es, fs)
  }

  lemma AgreeAppend(fs: seq<Meta>, m: map<string, nat>, es: seq<FileCache.Entry>, x: Meta)
    requires Agree(fs, m, es) && Find(fs, x.name).None?
    ensures Agree(fs + [x], m[x.name := |fs|], es)
  {
    DistinctAppend(fs, x);
    IndexAppend(m, fs, x);
  }

  lemma IndexAppend(m: map<string, nat>, fs: seq<Meta>, x: Meta)
    requires Indexes(m, fs) && Find(fs, x.name).None?
    ensures Indexes(m[x.name := |fs|], fs + [x])
  {
    assert (fs + [x])[..|fs|] == fs;
  }

  lemma IndexRemove(m: map<string, nat>, fs: seq<Meta>, i: nat)
    requires DistinctNames(fs) && Indexes(m, fs) && i < |fs|
    ensures var rest := m - {fs[i].name};
            Indexes(if i == |fs| - 1 then rest else rest[fs[|fs| - 1].name := i], RemoveSwap(fs, i))
  {
    var r, rest := RemoveSwap(fs, i), m - {fs[i].name};
    var m' := if i == |fs| - 1 then rest else rest[fs[|fs| - 1].name := i];
    RemoveSwapExact(fs, i);
    FindIs(fs, fs[i].name, i);
    FindIs(fs, fs[|fs| - 1].name, |fs| - 1);
    forall name
      ensures Find(r, name) == if name in m' then Some(m'[name]) else None
    {
      assert Find(fs, name) == if name in m then Some(m[name]) else None;
      if Find(fs, name).Some? && name != fs[i].name {
        var k := Find(fs, name).value;
        FindIs(r, name, if k == |fs| - 1 then i else k);
      } else {
        NotFound(r, name);
      }
    }
  }

  // The record entered last is found in the last slot, and removing it gives the former table.
  lemma LastIs(fs: seq<Meta>, m: Meta)
    requires Find(fs, m.name).None?
    ensures Find(fs + [m], m.name) == Some(|fs|) && RemoveSwap(fs + [m], |fs|) == fs
  {
    var r := fs + [m];
    assert r[..|r| - 1] == fs && r[|r| - 1] == m;
    LastRemoved(fs, m);
  }

  lemma LastRemoved(fs: seq<Meta>, m: Meta)
    ensures RemoveSwap(fs + [m], |fs|) == fs
  {}

  lemma DistinctAppend(fs: seq<Meta>, m: Meta)
    requires DistinctNames(fs) && Find(fs, m.name).None?
    ensures DistinctNames(fs + [m])
  {}

  // The index finds the last record with each name.
  ghost predicate IndexesLast(m: map<string, nat>, fs: seq<Meta>) {
    forall name :: FindLast(fs, name) == if name in m then Some(m[name]) else None
  }

  lemma LastAppend(m: map<string, nat>, fs: seq<Meta>, x: Meta)
    requires IndexesLast(m, fs)
    ensures IndexesLast(m[x.name := |fs|], fs + [x])
  {
    assert (fs + [x])[..|fs|] == fs;
  }

  lemma LastReplace(m: map<string, nat>, fs: seq<Meta>, x: Meta)
    requires IndexesLast(m, fs) && fs != [] && x.name == fs[|fs| - 1].name
    ensures IndexesLast(m, fs[|fs| - 1 := x])
  {
    forall name
      ensures FindLast(fs[|fs| - 1 := x], name) == if name in m then Some(m[name]) else None
    {
      FindLastSameNames(fs, fs[|fs| - 1 := x], name);
    }
  }

  lemma LastIsFirst(m: map<string, nat>, fs: seq<Meta>)
    requires IndexesLast(m, fs) && DistinctNames(fs)
    ensures Indexes(m, fs)
  {
    forall name
      ensures Find(fs, name) == if name in m then Some(m[name]) else None
    {
      FindLastIsFind(fs, name);
    }
  }

  lemma NotFound(fs: seq<Meta>, name: string)
    requires forall m :: m in fs ==> m.name != name
    ensures Find(fs, name).None?
  {
    forall i | 0 <= i < |fs|
      ensures fs[i].name != name
    {
      assert fs[i] in fs;
    }
  }

  lemma IndexRename(m: map<string, nat>, fs: seq<Meta>, i: nat, x: Meta)
    requires DistinctNames(fs) && Indexes(m, fs) && i < |fs| && Find(fs, x.name).None?
    ensures DistinctNames(fs[i := x])
    ensures Indexes((m - {fs[i].name})[x.name := i], fs[i := x])
  {
    var r, m' := fs[i := x], (m - {fs[i].name})[x.name := i];
    assert DistinctNames(r);
    FindIs(fs, fs[i].name, i);
    forall name
      ensures Find(r, name) == if name in m' then Some(m'[name]) else None
    {
      assert Find(fs, name) == if name in m then Some(m[name]) else None;
      if name == x.name {
        FindIs(r, name, i);
      } else if Find(fs, name).Some? && name != fs[i].name {
        FindIs(r, name, Find(fs, name).value);
      } else {
        forall k | 0 <= k < |r|
          ensures r[k].name != name
        {
          assert k != i ==> r[k] == fs[k] && fs[k].name != fs[i].name;
        }
        NotFound(r, name);
      }
    }
  }

  class Registry {
    const files: array<Meta>
    var count: nat
    const index: FileIndex.Index
    const cache: FileCache.Cache
    var servers: seq<ServerInfo>
    ghost var model: seq<Meta>  // the records in use

    // The records in use lie in the first slots, and the arrays are three different ones.
    ghost predicate Layout()
      reads this`count, this`model, files
    {
      && files.Length == MAX_FILES && count <= MAX_FILES && model == files[..count]
      && files as object != index.buckets && files as object != cache.entries && index.buckets as object != cache.entries
    }

    // Table, index and cache agree.
    ghost predicate Valid()
      reads this`count, this`model, files, index, index.buckets, cache, cache.entries
    {
      && Layout()
      && index.Valid() && cache.Valid() && Agree(model, index.model, cache.entries[..])
    }

    ghost function Now(): State
      reads this
    {
      State(model, servers)
    }

    // The table alone: a record more, a record changed, a record less.
    method AddSlot(m: Meta)
      requires Layout() && count < MAX_FILES
      modifies this`count, this`model, files
      ensures Layout() && model == old(model) + [m]
    {
      files[count] := m;
      count := count + 1;
      model := model + [m];
    }

    method SetSlot(i: nat, m: Meta)
      requires Layout() && i < count
      modifies this`model, files
      ensures Layout() && model == old(model)[i := m]
    {
      files[i] := m;
      model := model[i := m];
    }

    method FreeSlot(i: nat)
      requires Layout() && i < count
      modifies this`count, this`model, files
      ensures Layout() && model == RemoveSwap(old(model), i)
    {
      var last := count - 1;
      if i != last {
        files[i] := files[last];
      }
      count := last;
      model := RemoveSwap(model, i);
    }

    constructor ()
      ensures Valid() && Filling() && Now() == EMPTY
      ensures fresh(files) && fresh(index) && fresh(index.buckets) && fresh(cache) && fresh(cache.entries)
    {
      files := new Meta[MAX_FILES](_ => NewFolder("", "", 0));
      count, servers, model := 0, [], [];
      index := new FileIndex.Index();
      cache := new FileCache.Cache();
    }

    // ---------- the metadata file ----------

    // While a file is read the table grows and the index with it; the cache is empty. A file may name a record twice,
    // although saving never writes one that does; the index then finds the later one.
    ghost predicate Filling()
      reads this`count, this`model, files, index, index.buckets, cache, cache.entries
    {
      && Layout()
      && index.Valid() && IndexesLast(index.model, model)
      && cache.Valid() && forall i :: 0 <= i < FileCache.CACHE_SIZE ==> !cache.entries[i].valid
    }

    // A record read from the file goes into the next slot and into the index.
    method LoadRecord(m: Meta)
      requires Filling() && count < MAX_FILES
      modifies this`count, this`model, files, index, index.buckets
      ensures Filling() && model == old(model) + [m]
    {
      LastAppend(index.model, model, m);
      AddSlot(m);
      index.Insert(m.name, count - 1);
    }

    // The record read last gets its access lists.
    method ReplaceLast(m: Meta)
      requires Filling() && count > 0 && m.name == model[count - 1].name
      modifies this`model, files
      ensures Filling() && model == old(model)[count - 1 := m]
    {
      LastReplace(index.model, model, m);
      SetSlot(count - 1, m);
    }

    // file_lookup_locked: the cache first, then the hash index; a miss is remembered in the cache.
    method Lookup(name: string) returns (slot: Option<nat>)
      requires Valid()
      modifies cache, cache.entries
      ensures Valid() && slot == Find(model, name)
    {
      slot := cache.Lookup(name, model, count);
      if slot.Some? {
        FindIs(model, name, slot.value);
        return;
      }
      slot := index.Find(name);
      if slot.Some? {
        cache.Store(name, slot.value, model);
      }
    }

    // A new record in the first unused slot, indexed.
    method Enter(m: Meta)
      requires Valid() && count < MAX_FILES && Find(model, m.name).None?
      modifies this`count, this`model, files, index, index.buckets
      ensures Valid() && model == old(model) + [m]
    {
      ghost var fs := model;
      AgreeAppend(fs, index.model, cache.entries[..], m);
      AddSlot(m);
      index.Insert(m.name, count - 1);
    }

    // It is cached, too.
    method Append(m: Meta)
      requires Valid() && count < MAX_FILES && Find(model, m.name).None?
      modifies this`count, this`model, files, index, index.buckets, cache, cache.entries
      ensures Valid() && model == old(model) + [m]
    {
      Enter(m);
      cache.Store(m.name, count - 1, model);
    }

    // remove_file_metadata_locked: the index node goes, the last record moves into the gap, and the node and the
    // cache entry of that record follow it.
    method Remove(name: string) returns (removed: bool)
      requires Valid()
      modifies this`count, this`model, files, index, index.buckets, cache.entries
      ensures Valid() && removed == Find(old(model), name).Some?
      ensures model == if removed then RemoveSwap(old(model), Find(old(model), name).value) else old(model)
    {
      var slot := index.Find(name);
      if slot.None? {
        return false;
      }
      var i := slot.value;
      ghost var fs := model;
      var moved := if i != count - 1 then Some(files[count - 1].name) else None;
      RemoveFromIndex(name, i);
      cache.Drop(name, i, fs, moved, count);
      return true;
    }

    // The part of the removal that concerns table and index.
    method RemoveFromIndex(name: string, i: nat)
      requires Valid() && i < count && model[i].name == name
      modifies this`count, this`model, files, index, index.buckets
      ensures Layout() && index.Valid() && model == RemoveSwap(old(model), i)
      ensures DistinctNames(model) && Indexes(index.model, model)
    {
      IndexRemove(index.model, model, i);
      RemoveSwapExact(model, i);
      var last := files[count - 1].name;
      var _ := index.Remove(name);
      if i != count - 1 {
        FreeSlot(i);
        index.Insert(last, i);
      } else {
        FreeSlot(i);
      }
    }

    // One step of the final loop of MOVE: index node, record and cache entry get the new name.
    method Rename(oldName: string, i: nat, m: Meta)
      requires Valid() && i < count && model[i].name == oldName && Find(model, m.name).None?
      modifies this`model, files, index, index.buckets, cache, cache.entries
      ensures Valid() && model == old(model)[i := m]
    {
      ghost var fs := model;
      IndexRename(index.model, fs, i, m);
      var _ := index.Remove(oldName);
      SetSlot(i, m);
      index.Insert(m.name, i);
      cache.Rename(oldName, m.name, i, fs, model);
    }

    // The scan for a connected storage server with a given address.
    method Connected(ip: string, port: int) returns (k: Option<nat>)
      ensures k == FindServer(servers, ip, port)
    {
      var i := 0;
      while i < |servers|
        invariant 0 <= i <= |servers|
        invariant forall j :: 0 <= j < i ==> !(servers[j].alive && servers[j].ip == ip && servers[j].port == port)
      {
        if servers[i].alive && servers[i].ip == ip && servers[i].port == port {
          return Some(i);
        }
        i := i + 1;
      }
      return None;
    }

    // The checks of CREATE; nothing but the cache changes.
    method CheckCreate(name: string, user: string, chosen: Option<nat>) returns (v: Verdict<nat>)
      requires Valid()
      modifies cache, cache.entries
      ensures Valid() && v == CreateVerdict(model, chosen, name, user)
    {
      if !ValidFilename(name) {
        return Refused(InvalidRequest);
      }
      if user == "" || count >= MAX_FILES {
        return Refused(Internal);
      }
      var existing := Lookup(name);
      if existing.Some? {
        return Refused(FileExists);
      }
      return if chosen.None? then Refused(Internal) else Granted(chosen.value);
    }

    // CREATE. The server was chosen by load; storage says what that server answered (None: it confirmed).
    method CreateRequest(name: string, user: string, chosen: Option<nat>, storage: Option<ErrorCode>, now: int)
      returns (reply: Reply)
      requires Valid() && (chosen.Some? ==> chosen.value < |servers|)
      modifies this`count, this`model, this`servers, files, index, index.buckets, cache, cache.entries
      ensures Valid() && (reply, Now()) == CreateStep(old(Now()), name, user, chosen, storage, now)
    {
      var v := CheckCreate(name, user, chosen);
      if v.Refused? {
        return Error(v.code);
      }
      var at := servers[v.value];
      reply := Confirm(v.value, NewFile(name, user, at.ip, at.port, now), storage);
    }

    // The record is entered before the storage server is asked, and taken back if that fails.
    method Confirm(k: nat, m: Meta, storage: Option<ErrorCode>) returns (reply: Reply)
      requires Valid() && count < MAX_FILES && Find(model, m.name).None? && k < |servers|
      modifies this`count, this`model, this`servers, files, index, index.buckets, cache, cache.entries
      ensures Valid() && (reply, Now()) == EnterStep(old(Now()), k, m, storage)
    {
      if storage.Some? {
        EnterAndTakeBack(m);
        return Error(storage.value);
      }
      Append(m);
      CountFile(k);
      return Done;
    }

    method CountFile(k: nat)
      requires Valid() && k < |servers|
      modifies this`servers
      ensures Valid() && model == old(model)
      ensures servers == old(servers)[k := old(servers)[k].(totalFiles := old(servers)[k].totalFiles + 1)]
    {
      servers := servers[k := servers[k].(totalFiles := servers[k].totalFiles + 1)];
    }

    method EnterAndTakeBack(m: Meta)
      requires Valid() && count < MAX_FILES && Find(model, m.name).None?
      modifies this`count, this`model, files, index, index.buckets, cache, cache.entries
      ensures Valid() && model == old(model)
    {
      ghost var fs := model;
      Append(m);
      LastIs(fs, m);
      var _ := Remove(m.name);
    }

    // A folder that a request names must exist and be a folder; the root always does.
    method CheckFolder(path: string) returns (refusal: Option<ErrorCode>)
      requires Valid()
      modifies cache, cache.entries
      ensures Valid() && refusal == FolderRefusal(model, path)
    {
      if path == "" {
        return None;
      }
      var at := Lookup(path);
      if at.None? {
        return Some(FileNotFound);
      }
      return if files[at.value].isDirectory then None else Some(InvalidRequest);
    }

    // CREATEFOLDER
    method FolderRequest(path: string, user: string, now: int) returns (reply: Reply)
      requires Valid()
      modifies this`count, this`model, files, index, index.buckets, cache, cache.entries
      ensures Valid() && (reply, Now()) == FolderStep(old(Now()), path, user, now)
    {
      if !ValidPath(path) {
        return Error(InvalidRequest);
      }
      if user == "" || count >= MAX_FILES {
        return Error(Internal);
      }
      var existing := Lookup(path);
      if existing.Some? {
        return Error(FileExists);
      }
      var missing := CheckFolder(Parent(path));
      if missing.Some? {
        return Error(missing.value);
      }
      Append(NewFolder(path, user, now));
      return Done;
    }

    // ---------- MOVE ----------

    // The checks of MOVE on source and destination; nothing but the cache changes.
    method CheckRoot(src: string, destArg: string, user: string) returns (v: Verdict<string>)
      requires Valid()
      modifies cache, cache.entries
      ensures Valid() && v == RootVerdict(model, src, destArg, user)
    {
      if !ValidPath(src) {
        return Refused(InvalidRequest);
      }
      if user == "" {
        return Refused(Internal);
      }
      var normalized := NormalizeDestination(destArg);
      if normalized.None? {
        return Refused(InvalidRequest);
      }
      var dest := normalized.value;
      var at := Lookup(src);
      if at.None? {
        return Refused(FileNotFound);
      }
      if files[at.value].owner != user {
        return Refused(PermissionDenied);
      }
      var missing := CheckFolder(dest);
      if missing.Some? {
        return Refused(missing.value);
      }
      var whole, root := files[at.value].isDirectory, MoveRoot(src, dest);
      if |root| >= MAX_FILENAME_LENGTH || root == src || (whole && dest != "" && IsDescendant(dest, src)) {
        return Refused(InvalidRequest);
      }
      return Granted(root);
    }

    // All checks of MOVE, and its plan.
    method CheckMove(src: string, destArg: string, user: string)
      returns (v: Verdict<string>, whole: bool, plan: seq<MoveEntry>)
      requires Valid()
      modifies cache, cache.entries
      ensures Valid() && v == MoveVerdict(model, servers, src, destArg, user)
      ensures v.Granted? ==>
        whole == model[Find(model, src).value].isDirectory && IsMovePlan(plan, model, |model|, src, whole, v.value)
    {
      whole, plan := false, [];
      v := CheckRoot(src, destArg, user);
      if v.Refused? {
        return;
      }
      var at := Lookup(src);
      whole := files[at.value].isDirectory;
      var refusal: Option<ErrorCode>;
      refusal, plan := PlanMove(src, whole, v.value, user);
      if refusal.Some? {
        v := Refused(refusal.value);
      }
    }

    // One record that MOVE is about to rename.
    method CheckEntry(m: Meta, src: string, root: string, user: string) returns (refusal: Option<ErrorCode>)
      requires Valid() && |src| <= |m.name|
      modifies cache, cache.entries
      ensures Valid() && refusal == EntryRefusal(model, servers, m, src, root, user)
    {
      var path := NewName(m.name, src, root);
      if m.owner != user {
        return Some(PermissionDenied);
      }
      if |path| >= MAX_FILENAME_LENGTH || !ValidPath(path) {
        return Some(InvalidRequest);
      }
      var collision := Lookup(path);
      if collision.Some? && path != m.name {
        return Some(FileExists);
      }
      refusal := CheckServer(m);
    }

    // A file can only be moved or deleted while the server that holds it is connected.
    method CheckServer(m: Meta) returns (refusal: Option<ErrorCode>)
      ensures refusal == ServerRefusal(servers, m)
    {
      if m.isDirectory {
        return None;
      }
      var k := Connected(m.ip, m.port);
      return if k.None? then Some(Internal) else None;
    }

    // The loop over the table that collects the entries to rename, or stops at the first one that cannot be.
    method PlanMove(src: string, whole: bool, root: string, user: string)
      returns (refusal: Option<ErrorCode>, plan: seq<MoveEntry>)
      requires Valid()
      modifies cache, cache.entries
      ensures Valid() && refusal == PlanRefusal(model, servers, |model|, src, whole, root, user)
      ensures refusal.None? ==> IsMovePlan(plan, model, |model|, src, whole, root)
    {
      plan := [];
      var i := 0;
      while i < count
        invariant 0 <= i <= count && Valid()
        invariant PlanRefusal(model, servers, i, src, whole, root, user).None?
        invariant IsMovePlan(plan, model, i, src, whole, root)
      {
        var m := files[i];
        assert m == model[i];
        PlanStep(model, servers, i, plan, src, whole, root, user);
        if Selected(m, src, whole) {
          refusal := CheckEntry(m, src, root, user);
          if refusal.Some? {
            return refusal, plan;
          }
          plan := plan + [MoveEntry(m.name, NewName(m.name, src, root))];
        }
        i := i + 1;
      }
      return None, plan;
    }

    // One turn of the final loop of MOVE.
    method RenameEntry(e: MoveEntry, src: string, root: string, user: string, now: int)
      requires Valid() && Find(model, e.oldPath).Some? && Find(model, e.newPath).None?
      requires |src| <= |e.oldPath| && e.newPath == NewName(e.oldPath, src, root)
      modifies this`model, files, index, index.buckets, cache, cache.entries
      ensures Valid()
      ensures var i := Find(old(model), e.oldPath).value;
              model == old(model)[i := RenamedMeta(old(model)[i], src, root, user, now)]
    {
      var at := Lookup(e.oldPath);
      var m := files[at.value];
      assert m == model[at.value];
      Rename(e.oldPath, at.value, RenamedMeta(m, src, root, user, now));
    }

    // The final loop of MOVE.
    method CarryOut(plan: seq<MoveEntry>, src: string, whole: bool, root: string, user: string, now: int)
      requires Valid() && NoCollision(model, src, whole, root)
      requires IsMovePlan(plan, model, |model|, src, whole, root)
      modifies this`model, files, index, index.buckets, cache, cache.entries
      ensures Valid() && model == Moved(old(model), |old(model)|, src, whole, root, user, now)
    {
      ghost var fs := model;
      ghost var ps := Positions(fs, |fs|, src, whole);
      MovedStart(fs, src, whole, root, user, now);
      for j := 0 to |plan|
        invariant Valid() && count == |fs|
        invariant model == Moved(fs, Reached(ps, j, |fs|), src, whole, root, user, now)
      {
        MovedFinds(fs, j, src, whole, root, user, now);
        MovedNext(fs, j, src, whole, root, user, now);
        RenameEntry(plan[j], src, root, user, now);
      }
    }

    // MOVE. storage says what the storage servers answered to the renames (None: all confirmed).
    method MoveRequest(src: string, destArg: string, user: string, storage: Option<ErrorCode>, now: int)
      returns (reply: Reply)
      requires Valid()
      modifies this`model, files, index, index.buckets, cache, cache.entries
      ensures Valid() && (reply, Now()) == MoveStep(old(Now()), src, destArg, user, storage, now)
    {
      var v, whole, plan := CheckMove(src, destArg, user);
      if v.Refused? {
        return Error(v.code);
      }
      if storage.Some? {
        return Error(storage.value);
      }
      MoveSafe(model, servers, src, destArg, user, v.value);
      CarryOut(plan, src, whole, v.value, user, now);
      return Done;
    }

    // ---------- DELETE ----------

    // The checks of DELETE and its plan; nothing but the cache changes.
    method CheckDelete(target: string, user: string) returns (v: Verdict<bool>, plan: seq<DeleteEntry>)
      requires Valid()
      modifies cache, cache.entries
      ensures Valid() && v == DeleteVerdict(model, servers, target, user)
      ensures v.Granted? ==> IsDeletePlan(plan, model, servers, |model|, target, v.value)
    {
      plan := [];
      if !ValidPath(target) {
        return Refused(InvalidRequest), plan;
      }
      if user == "" {
        return Refused(Internal), plan;
      }
      var at := Lookup(target);
      if at.None? {
        return Refused(FileNotFound), plan;
      }
      if files[at.value].owner != user {
        return Refused(PermissionDenied), plan;
      }
      var whole := files[at.value].isDirectory;
      var refusal: Option<ErrorCode>;
      refusal, plan := PlanDelete(target, whole, user);
      return if refusal.Some? then Refused(refusal.value) else Granted(whole), plan;
    }

    // One record that DELETE is about to remove.
    method EntryFor(m: Meta, user: string) returns (refusal: Option<ErrorCode>, entry: DeleteEntry)
      ensures refusal == DeleteEntryRefusal(servers, m, user) && entry == EntryOf(m, servers)
    {
      var home: Option<nat> := None;
      if !m.isDirectory {
        home := Connected(m.ip, m.port);
      }
      entry := DeleteEntry(m.name, if m.size > 0 then m.size else 0, home);
      if m.owner != user {
        return Some(PermissionDenied), entry;
      }
      return if !m.isDirectory && home.None? then Some(Internal) else None, entry;
    }

    // The loop over the table that collects the entries to remove, or stops at the first one that cannot be.
    method PlanDelete(target: string, whole: bool, user: string)
      returns (refusal: Option<ErrorCode>, plan: seq<DeleteEntry>)
      requires Valid()
      ensures refusal == DeletePlanRefusal(model, servers, |model|, target, whole, user)
      ensures refusal.None? ==> IsDeletePlan(plan, model, servers, |model|, target, whole)
    {
      plan := [];
      var i := 0;
      while i < count
        invariant 0 <= i <= count
        invariant DeletePlanRefusal(model, servers, i, target, whole, user).None?
        invariant IsDeletePlan(plan, model, servers, i, target, whole)
      {
        var m := files[i];
        assert m == model[i];
        DeletePlanStep(model, servers, i, plan, target, whole, user);
        if Selected(m, target, whole) {
          var entry;
          refusal, entry := EntryFor(m, user);
          if refusal.Some? {
            return refusal, plan;
          }
          plan := plan + [entry];
        }
        i := i + 1;
      }
      return None, plan;
    }

    // The counters of a server lose one file; they stop at zero.
    method TakeOff(k: nat, size: int)
      requires k < |servers|
      modifies this`servers
      ensures servers == old(servers)[k := Unload(old(servers)[k], size)]
    {
      var s := servers[k];
      if s.totalFiles > 0 {
        s := s.(totalFiles := s.totalFiles - 1);
      }
      if size > 0 {
        s := s.(totalBytes := if s.totalBytes >= size then s.totalBytes - size else 0);
      }
      servers := servers[k := s];
    }

    // One turn of the removal loop: the record goes, and its server's counters with it.
    method RemoveEntry(e: DeleteEntry)
      requires Valid() && Find(model, e.path).Some?
      requires e == EntryOf(model[Find(model, e.path).value], servers)
      modifies this, files, index, index.buckets, cache.entries
      ensures Valid() && Now() == RemoveNamed(old(Now()), e.path)
    {
      var removed := Remove(e.path);
      if removed && e.home.Some? {
        TakeOff(e.home.value, e.size);
      }
    }

    // Carrying out one entry of the plan.
    method RemovePlannedEntry(plan: seq<DeleteEntry>, j: nat, ghost before: State, target: string, whole: bool,
                              ghost order: seq<string>)
      requires Valid() && DistinctNames(before.files)
      requires IsDeletePlan(plan, before.files, before.servers, |before.files|, target, whole)
      requires j < |plan| && plan[j].path !in order && Now() == RemoveAll(before, order)
      modifies this, files, index, index.buckets, cache.entries
      ensures Valid() && Now() == RemoveAll(before, order + [plan[j].path])
    {
      PlanStillTrue(before, plan, target, whole, order, j);
      RemoveEntry(plan[j]);
      assert (order + [plan[j].path])[..|order|] == order;
    }

    // The removal loop of DELETE: the longest path that is left goes next. order is the order it follows.
    method RemovePlanned(plan: seq<DeleteEntry>, target: string, whole: bool) returns (ghost order: seq<string>)
      requires Valid() && IsDeletePlan(plan, model, servers, |model|, target, whole)
      modifies this, files, index, index.buckets, cache.entries
      ensures Valid() && DeletionOrder(order, old(model), target, whole) && Now() == RemoveAll(old(Now()), order)
    {
      ghost var before := Now();
      var flags := seq(|plan|, _ => false);
      order := [];
      OrderedStart(plan, flags);
      PlanPathsDistinct(plan, model, servers, target, whole);
      var removed := 0;
      while removed < |plan|
        invariant Valid() && removed == |order| <= |plan| && Ordered(plan, flags, order)
        invariant Now() == RemoveAll(before, order)
      {
        var best := Longest(plan, flags);
        RemovePlannedEntry(plan, best, before, target, whole, order);
        OrderedStep(plan, flags, order, best);
        flags := flags[best := true];
        order := order + [plan[best].path];
        removed := removed + 1;
      }
      OrderedDone(plan, flags, order, before.files, before.servers, target, whole);
    }

    // DELETE. storage says what the storage servers answered (None: all confirmed).
    method DeleteRequest(target: string, user: string, storage: Option<ErrorCode>)
      returns (reply: Reply, ghost order: seq<string>)
      requires Valid()
      modifies this, files, index, index.buckets, cache, cache.entries
      ensures Valid() && (reply, Now()) == DeleteStep(old(Now()), target, user, storage, order)
      ensures reply.Done? ==>
        DeletionOrder(order, old(model), target, DeleteVerdict(old(model), old(servers), target, user).value)
    {
      order := [];
      var v, plan := CheckDelete(target, user);
      if v.Refused? {
        return Error(v.code), order;
      }
      if storage.Some? {
        return Error(storage.value), order;
      }
      order := RemovePlanned(plan, target, v.value);
      return Done, order;
    }

    // ---------- notices of storage servers ----------

    // WRITE_COMPLETE
    method WriteComplete(k: nat, name: string, size: int, words: int, chars: int, now: int)
      requires Valid() && k < |servers|
      modifies this, files, cache, cache.entries
      ensures Valid() && Now() == CompleteStep(old(Now()), k, name, size, words, chars, now)
    {
      var slot := index.Find(name);
      if slot.None? {
        return;
      }
      var i, m := slot.value, files[slot.value];
      Refresh(i, m.(size := size, words := words, chars := chars, modified := now));
      if m.ip == servers[k].ip && m.port == servers[k].port {
        var total := servers[k].totalBytes + (size - m.size);
        servers := servers[k := servers[k].(totalBytes := if total < 0 then 0 else total)];
      }
    }

    // A record changes in place and keeps its name; its slot is cached.
    method Refresh(i: nat, m: Meta)
      requires Valid() && i < count && m.name == model[i].name
      modifies this`model, files, cache, cache.entries
      ensures Valid() && model == old(model)[i := m]
    {
      ghost var fs := model;
      SetSlot(i, m);
      SameLookups(fs, i, m);
      cache.Store(m.name, i, model);
    }

    // A storage server registers, unless one with its address is connected, and is counted.
    method Register(ip: string, port: int) returns (ok: bool)
      requires Valid()
      modifies this`servers
      ensures Now() == ConnectStep(old(Now()), ip, port) && ok == (Now() != old(Now()))
    {
      if |servers| >= MAX_STORAGE_SERVERS {
        return false;
      }
      var twin := Connected(ip, port);
      if twin.Some? {
        return false;
      }
      servers := servers + [ServerInfo(ip, port, true, 0, 0)];
      Recount(|servers| - 1);
      return true;
    }

    // ns_recalculate_server_load_locked
    method Recount(k: nat)
      requires Valid() && k < |servers|
      modifies this`servers
      ensures servers == old(servers)[k := Recounted(model, old(servers)[k])]
    {
      var s := servers[k];
      var total, number, i := 0, 0, 0;
      while i < count
        invariant 0 <= i <= count
        invariant number == FilesOn(model[..i], s) && total == BytesOn(model[..i], s)
      {
        var m := files[i];
        assert model[..i + 1][..i] == model[..i] && model[..i + 1][i] == m;
        if !m.isDirectory && m.ip == s.ip && m.port == s.port {
          number := number + 1;
          if m.size > 0 {
            total := total + m.size;
          }
        }
        i := i + 1;
      }
      assert model[..count] == model;
      LoadBounds(model, s);
      servers := servers[k := s.(totalFiles := number, totalBytes := if total < 0 then 0 else total)];
    }
  }

  // A record that keeps its name is found as before.
  lemma SameLookups(fs: seq<Meta>, i: nat, m: Meta)
    requires i < |fs| && m.name == fs[i].name && DistinctNames(fs)
    ensures DistinctNames(fs[i := m])
    ensures forall name :: Find(fs[i := m], name) == Find(fs, name)
  {
    forall name
      ensures Find(fs[i := m], name) == Find(fs, name)
    {
      if Find(fs, name).Some? {
        FindIs(fs[i := m], name, Find(fs, name).value);
      } else {
        NotFound(fs[i := m], name);
      }
    }
  }

  // The scan for the longest path that is left; of several it takes the last. One is left, so one is found.
  method Longest(plan: seq<DeleteEntry>, flags: seq<bool>) returns (best: nat)
    requires |flags| == |plan| && CountTrue(flags) < |plan|
    ensures best < |plan| && !flags[best]
    ensures forall j :: 0 <= j < |plan| && !flags[j] ==> |plan[j].path| <= |plan[best].path|
    ensures forall j :: best < j < |plan| && !flags[j] ==> |plan[j].path| < |plan[best].path|
  {
    var found: Option<nat>, length: nat := None, 0;
    for i := 0 to |plan|
      invariant found.None? ==> length == 0
      invariant found.Some? ==> found.value < i && !flags[found.value] && length == |plan[found.value].path|
      invariant forall j :: 0 <= j < i && !flags[j] ==> found.Some? && |plan[j].path| <= length
      invariant forall j :: 0 <= j < i && !flags[j] && j > found.value ==> |plan[j].path| < length
    {
      if !flags[i] && |plan[i].path| >= length {
        found, length := Some(i), |plan[i].path|;
      }
    }
    SomeLeft(flags);
    return found.value;
  }
}
