/** The name server as a state machine over its table and its storage servers: one step per request, and what
    every run of such steps keeps. */
module Directory {
  import opened Wrappers
  import opened Namespace

  const MAX_STORAGE_SERVERS: nat := 100

  datatype State = State(files: seq<Meta>, servers: seq<ServerInfo>)

  datatype Reply = Done | Error(code: ErrorCode)

  const EMPTY := State([], [])

  // ---------- the steps ----------

  // CREATE: a server was chosen by load; storage says what it answered (None: it confirmed).
  function CreateStep(s: State, name: string, user: string, chosen: Option<nat>, storage: Option<ErrorCode>, now: int):
      (Reply, State)
    requires chosen.Some? ==> chosen.value < |s.servers|
  {
    match CreateVerdict(s.files, chosen, name, user)
    case Refused(code) => (Error(code), s)
    case Granted(k) =>
      var at := s.servers[k];
      EnterStep(s, k, NewFile(name, user, at.ip, at.port, now), storage)
  }

  // A new file is entered and counted on server k, once that server has confirmed it.
  function EnterStep(s: State, k: nat, m: Meta, storage: Option<ErrorCode>): (Reply, State)
    requires k < |s.servers|
  {
    if storage.Some? then (Error(storage.value), s)
    else
      (Done, State(s.files + [m], s.servers[k := s.servers[k].(totalFiles := s.servers[k].totalFiles + 1)]))
  }

  function FolderStep(s: State, path: string, user: string, now: int): (Reply, State) {
    match FolderVerdict(s.files, path, user)
    case Refused(code) => (Error(code), s)
    case Granted(_) => (Done, s.(files := s.files + [NewFolder(path, user, now)]))
  }

  // MOVE: storage says what the storage servers answered to the renames (None: all confirmed).
  function MoveStep(s: State, src: string, destArg: string, user: string, storage: Option<ErrorCode>, now: int):
      (Reply, State)
  {
    match MoveVerdict(s.files, s.servers, src, destArg, user)
    case Refused(code) => (Error(code), s)
    case Granted(root) =>
      if storage.Some? then (Error(storage.value), s)
      else
        var whole := s.files[Find(s.files, src).value].isDirectory;
        (Done, s.(files := Moved(s.files, |s.files|, src, whole, root, user, now)))
  }

  // Taking one record off the table and off the counters of its server.
  function RemoveNamed(s: State, name: string): State {
    match Find(s.files, name)
    case None => s
    case Some(i) => State(RemoveSwap(s.files, i), UnloadFrom(s.servers, s.files[i]))
  }

  function RemoveAll(s: State, order: seq<string>): State {
    if order == [] then s else RemoveNamed(RemoveAll(s, order[..|order| - 1]), order[|order| - 1])
  }

  // The selected names, each once, no name before a longer one. The order of equally long names is left open.
  predicate DeletionOrder(order: seq<string>, fs: seq<Meta>, target: string, whole: bool) {
    && (forall i, j :: 0 <= i < j < |order| ==> order[i] != order[j] && |order[i]| >= |order[j]|)
    && (forall n :: n in order ==> Find(fs, n).Some? && Selected(fs[Find(fs, n).value], target, whole))
    && (forall i :: 0 <= i < |fs| && Selected(fs[i], target, whole) ==> fs[i].name in order)
  }

  // DELETE removes the selected records one at a time.
  function DeleteStep(s: State, target: string, user: string, storage: Option<ErrorCode>, order: seq<string>):
      (Reply, State)
  {
    match DeleteVerdict(s.files, s.servers, target, user)
    case Refused(code) => (Error(code), s)
    case Granted(_) => if storage.Some? then (Error(storage.value), s) else (Done, RemoveAll(s, order))
  }

  // WRITE_COMPLETE from server k; a notice about an unknown file is dropped.
  function CompleteStep(s: State, k: nat, name: string, size: int, words: int, chars: int, now: int): State
    requires k < |s.servers|
  {
    match Find(s.files, name)
    case None => s
    case Some(i) => State(s.files[i := CompletedMeta(s.files[i], size, words, chars, now)],
                          CompletedServers(s.servers, k, s.files[i], size))
  }

  // A storage server registers and, at the end of its file list, its counters are recounted.
  function ConnectStep(s: State, ip: string, port: int): State {
    if |s.servers| >= MAX_STORAGE_SERVERS || FindServer(s.servers, ip, port).Some? then s
    else
      s.(servers := s.servers + [Recounted(s.files, ServerInfo(ip, port, true, 0, 0))])
  }

  function Recounted(fs: seq<Meta>, s: ServerInfo): ServerInfo {
    s.(totalFiles := FilesOn(fs, s), totalBytes := BytesOn(fs, s))
  }

  function LostStep(s: State, k: nat): State
    requires k < |s.servers|
  {
    s.(servers := s.servers[k := s.servers[k].(alive := false)])
  }

  // ---------- what DELETE does to the table ----------

  // Removal by name, whatever the order: exactly the named records go, despite the swaps.
  lemma {:induction false} RemoveAllExact(s: State, order: seq<string>)
    requires DistinctNames(s.files)
    ensures var r := RemoveAll(s, order).files;
            DistinctNames(r) && forall m :: m in r <==> m in s.files && m.name !in order
  {
    if order != [] {
      var init, name := order[..|order| - 1], order[|order| - 1];
      RemoveAllExact(s, init);
      assert order == init + [name];
      var r := RemoveAll(s, init).files;
      match Find(r, name)
      case None =>
        forall m | m in r
          ensures m.name != name
        {
          var k :| 0 <= k < |r| && r[k] == m;
        }
      case Some(i) =>
        RemoveSwapExact(r, i);
        forall m | m in r
          ensures m == r[i] <==> m.name == name
        {
          var k :| 0 <= k < |r| && r[k] == m;
          FindIs(r, r[k].name, k);
        }
    }
  }

  lemma {:induction false} RemoveAllKeepsLoads(s: State, order: seq<string>)
    requires LoadsExact(s.files, s.servers) && DistinctEndpoints(s.servers)
    ensures var r := RemoveAll(s, order); LoadsExact(r.files, r.servers) && DistinctEndpoints(r.servers)
  {
    if order != [] {
      var r := RemoveAll(s, order[..|order| - 1]);
      RemoveAllKeepsLoads(s, order[..|order| - 1]);
      var i := Find(r.files, order[|order| - 1]);
      if i.Some? {
        DeleteKeepsLoads(r.files, r.servers, i.value);
      }
    }
  }

  // A record that is still to be removed is in the table, at some place.
  lemma StillThere(s: State, order: seq<string>, m: Meta)
    requires DistinctNames(s.files) && m in s.files && m.name !in order
    ensures var r := RemoveAll(s, order).files;
            Find(r, m.name).Some? && r[Find(r, m.name).value] == m
  {
    RemoveAllExact(s, order);
    var r := RemoveAll(s, order).files;
    var k :| 0 <= k < |r| && r[k] == m;
    FindIs(r, m.name, k);
  }

  // With the longest name first, no folder ever loses its parent: not at the end, and not after any single removal.
  lemma {:induction false} RemoveAllKeepsTree(s: State, order: seq<string>, n: nat, target: string, at: nat)
    requires DistinctNames(s.files) && FolderTree(s.files) && target != "" && n <= |order|
    requires at < |s.files| && s.files[at].name == target
    requires DeletionOrder(order, s.files, target, s.files[at].isDirectory)
    ensures FolderTree(RemoveAll(s, order[..n]).files)
  {
    if n == 0 {
      assert order[..0] == [];
    } else {
      var whole, done, name := s.files[at].isDirectory, order[..n - 1], order[n - 1];
      RemoveAllKeepsTree(s, order, n - 1, target, at);
      assert order[..n][..n - 1] == done;
      var m := s.files[Find(s.files, name).value];
      StillThere(s, done, m);
      var r := RemoveAll(s, done).files;
      var i := Find(r, name).value;
      RemoveAllExact(s, done);
      FindIs(s.files, target, at);
      forall j | 0 <= j < |r| && Selected(r[j], target, whole)
        ensures |r[j].name| <= |r[i].name|
      {
        assert r[j] in r;
        LeftIsNoLonger(s.files, order, n, target, whole, r[j]);
      }
      RemoveKeepsTree(r, i, target, whole);
    }
  }

  lemma LeftIsNoLonger(fs: seq<Meta>, order: seq<string>, n: nat, target: string, whole: bool, m: Meta)
    requires DeletionOrder(order, fs, target, whole) && 0 < n <= |order|
    requires m in fs && Selected(m, target, whole) && m.name !in order[..n - 1]
    ensures |m.name| <= |order[n - 1]|
  {
    var k :| 0 <= k < |fs| && fs[k] == m;
    var j :| 0 <= j < |order| && order[j] == fs[k].name;
    forall i | 0 <= i < n - 1
      ensures order[i] != m.name
    {
      assert order[..n - 1][i] == order[i];
    }
  }

  // The theorem about DELETE: exactly the target and, for a folder, everything beneath it goes; names stay
  // unique, the folder tree is kept, and the counters stay exact.
  lemma DeleteCorrect(s: State, target: string, user: string, whole: bool, order: seq<string>)
    requires DistinctNames(s.files) && DeleteVerdict(s.files, s.servers, target, user) == Granted(whole)
    requires DeletionOrder(order, s.files, target, whole)
    ensures var r := RemoveAll(s, order);
            && DistinctNames(r.files)
            && (forall m :: m in r.files <==> m in s.files && !Selected(m, target, whole))
            && (FolderTree(s.files) ==> FolderTree(r.files))
            && (LoadsExact(s.files, s.servers) && DistinctEndpoints(s.servers) ==>
                  LoadsExact(r.files, r.servers) && DistinctEndpoints(r.servers))
  {
    RemoveAllExact(s, order);
    forall m | m in s.files
      ensures m.name in order <==> Selected(m, target, whole)
    {
      var k :| 0 <= k < |s.files| && s.files[k] == m;
      FindIs(s.files, m.name, k);
    }
    if FolderTree(s.files) {
      RemoveAllKeepsTree(s, order, |order|, target, Find(s.files, target).value);
      assert order[..|order|] == order;
    }
    if LoadsExact(s.files, s.servers) && DistinctEndpoints(s.servers) {
      RemoveAllKeepsLoads(s, order);
    }
  }

  // ---------- runs ----------

  datatype Event =
    | Create(name: string, user: string, chosen: Option<nat>, storage: Option<ErrorCode>, now: int)
    | CreateFolder(path: string, user: string, now: int)
    | Move(src: string, dest: string, user: string, storage: Option<ErrorCode>, now: int)
    | Delete(target: string, user: string, storage: Option<ErrorCode>, order: seq<string>)
    | WriteComplete(server: nat, name: string, size: int, words: int, chars: int, now: int)
    | Connect(ip: string, port: int)
    | Lost(server: nat)

  // What is assumed of an event: the server chosen by CREATE is connected, DELETE takes longer names first, and
  // WRITE_COMPLETE comes from the connected server that hosts the file, with a size that is not negative.
  predicate Honest(s: State, e: Event) {
    match e
    case Create(_, _, chosen, _, _) => chosen.Some? ==> chosen.value < |s.servers| && s.servers[chosen.value].alive
    case Delete(target, user, _, order) =>
      var v := DeleteVerdict(s.files, s.servers, target, user);
      v.Granted? ==> DeletionOrder(order, s.files, target, v.value)
    case WriteComplete(k, name, size, _, _, _) =>
      && k < |s.servers| && s.servers[k].alive && size >= 0
      && (Find(s.files, name).Some? ==> Hosts(s.servers[k], s.files[Find(s.files, name).value]))
    case Lost(k) => k < |s.servers|
    case _ => true
  }

  function Step(s: State, e: Event): State
    requires Honest(s, e)
  {
    match e
    case Create(name, user, chosen, storage, now) => CreateStep(s, name, user, chosen, storage, now).1
    case CreateFolder(path, user, now) => FolderStep(s, path, user, now).1
    case Move(src, dest, user, storage, now) => MoveStep(s, src, dest, user, storage, now).1
    case Delete(target, user, storage, order) => DeleteStep(s, target, user, storage, order).1
    case WriteComplete(k, name, size, words, chars, now) => CompleteStep(s, k, name, size, words, chars, now)
    case Connect(ip, port) => ConnectStep(s, ip, port)
    case Lost(k) => LostStep(s, k)
  }

  // Names are unique, every folder's parent is a folder, and every connected server's counters are exact.
  predicate Good(s: State) {
    && |s.files| <= MAX_FILES && SizesOk(s.files)
    && DistinctNames(s.files) && FolderTree(s.files)
    && DistinctEndpoints(s.servers) && LoadsExact(s.files, s.servers)
  }

  // A new file on server k keeps everything.
  lemma EnterKeeps(s: State, k: nat, name: string, user: string, now: int)
    requires Good(s) && k < |s.servers| && s.servers[k].alive && |s.files| < MAX_FILES && Find(s.files, name).None?
    ensures Good(EnterStep(s, k, NewFile(name, user, s.servers[k].ip, s.servers[k].port, now), None).1)
  {
    AppendKeeps(s.files, NewFile(name, user, s.servers[k].ip, s.servers[k].port, now));
    CreateKeepsLoads(s.files, s.servers, k, name, user, now);
    CountedOnce(s.servers, k);
  }

  lemma CreateKeeps(s: State, e: Event)
    requires Good(s) && e.Create? && Honest(s, e)
    ensures Good(Step(s, e))
  {
    var v := CreateVerdict(s.files, e.chosen, e.name, e.user);
    if v.Granted? && e.storage.None? {
      EnterKeeps(s, v.value, e.name, e.user, e.now);
    }
  }

  lemma CountedOnce(ss: seq<ServerInfo>, k: nat)
    requires DistinctEndpoints(ss) && k < |ss|
    ensures DistinctEndpoints(ss[k := ss[k].(totalFiles := ss[k].totalFiles + 1)])
  {}

  lemma FolderKeeps(s: State, e: Event)
    requires Good(s) && e.CreateFolder?
    ensures Good(Step(s, e))
  {
    if FolderVerdict(s.files, e.path, e.user).Granted? {
      FolderGranted(s.files, e.path, e.user);
      AppendKeeps(s.files, NewFolder(e.path, e.user, e.now));
      FolderKeepsLoads(s.files, s.servers, e.path, e.user, e.now);
    }
  }

  lemma SizesKept(fs: seq<Meta>, fs': seq<Meta>)
    requires SizesOk(fs) && |fs| == |fs'| && forall i :: 0 <= i < |fs| ==> KeptBy(fs[i], fs'[i])
    ensures SizesOk(fs')
  {}

  lemma MoveKeeps(s: State, e: Event)
    requires Good(s) && e.Move?
    ensures Good(Step(s, e))
  {
    var v := MoveVerdict(s.files, s.servers, e.src, e.dest, e.user);
    if v.Granted? && e.storage.None? {
      MoveCorrect(s.files, s.servers, e.src, e.dest, e.user, e.now, v.value);
      SizesKept(s.files, Step(s, e).files);
    }
  }

  lemma DeleteKeeps(s: State, e: Event)
    requires Good(s) && e.Delete? && Honest(s, e)
    ensures Good(Step(s, e))
  {
    var v := DeleteVerdict(s.files, s.servers, e.target, e.user);
    if v.Granted? && e.storage.None? {
      DeleteCorrect(s, e.target, e.user, v.value, e.order);
      RemoveAllShrinks(s, e.order);
      var r := RemoveAll(s, e.order).files;
      forall i | 0 <= i < |r|
        ensures r[i].size >= 0
      {
        assert r[i] in s.files;
      }
    }
  }

  lemma {:induction false} RemoveAllShrinks(s: State, order: seq<string>)
    ensures |RemoveAll(s, order).files| <= |s.files|
  {
    if order != [] {
      RemoveAllShrinks(s, order[..|order| - 1]);
    }
  }

  lemma CompleteKeeps(s: State, e: Event)
    requires Good(s) && e.WriteComplete? && Honest(s, e)
    ensures Good(Step(s, e))
  {
    var at := Find(s.files, e.name);
    if at.Some? {
      var i := at.value;
      WriteCompleteKeepsLoads(s.files, s.servers, i, e.server, e.size, e.words, e.chars, e.now);
      SameFolders(s.files, s.files[i := CompletedMeta(s.files[i], e.size, e.words, e.chars, e.now)]);
    }
  }

  // The tree depends only on the names and on which records are folders.
  lemma SameFolders(fs: seq<Meta>, fs': seq<Meta>)
    requires FolderTree(fs) && |fs| == |fs'|
    requires forall i :: 0 <= i < |fs| ==> fs'[i].name == fs[i].name && fs'[i].isDirectory == fs[i].isDirectory
    ensures FolderTree(fs')
  {
    forall i | 0 <= i < |fs'| && fs'[i].isDirectory && Parent(fs'[i].name) != ""
      ensures IsFolder(fs', Parent(fs'[i].name))
    {
      assert IsFolder(fs, Parent(fs[i].name));
      var p :| 0 <= p < |fs| && fs[p].isDirectory && fs[p].name == Parent(fs[i].name);
      assert fs'[p].isDirectory;
    }
  }

  lemma ServersKeep(s: State, e: Event)
    requires Good(s) && (e.Connect? || e.Lost?) && Honest(s, e)
    ensures Good(Step(s, e))
  {
    var r := Step(s, e).servers;
    if e.Connect? && |r| > |s.servers| {
      SameAddress(s.files, ServerInfo(e.ip, e.port, true, 0, 0), r[|s.servers|]);
    }
    forall k | 0 <= k < |r| && r[k].alive
      ensures LoadExact(s.files, r[k])
    {
      if k < |s.servers| {
        assert LoadExact(s.files, s.servers[k]);
      }
    }
  }

  lemma StepKeepsGood(s: State, e: Event)
    requires Good(s) && Honest(s, e)
    ensures Good(Step(s, e))
  {
    match e
    case Create(_, _, _, _, _) => CreateKeeps(s, e);
    case CreateFolder(_, _, _) => FolderKeeps(s, e);
    case Move(_, _, _, _, _) => MoveKeeps(s, e);
    case Delete(_, _, _, _) => DeleteKeeps(s, e);
    case WriteComplete(_, _, _, _, _, _) => CompleteKeeps(s, e);
    case Connect(_, _) => ServersKeep(s, e);
    case Lost(_) => ServersKeep(s, e);
  }

  // Runs from a state, as the sequence of states passed.
  predicate IsRun(states: seq<State>, es: seq<Event>) {
    && |states| == |es| + 1
    && forall i :: 0 <= i < |es| ==> Honest(states[i], es[i]) && states[i + 1] == Step(states[i], es[i])
  }

  // Over every run that starts empty: unique names, an unbroken folder tree, and counters equal to a recount.
  lemma {:induction false} RunKeepsGood(states: seq<State>, es: seq<Event>)
    requires IsRun(states, es) && states[0] == EMPTY
    ensures forall i :: 0 <= i < |states| ==> Good(states[i])
  {
    if es != [] {
      var n := |es| - 1;
      RunKeepsGood(states[..n + 1], es[..n]);
      assert states[..n + 1][n] == states[n];
      StepKeepsGood(states[n], es[n]);
      forall i | 0 <= i < |states|
        ensures Good(states[i])
      {
        if i <= n {
          assert states[..n + 1][i] == states[i];
        }
      }
    }
  }
}
