/** The storage server as the program keeps it: a linked list of write sessions and per-file records, updated in
    place. Every handler is proved to do what the corresponding step of Engine says. */
module StorageServer {
  import opened Wrappers
  import opened Text
  import opened Sentences
  import opened Engine
  import opened SnapshotNames
  import Decimals
  import Words

  class WriteSession {
    const clientFd: int
    const file: FileId
    const username: string
    const fileSnapshot: string
    var sentenceIndex: int
    var sentenceStart: int
    var sentenceEnd: int
    var sentenceWorking: string
    var next: WriteSession?

    constructor (fd: int, file: FileId, username: string, index: int, start: int, end: int, snapshot: string,
                 sentence: string, next: WriteSession?)
      ensures Value() == Session(fd, file, username, index, start, end, snapshot, sentence)
      ensures this.next == next
    {
      clientFd, this.file, this.username, fileSnapshot := fd, file, username, snapshot;
      sentenceIndex, sentenceStart, sentenceEnd, sentenceWorking := index, start, end, sentence;
      this.next := next;
    }

    ghost function Value(): Session
      reads this
    {
      Session(clientFd, file, username, sentenceIndex, sentenceStart, sentenceEnd, fileSnapshot, sentenceWorking)
    }

    // What ss_update_active_sessions does to one session of the edited file.
    method MoveBehind(editEnd: int, charDelta: int, sentenceDelta: int)
      modifies this`sentenceStart, this`sentenceEnd, this`sentenceIndex
      ensures Value() == Moved(old(Value()), editEnd, charDelta, sentenceDelta)
    {
      if sentenceStart >= editEnd {
        sentenceStart := sentenceStart + charDelta;
        sentenceEnd := sentenceEnd + charDelta;
        if sentenceDelta != 0 {
          sentenceIndex := sentenceIndex + sentenceDelta;
          if sentenceIndex < 0 {
            sentenceIndex := 0;
          }
        }
      }
    }

    // The session part of WRITE_DATA: a rejected edit leaves the working copy alone.
    method ApplyEdit(wordIndex: int, content: string) returns (ok: bool)
      modifies this`sentenceWorking
      ensures var r := Words.EditSentence(old(sentenceWorking), wordIndex, content);
              ok == r.Some? && sentenceWorking == if ok then r.value else old(sentenceWorking)
    {
      var r := Words.ApplyWordEdit(sentenceWorking, wordIndex, content);
      ok := r.Some?;
      if ok {
        sentenceWorking := r.value;
      }
    }
  }

  class FileRecord {
    const id: FileId
    var content: string
    var undo: Option<string>
    var undoAvailable: bool
    var slots: seq<Checkpoint>  // the fixed-size array inside the record
    var count: nat
    ghost var model: FileState


    // The checkpoints in use lie in the first slots of the array.
    ghost predicate Valid()
      reads this
    {
      && |slots| == MAX_CHECKPOINTS && count <= MAX_CHECKPOINTS
      && model == FileState(content, undo, undoAvailable, slots[..count])
    }

    constructor (id: FileId)
      ensures this.id == id && Valid() && model == FileState("", None, false, [])
    {
      this.id, content, undo, undoAvailable, count := id, "", None, false, 0;
      slots := seq(MAX_CHECKPOINTS, _ => Checkpoint("", ""));
      model := FileState("", None, false, []);
    }

    // The content, the undo file and the undo flag.
    method SetContent(content: string, undo: Option<string>, undoAvailable: bool)
      requires Valid()
      modifies this
      ensures Valid()
      ensures model == old(model).(content := content, undo := undo, undoAvailable := undoAvailable)
    {
      this.content, this.undo, this.undoAvailable := content, undo, undoAvailable;
      model := model.(content := content, undo := undo, undoAvailable := undoAvailable);
    }

    // ss_find_checkpoint
    method FindRecord(tag: string) returns (found: Option<nat>)
      requires Valid()
      ensures found == FindCheckpoint(model.checkpoints, tag)
    {
      ghost var cs := model.checkpoints;
      var i := 0;
      while i < count
        invariant 0 <= i <= count == |cs|
        invariant forall j :: 0 <= j < i ==> cs[j].tag != tag
      {
        assert cs[i] == slots[i];
        if slots[i].tag == tag {
          FindCheckpointIs(cs, tag, i);
          return Some(i);
        }
        i := i + 1;
      }
      NoCheckpoint(cs, tag);
      return None;
    }

    // ss_prune_oldest_checkpoint: the remaining records move down by one. The result is the file to be unlinked.
    method PruneOldest() returns (unlinked: Option<string>)
      requires Valid()
      modifies this
      ensures Valid() && var cs := old(model.checkpoints);
        && model == old(model).(checkpoints := if cs == [] then [] else cs[1..])
        && unlinked == if cs == [] then None else Some(cs[0].path)
    {
      if count <= 0 {
        return None;
      }
      unlinked := Some(slots[0].path);
      for i := 0 to count - 1
        invariant unchanged(`count) && unchanged(`model) && |slots| == MAX_CHECKPOINTS
        invariant unchanged(`content) && unchanged(`undo) && unchanged(`undoAvailable)
        invariant forall j :: 0 <= j < i ==> slots[j] == old(slots)[j + 1]
        invariant forall j :: i <= j < MAX_CHECKPOINTS ==> slots[j] == old(slots)[j]
      {
        slots := slots[i := slots[i + 1]];
      }
      count := count - 1;
      model := model.(checkpoints := model.checkpoints[1..]);
    }

    // The record of a new checkpoint takes the first free slot, after making room if there is none.
    method AddCheckpoint(tag: string, path: string) returns (unlinked: Option<string>)
      requires Valid()
      modifies this
      ensures Valid() && var cs := old(model.checkpoints);
        && model == old(model).(checkpoints := PushCheckpoint(cs, Checkpoint(tag, path)))
        && unlinked == if |cs| >= MAX_CHECKPOINTS then Some(cs[0].path) else None
    {
      unlinked := None;
      if count >= MAX_CHECKPOINTS {
        unlinked := PruneOldest();
      }
      ghost var cs := model.checkpoints;
      assert |cs| == count;
      slots := slots[count := Checkpoint(tag, path)];
      count := count + 1;
      assert slots[..count] == cs + [Checkpoint(tag, path)];
      model := model.(checkpoints := cs + [Checkpoint(tag, path)]);
    }
  }

  lemma FindCheckpointIs(cs: seq<Checkpoint>, tag: string, i: nat)
    requires i < |cs| && cs[i].tag == tag && forall j :: 0 <= j < i ==> cs[j].tag != tag
    ensures FindCheckpoint(cs, tag) == Some(i)
  {
    var r := FindCheckpoint(cs, tag);
    assert r.Some?;
    assert !(r.value < i) && !(i < r.value);
  }

  lemma NoCheckpoint(cs: seq<Checkpoint>, tag: string)
    requires forall j :: 0 <= j < |cs| ==> cs[j].tag != tag
    ensures FindCheckpoint(cs, tag).None?
  {
    if FindCheckpoint(cs, tag).Some? {
      assert false;
    }
  }

  // ---------- the linked list as a sequence of nodes ----------

  function NodeAt(ns: seq<WriteSession>, i: nat): WriteSession? {
    if i < |ns| then ns[i] else null
  }

  // The nodes follow one another, and none occurs twice.
  ghost predicate Chain(ns: seq<WriteSession>)
    reads ns
  {
    && (forall i {:trigger ns[i].next} :: 0 <= i < |ns| ==> ns[i].next == NodeAt(ns, i + 1))
    && (forall i, j :: 0 <= i < j < |ns| ==> ns[i] != ns[j])
  }

  // The nodes hold these sessions.
  ghost predicate Holds(ns: seq<WriteSession>, ss: seq<Session>)
    reads ns
  {
    |ns| == |ss| && forall i :: 0 <= i < |ns| ==> ns[i].Value() == ss[i]
  }

  // A chain whose node i has been passed over by its predecessor.
  lemma Unlinked(ns: seq<WriteSession>, i: nat, ss: seq<Session>)
    requires i < |ns| && forall j, k :: 0 <= j < k < |ns| ==> ns[j] != ns[k]
    requires forall j {:trigger ns[j].next} :: 0 <= j < |ns| && j != i ==>
      ns[j].next == NodeAt(ns, if j + 1 == i then i + 1 else j + 1)
    requires Holds(ns, ss)
    ensures Chain(ns[..i] + ns[i + 1..]) && Holds(ns[..i] + ns[i + 1..], ss[..i] + ss[i + 1..])
  {
    var r, rs := ns[..i] + ns[i + 1..], ss[..i] + ss[i + 1..];
    assert forall j :: 0 <= j < |r| ==> r[j] == ns[if j < i then j else j + 1];
    assert forall j :: 0 <= j < |rs| ==> rs[j] == ss[if j < i then j else j + 1];
  }

  // A node put before the head.
  lemma Linked(node: WriteSession, ns: seq<WriteSession>, x: Session, ss: seq<Session>)
    requires Chain(ns) && Holds(ns, ss) && node !in ns && node.next == NodeAt(ns, 0) && node.Value() == x
    ensures Chain([node] + ns) && Holds([node] + ns, [x] + ss)
  {
    var r := [node] + ns;
    assert forall j :: 0 <= j < |r| ==> r[j] == if j == 0 then node else ns[j - 1];
  }

  // The first position with a property is what the recursive searches of Engine return.
  lemma FindSessionIs(ss: seq<Session>, fd: int, i: nat)
    requires i < |ss| && ss[i].fd == fd && forall j :: 0 <= j < i ==> ss[j].fd != fd
    ensures FindSession(ss, fd) == Some(i)
  {}

  lemma PathsOfStep(cs: seq<Checkpoint>, i: nat)
    requires i < |cs|
    ensures PathsOf(cs[..i + 1]) == PathsOf(cs[..i]) + {cs[i].path}
  {
    assert forall j :: 0 <= j < i ==> cs[..i + 1][j] == cs[..i][j];
    assert cs[..i + 1][i] == cs[i];
    forall p | p in PathsOf(cs[..i])
      ensures p in PathsOf(cs[..i + 1])
    {
      var j :| 0 <= j < |cs[..i]| && cs[..i][j].path == p;
      assert cs[..i + 1][j].path == p;
    }
  }

  lemma MovedKeepsClient(ss: seq<Session>, i: nat, text: string, j: nat)
    requires i < |ss| && BoundsInside(ss[i], text) && j < |ss|
    ensures MovedByCommit(ss, i, text)[j].fd == ss[j].fd
  {}

  // Taking the committing session out of the adjusted list.
  lemma CommitSessionsIs(ss: seq<Session>, i: nat, text: string)
    requires i < |ss| && BoundsInside(ss[i], text) && FindSession(ss, ss[i].fd) == Some(i)
    ensures Detach(MovedByCommit(ss, i, text), ss[i].fd) == CommitSessions(ss, i, text)
  {
    var moved := MovedByCommit(ss, i, text);
    forall j | 0 <= j < |ss|
      ensures moved[j].fd == ss[j].fd
    {
      MovedKeepsClient(ss, i, text, j);
    }
    FindSessionIs(moved, ss[i].fd, i);
  }

  // count_sentences_in_span
  method CountSentencesInSpan(text: string, start: nat, end: nat) returns (count: int)
    requires end <= |text|
    ensures count == if start < end then CountSentences(text[start..end]) else 0
  {
    if start >= end {
      return 0;
    }
    count := 0;
    for i := start to end
      invariant count == Delims(text[start..i])
    {
      assert text[start..i + 1] == text[start..i] + [text[i]];
      assert text[start..i + 1][..i - start] == text[start..i];
      if IsDelimiter(text[i]) {
        count := count + 1;
      }
    }
    if count == 0 {
      count := 1;
    }
  }

  lemma WholeSpan(text: string)
    ensures text[0..|text|] == text
  {}

  // ss->sessions
  class SessionList {
    var head: WriteSession?
    ghost var nodes: seq<WriteSession>
    ghost var model: seq<Session>  // the sessions that the list represents
    ghost var Repr: set<object>

    ghost predicate Valid()
      reads this, Repr
      ensures Valid() ==> this in Repr
    {
      && this in Repr && (forall n :: n in nodes ==> n in Repr)
      && head == NodeAt(nodes, 0) && Chain(nodes) && Holds(nodes, model)
    }

    constructor ()
      ensures Valid() && model == [] && fresh(Repr)
    {
      head, nodes, model := null, [], [];
      Repr := {this};
    }

    // ss_find_session
    method Find(fd: int) returns (node: WriteSession?, ghost at: nat)
      requires Valid()
      ensures match FindSession(model, fd)
              case None => node == null && at == |nodes|
              case Some(i) => at == i && node == nodes[i]
    {
      node, at := head, 0;
      while node != null
        invariant at <= |nodes| && node == NodeAt(nodes, at)
        invariant forall j :: 0 <= j < at ==> model[j].fd != fd
        decreases |nodes| - at
      {
        if node.clientFd == fd {
          FindSessionIs(model, fd, at);
          return;
        }
        node, at := node.next, at + 1;
      }
    }

    // ss_find_session_by_sentence
    method Taken(file: FileId, index: int) returns (taken: bool)
      requires Valid()
      ensures taken == SentenceTaken(model, file, index)
    {
      var node := head;
      ghost var at := 0;
      while node != null
        invariant at <= |nodes| && node == NodeAt(nodes, at)
        invariant forall j :: 0 <= j < at ==> !(model[j].file == file && model[j].index == index)
        decreases |nodes| - at
      {
        assert node.Value() == model[at];
        if node.file == file && node.sentenceIndex == index {
          return true;
        }
        node, at := node.next, at + 1;
      }
      return false;
    }

    // ss_file_has_active_writers
    method Busy(file: FileId) returns (busy: bool)
      requires Valid()
      ensures busy == HasWriters(model, file)
    {
      var node := head;
      ghost var at := 0;
      while node != null
        invariant at <= |nodes| && node == NodeAt(nodes, at)
        invariant forall j :: 0 <= j < at ==> model[j].file != file
        decreases |nodes| - at
      {
        assert node.Value() == model[at];
        if node.file == file {
          return true;
        }
        node, at := node.next, at + 1;
      }
      return false;
    }

    // ss_detach_session: unlink the first session of the client.
    method DetachNode(fd: int)
      requires Valid()
      modifies Repr
      ensures Valid() && Repr == old(Repr) && model == Detach(old(model), fd)
    {
      var prev: WriteSession? := null;
      var node := head;
      ghost var at := 0;
      while node != null && node.clientFd != fd
        invariant at <= |nodes| && node == NodeAt(nodes, at)
        invariant prev == if at == 0 then null else nodes[at - 1]
        invariant forall j :: 0 <= j < at ==> model[j].fd != fd
        decreases |nodes| - at
      {
        assert node.Value() == model[at];
        prev, node, at := node, node.next, at + 1;
      }
      if node != null {
        FindSessionIs(model, fd, at);
        Unlink(prev, node, at);
      }
    }

    // The pointer updates of ss_detach_session.
    method Unlink(prev: WriteSession?, node: WriteSession, ghost at: nat)
      requires Valid() && at < |nodes| && nodes[at] == node
      requires prev == if at == 0 then null else nodes[at - 1]
      modifies Repr
      ensures Valid() && Repr == old(Repr)
      ensures nodes == old(nodes)[..at] + old(nodes)[at + 1..]
      ensures model == old(model)[..at] + old(model)[at + 1..]
    {
      ghost var ns, ss := nodes, model;
      if prev != null {
        prev.next := node.next;
      } else {
        head := node.next;
      }
      node.next := null;
      Unlinked(ns, at, ss);
      nodes := ns[..at] + ns[at + 1..];
      model := ss[..at] + ss[at + 1..];
    }

    // ss_update_active_sessions: one pass over the list, moving the sessions behind the edit.
    method UpdateActiveSessions(file: FileId, editEnd: int, charDelta: int, sentenceDelta: int,
                                exclude: WriteSession, ghost at: nat)
      requires Valid() && at < |nodes| && nodes[at] == exclude && exclude.file == file
      modifies Repr
      ensures Valid() && Repr == old(Repr) && nodes == old(nodes)
      ensures model == MoveOthers(old(model), at, editEnd, charDelta, sentenceDelta)
    {
      ghost var ns, ss := nodes, model;
      var s := head;
      ghost var i := 0;
      while s != null
        invariant nodes == ns && head == NodeAt(ns, 0) && Repr == old(Repr)
        invariant i <= |ns| && s == NodeAt(ns, i) && Chain(ns)
        invariant forall j :: 0 <= j < i ==> ns[j].Value() == MovedAt(ss, at, j, editEnd, charDelta, sentenceDelta)
        invariant forall j :: i <= j < |ns| ==> ns[j].Value() == ss[j]
        decreases |ns| - i
      {
        assert s == ns[i] && s.Value() == ss[i] && (i == at <==> s == exclude);
        if s != exclude && s.file == file {
          s.MoveBehind(editEnd, charDelta, sentenceDelta);
        }
        s, i := s.next, i + 1;
      }
      model := MoveOthers(ss, at, editEnd, charDelta, sentenceDelta);
    }

    // ss_create_session
    method CreateSession(fd: int, file: FileId, username: string, index: int, start: int, end: int,
                         snapshot: string, sentence: string)
      requires Valid()
      modifies Repr
      ensures Valid() && fresh(Repr - old(Repr))
      ensures model == [Session(fd, file, username, index, start, end, snapshot, sentence)] + old(model)
    {
      var node := new WriteSession(fd, file, username, index, start, end, snapshot, sentence, head);
      Linked(node, nodes, node.Value(), model);
      head := node;
      nodes := [node] + nodes;
      model := [node.Value()] + model;
      Repr := Repr + {node};
    }

    // ss_apply_word_edit on a session of the list.
    method EditSession(session: WriteSession, ghost at: nat, wordIndex: int, content: string) returns (ok: bool)
      requires Valid() && at < |nodes| && nodes[at] == session
      modifies Repr
      ensures Valid() && Repr == old(Repr)
      ensures var x := old(model)[at];
              var r := Words.EditSentence(x.working, wordIndex, content);
              ok == r.Some? && model == if ok then old(model)[at := x.(working := r.value)] else old(model)
    {
      ghost var x := model[at];
      assert session.Value() == x;
      ok := session.ApplyEdit(wordIndex, content);
      model := model[at := x.(working := session.sentenceWorking)];
    }
  }

  // ss->files
  class FileTable {
    var records: map<FileId, FileRecord>
    ghost var model: map<FileId, FileState>  // what the records represent
    ghost var Repr: set<object>

    ghost predicate Valid()
      reads this, Repr
      ensures Valid() ==> this in Repr
    {
      && this in Repr && records.Keys == model.Keys
      && (forall f :: f in records ==>
            records[f] in Repr && records[f].id == f && records[f].Valid() && records[f].model == model[f])
    }

    constructor ()
      ensures Valid() && model == map[] && fresh(Repr)
    {
      records, model := map[], map[];
      Repr := {this};
    }

    // The content and the undo fields of one record.
    method Read(file: FileId) returns (content: string, undo: Option<string>, undoAvailable: bool)
      requires Valid() && file in records
      ensures content == model[file].content && undo == model[file].undo && undoAvailable == model[file].undoAvailable
    {
      var rec := records[file];
      return rec.content, rec.undo, rec.undoAvailable;
    }

    // The snapshot path of the checkpoint with a tag.
    method FindPath(file: FileId, tag: string) returns (path: Option<string>)
      requires Valid() && file in records
      ensures var cs := model[file].checkpoints;
              path == match FindCheckpoint(cs, tag) case None => None case Some(i) => Some(cs[i].path)
    {
      var rec := records[file];
      var found := rec.FindRecord(tag);
      return if found.None? then None else Some(rec.slots[found.value].path);
    }

    // Rewrites the content, the undo file and the undo flag of one record.
    method SetFile(file: FileId, content: string, undo: Option<string>, undoAvailable: bool)
      requires Valid() && file in records
      modifies Repr
      ensures Valid() && Repr == old(Repr)
      ensures model == old(model)[file := old(model)[file].(
                content := content, undo := undo, undoAvailable := undoAvailable)]
    {
      records[file].SetContent(content, undo, undoAvailable);
      model := model[file := model[file].(content := content, undo := undo, undoAvailable := undoAvailable)];
    }

    method AddCheckpoint(file: FileId, tag: string, path: string) returns (unlinked: Option<string>)
      requires Valid() && file in records
      modifies Repr
      ensures Valid() && Repr == old(Repr)
      ensures var cs := old(model)[file].checkpoints;
              unlinked == if |cs| >= MAX_CHECKPOINTS then Some(cs[0].path) else None
      ensures model == old(model)[file := old(model)[file].(
                checkpoints := PushCheckpoint(old(model)[file].checkpoints, Checkpoint(tag, path)))]
    {
      unlinked := records[file].AddCheckpoint(tag, path);
      model := model[file := model[file].(
        checkpoints := PushCheckpoint(model[file].checkpoints, Checkpoint(tag, path)))];
    }

    method Add(file: FileId)
      requires Valid() && file !in records
      modifies Repr
      ensures Valid() && fresh(Repr - old(Repr))
      ensures model == old(model)[file := FileState("", None, false, [])]
    {
      var rec := new FileRecord(file);
      records := records[file := rec];
      model := model[file := FileState("", None, false, [])];
      Repr := Repr + {rec};
    }

    method Remove(file: FileId)
      requires Valid() && file in records
      modifies Repr
      ensures Valid() && Repr == old(Repr) && model == old(model) - {file}
    {
      records := records - {file};
      model := model - {file};
    }
  }

  class Server {
    const list: SessionList
    const table: FileTable
    var snapshots: map<string, string>

    ghost predicate Valid()
      reads list, list.Repr, table, table.Repr
    {
      list.Valid() && table.Valid() && list.Repr !! table.Repr && this !in list.Repr && this !in table.Repr
    }

    ghost function Value(): State
      reads this, list, table
    {
      State(table.model, list.model, snapshots)
    }

    // The objects that the server is made of.
    ghost function Repr(): set<object>
      reads list, table
    {
      {this} + list.Repr + table.Repr
    }

    constructor ()
      ensures Valid() && Value() == EMPTY && fresh(Repr())
    {
      list := new SessionList();
      table := new FileTable();
      snapshots := map[];
    }

    // ---------- steps of the handlers ----------

    method Rewrite(file: FileId, content: string, undo: Option<string>, undoAvailable: bool)
      requires Valid() && file in table.records
      modifies table.Repr
      ensures Valid() && Repr() == old(Repr()) && list.nodes == old(list.nodes)
      ensures list.model == old(list.model) && snapshots == old(snapshots)
      ensures table.model == old(table.model)[file := old(table.model)[file].(
                content := content, undo := undo, undoAvailable := undoAvailable)]
    {
      table.SetFile(file, content, undo, undoAvailable);
    }

    method AdjustOthers(session: WriteSession, ghost at: nat, editEnd: int, charDelta: int, sentenceDelta: int)
      requires Valid() && at < |list.nodes| && list.nodes[at] == session
      modifies list.Repr
      ensures Valid() && Repr() == old(Repr())
      ensures table.model == old(table.model) && snapshots == old(snapshots)
      ensures list.model == MoveOthers(old(list.model), at, editEnd, charDelta, sentenceDelta)
    {
      list.UpdateActiveSessions(session.file, editEnd, charDelta, sentenceDelta, session, at);
    }

    method DetachClient(fd: int)
      requires Valid()
      modifies list.Repr
      ensures Valid() && Repr() == old(Repr())
      ensures Value() == old(Value()).(sessions := Detach(old(list.model), fd))
    {
      list.DetachNode(fd);
    }

    // ---------- the handlers ----------

    // handle_client_write_lock
    method WriteLockRequest(fd: int, user: string, file: FileId, index: Option<int>, allowed: bool)
      returns (reply: Reply)
      requires Valid()
      modifies list.Repr
      ensures Valid() && fresh(Repr() - old(Repr()))
      ensures (Value(), reply) == LockStep(old(Value()), WriteLock(fd, user, file, index, allowed))
    {
      if index.None? || index.value < 0 {
        return Error(InvalidRequest);
      }
      DetachClient(fd);
      reply := Grant(fd, user, file, index.value, allowed);
    }

    // What remains of the request once the client's earlier session is gone.
    method Grant(fd: int, user: string, file: FileId, index: nat, allowed: bool) returns (reply: Reply)
      requires Valid()
      modifies list.Repr
      ensures Valid() && fresh(Repr() - old(Repr()))
      ensures (Value(), reply) == GrantStep(old(Value()), fd, user, file, index, allowed)
    {
      if file !in table.records {
        return Error(FileNotFound);
      }
      if !allowed {
        return Error(PermissionDenied);
      }
      var taken := list.Taken(file, index);
      if taken {
        return Error(SentenceLocked);
      }
      var text, _, _ := table.Read(file);
      var bounds := GetSentenceBounds(text, index);
      if bounds.None? {
        return Error(InvalidRequest);
      }
      var start, end := bounds.value.start, bounds.value.end;
      var sentence := if end > start then text[start..end] else "";
      assert sentence == text[start..end];
      list.CreateSession(fd, file, user, index, start, end, text, sentence);
      return Locked(sentence);
    }

    // handle_client_write_data
    method WriteDataRequest(fd: int, wordIndex: Option<int>, content: string) returns (reply: Reply)
      requires Valid()
      modifies list.Repr
      ensures Valid() && Repr() == old(Repr())
      ensures (Value(), reply) == DataStep(old(Value()), WriteData(fd, wordIndex, content))
    {
      if wordIndex.None? || wordIndex.value < 0 {
        return Error(InvalidRequest);
      }
      var session, at := list.Find(fd);
      if session == null {
        return Error(InvalidRequest);
      }
      var ok := list.EditSession(session, at, wordIndex.value, content);
      return if ok then Done else Error(InvalidRequest);
    }

    // handle_client_etirw
    method EtirwRequest(fd: int) returns (reply: Reply)
      requires Valid()
      modifies list.Repr, table.Repr
      ensures Valid() && (Value(), reply) == CommitStep(old(Value()), Etirw(fd))
      ensures Repr() == old(Repr())
    {
      var session, at := list.Find(fd);
      if session == null {
        return Error(InvalidRequest);
      }
      ghost var x := list.model[at];
      assert session.Value() == x;
      if session.file !in table.records {
        return Error(Internal);
      }
      var text, _, _ := table.Read(session.file);
      var lockedStart, lockedEnd := session.sentenceStart, session.sentenceEnd;
      if lockedStart < 0 || lockedEnd < 0 || lockedStart > |text| || lockedEnd > |text| || lockedStart > lockedEnd {
        return Error(Internal);
      }
      CommitSessionsIs(list.model, at, text);
      Commit(session, at, text, lockedStart, lockedEnd);
      DetachClient(fd);
      return Done;
    }

    // From the counting of sentences to the adjustment of the other sessions.
    method Commit(session: WriteSession, ghost at: nat, text: string, lockedStart: nat, lockedEnd: nat)
      requires Valid() && at < |list.nodes| && list.nodes[at] == session && session.file in table.records
      requires lockedStart == session.sentenceStart && lockedEnd == session.sentenceEnd
      requires text == table.model[session.file].content && lockedStart <= lockedEnd <= |text|
      modifies list.Repr, table.Repr
      ensures Valid() && Repr() == old(Repr())
      ensures var x := old(list.model)[at];
              && table.model == old(table.model)[x.file := CommitFile(old(table.model)[x.file], x)]
              && list.model == MovedByCommit(old(list.model), at, text) && snapshots == old(snapshots)
    {
      ghost var x := list.model[at];
      assert session.Value() == x;
      var replacement := session.sentenceWorking;
      var oldSentences := CountSentencesInSpan(text, lockedStart, lockedEnd);
      var newSentences := CountSentencesInSpan(replacement, 0, |replacement|);
      WholeSpan(replacement);
      var newContent := text[..lockedStart] + replacement + text[lockedEnd..];
      Rewrite(session.file, newContent, Some(text), true);
      AdjustOthers(session, at, lockedEnd, |replacement| - (lockedEnd - lockedStart), newSentences - oldSentences);
    }

    // The end of a client's connection: ss_abort_session.
    method DisconnectClient(fd: int)
      requires Valid()
      modifies list.Repr
      ensures Valid() && Value() == Step(old(Value()), Disconnect(fd))
      ensures Repr() == old(Repr())
    {
      DetachClient(fd);
    }

    // The checks that undo, checkpoint and revert share.
    method Refuse(file: FileId, allowed: bool) returns (refusal: Option<ErrorCode>)
      requires Valid()
      ensures refusal == Refusal(Value(), file, allowed)
    {
      if file !in table.records {
        return Some(FileNotFound);
      }
      if !allowed {
        return Some(PermissionDenied);
      }
      var busy := list.Busy(file);
      return if busy then Some(SentenceLocked) else None;
    }

    // handle_client_undo
    method UndoRequest(file: FileId, allowed: bool) returns (reply: Reply)
      requires Valid()
      modifies table.Repr
      ensures Valid() && Repr() == old(Repr())
      ensures (Value(), reply) == UndoStep(old(Value()), Undo(file, allowed))
    {
      var refusal := Refuse(file, allowed);
      if refusal.Some? {
        return Error(refusal.value);
      }
      var _, undo, undoAvailable := table.Read(file);
      if !undoAvailable || undo.None? {
        return Error(NoUndoHistory);
      }
      Rewrite(file, undo.value, undo, false);
      return Done;
    }

    // handle_client_checkpoint. base is the storage directory and the file's name, now the clock in seconds.
    method CheckpointRequest(file: FileId, tag: string, base: string, now: int, allowed: bool) returns (reply: Reply)
      requires Valid()
      modifies this`snapshots, table.Repr
      ensures Valid() && Repr() == old(Repr())
      ensures (Value(), reply) == CheckpointStep(old(Value()), TakeCheckpoint(file, tag, base, now, allowed))
    {
      var tagCopy := TrimString(Cut(tag, MAX_TAG_LENGTH));
      if tagCopy == "" {
        return Error(InvalidRequest);
      }
      var refusal := Refuse(file, allowed);
      if refusal.Some? {
        return Error(refusal.value);
      }
      reply := Append(file, tagCopy, base, now);
    }

    // From the search for the tag on.
    method Append(file: FileId, tag: string, base: string, now: int) returns (reply: Reply)
      requires Valid() && file in table.records
      modifies this`snapshots, table.Repr
      ensures Valid() && Repr() == old(Repr())
      ensures (Value(), reply) == AppendStep(old(Value()), file, tag, SnapshotPath(base, now, tag))
    {
      var existing := table.FindPath(file, tag);
      if existing.Some? {
        return Error(InvalidRequest);
      }
      var path := BuildPath(base, now, tag);
      if |path| >= MAX_PATH_LENGTH {
        return Error(Internal);
      }
      PersistCheckpoint(file, tag, path);
      return Done;
    }

    // The copy is written first; a full list then gives up its oldest entry and that entry's file.
    method PersistCheckpoint(file: FileId, tag: string, path: string)
      requires Valid() && file in table.records
      modifies this`snapshots, table.Repr
      ensures Valid() && Repr() == old(Repr()) && list.model == old(list.model)
      ensures var f := old(table.model)[file];
              && table.model == old(table.model)[file := f.(
                   checkpoints := PushCheckpoint(f.checkpoints, Checkpoint(tag, path)))]
              && snapshots == PushSnapshot(old(snapshots), f.checkpoints, path, f.content)
    {
      var content, _, _ := table.Read(file);
      WriteSnapshot(path, content);
      var unlinked := AppendRecord(file, tag, path);
      Unlink(unlinked);
    }

    // ss_copy_file, and unlink, on snapshot files.
    method WriteSnapshot(path: string, content: string)
      requires Valid()
      modifies this`snapshots
      ensures Valid() && snapshots == old(snapshots)[path := content]
    {
      snapshots := snapshots[path := content];
    }

    method Unlink(path: Option<string>)
      requires Valid()
      modifies this`snapshots
      ensures Valid() && snapshots == if path.Some? then old(snapshots) - {path.value} else old(snapshots)
    {
      if path.Some? {
        snapshots := snapshots - {path.value};
      }
    }

    method AppendRecord(file: FileId, tag: string, path: string) returns (unlinked: Option<string>)
      requires Valid() && file in table.records
      modifies table.Repr
      ensures Valid() && Repr() == old(Repr())
      ensures list.model == old(list.model) && snapshots == old(snapshots)
      ensures var f := old(table.model)[file];
              && table.model == old(table.model)[file := f.(
                   checkpoints := PushCheckpoint(f.checkpoints, Checkpoint(tag, path)))]
              && unlinked == if |f.checkpoints| >= MAX_CHECKPOINTS then Some(f.checkpoints[0].path) else None
    {
      unlinked := table.AddCheckpoint(file, tag, path);
    }

    // handle_client_revert
    method RevertRequest(file: FileId, tag: string, allowed: bool) returns (reply: Reply)
      requires Valid()
      modifies table.Repr
      ensures Valid() && Repr() == old(Repr())
      ensures (Value(), reply) == RevertStep(old(Value()), Revert(file, tag, allowed))
    {
      var tagCopy := TrimString(Cut(tag, MAX_TAG_LENGTH));
      if tagCopy == "" {
        return Error(InvalidRequest);
      }
      var refusal := Refuse(file, allowed);
      if refusal.Some? {
        return Error(refusal.value);
      }
      reply := Restore(file, tagCopy);
    }

    // From the search for the tag on.
    method Restore(file: FileId, tag: string) returns (reply: Reply)
      requires Valid() && file in table.records
      modifies table.Repr
      ensures Valid() && Repr() == old(Repr())
      ensures (Value(), reply) == RestoreStep(old(Value()), file, tag)
    {
      var path := table.FindPath(file, tag);
      if path.None? {
        return Error(InvalidRequest);
      }
      if path.value !in snapshots {
        return Error(Internal);
      }
      var content, _, _ := table.Read(file);
      Rewrite(file, snapshots[path.value], Some(content), true);
      return Done;
    }

    // The checks of COPY: both files exist, and neither is locked.
    method RefuseCopy(dest: FileId, source: Source) returns (refusal: Option<ErrorCode>)
      requires Valid()
      ensures refusal == CopyRefusal(Value(), dest, source)
    {
      if dest !in table.records || (source.Local? && source.file !in table.records) {
        return Some(FileNotFound);
      }
      var destBusy := list.Busy(dest);
      var srcBusy := false;
      if source.Local? {
        srcBusy := list.Busy(source.file);
      }
      return if destBusy || srcBusy then Some(SentenceLocked) else None;
    }

    // The bytes that COPY is to write.
    method Transferred(source: Source) returns (t: Transfer)
      requires Valid() && (source.Local? ==> source.file in table.records)
      ensures t == Delivered(Value(), source)
    {
      if source.Local? {
        var content, _, _ := table.Read(source.file);
        return Bytes(content);
      }
      return source.transfer;
    }

    // handle_ss_copy
    method CopyRequest(dest: FileId, source: Source) returns (reply: Reply)
      requires Valid()
      modifies table.Repr
      ensures Valid() && Repr() == old(Repr())
      ensures (Value(), reply) == CopyStep(old(Value()), Copy(dest, source))
    {
      var refusal := RefuseCopy(dest, source);
      if refusal.Some? {
        return Error(refusal.value);
      }
      var t := Transferred(source);
      if !t.Bytes? {
        return Error(CopyFailure(t));
      }
      var _, undo, undoAvailable := table.Read(dest);
      Rewrite(dest, t.data, undo, undoAvailable);
      return Done;
    }

    // ss_create_file
    method CreateRequest(file: FileId) returns (reply: Reply)
      requires Valid()
      modifies table.Repr
      ensures Valid() && fresh(Repr() - old(Repr()))
      ensures (Value(), reply) == CreateStep(old(Value()), Create(file))
    {
      if file in table.records {
        return Error(FileExists);
      }
      table.Add(file);
      return Done;
    }

    // ss_delete_file
    method DeleteRequest(file: FileId) returns (reply: Reply)
      requires Valid()
      modifies this`snapshots, table.Repr
      ensures Valid() && Repr() == old(Repr())
      ensures (Value(), reply) == DeleteStep(old(Value()), Delete(file))
    {
      if file !in table.records {
        return Error(FileNotFound);
      }
      var busy := list.Busy(file);
      if busy {
        return Error(SentenceLocked);
      }
      UnlinkSnapshots(file);
      table.Remove(file);
      return Done;
    }

    // The snapshot files of a file that is deleted go with it.
    method UnlinkSnapshots(file: FileId)
      requires Valid() && file in table.records
      modifies this`snapshots
      ensures snapshots == old(snapshots) - PathsOf(table.model[file].checkpoints)
    {
      var rec := table.records[file];
      ghost var cs := table.model[file].checkpoints;
      assert rec.slots[..rec.count] == cs;
      var i := 0;
      while i < rec.count
        invariant 0 <= i <= |cs| && snapshots == old(snapshots) - PathsOf(cs[..i])
      {
        PathsOfStep(cs, i);
        snapshots := snapshots - {rec.slots[i].path};
        i := i + 1;
      }
      assert cs[..i] == cs;
    }
  }
}
