/** When each request to a storage server is carried out, and what it then changes. Refused requests change nothing,
    and no request changes a file that it is not about. */
module Requests {
  import opened Wrappers
  import opened Text
  import opened Sentences
  import opened Engine
  import opened LockSafety
  import opened History
  import opened SnapshotNames

  // Some client has a sentence of the file locked.
  ghost predicate LockedBySome(s: State, f: FileId) {
    exists x :: x in s.sessions && x.file == f
  }

  lemma WritersHold(s: State, f: FileId)
    ensures HasWriters(s.sessions, f) <==> LockedBySome(s, f)
  {
    if HasWriters(s.sessions, f) {
      var i :| 0 <= i < |s.sessions| && s.sessions[i].file == f;
      assert s.sessions[i] in s.sessions;
    }
  }

  // ---------- frames ----------

  // A refused request leaves the whole state as it was; only a refused lock may have ended the client's own session.
  lemma RefusedChangesNothing(s: State, e: Event)
    requires !Succeeds(s, e)
    ensures !(e.WriteLock? && e.index.Some? && e.index.value >= 0) ==> Step(s, e) == s
    ensures Step(s, e).files == s.files && Step(s, e).snapshots == s.snapshots
  {}

  // The event is about this file.
  predicate About(s: State, e: Event, f: FileId) {
    match e
    case Etirw(fd) => exists x :: x in s.sessions && x.fd == fd && x.file == f
    case Undo(g, _) => g == f
    case TakeCheckpoint(g, _, _, _, _) => g == f
    case Revert(g, _, _) => g == f
    case Copy(g, _) => g == f
    case Create(g) => g == f
    case Delete(g) => g == f
    case _ => false
  }

  lemma OtherFilesKept(s: State, e: Event, f: FileId)
    requires Inv(s) && !About(s, e, f)
    ensures f in Step(s, e).files <==> f in s.files
    ensures f in s.files ==> Step(s, e).files[f] == s.files[f]
  {
    if e.Etirw? {
      if FindSession(s.sessions, e.fd).Some? {
        CommitFiles(s, e);
        assert s.sessions[FindSession(s.sessions, e.fd).value] in s.sessions;
      }
    } else {
      HandlersKeepOthers(s, e, f);
    }
  }

  lemma HandlersKeepOthers(s: State, e: Event, f: FileId)
    requires !e.Etirw? && !About(s, e, f)
    ensures f in Step(s, e).files <==> f in s.files
    ensures f in s.files ==> Step(s, e).files[f] == s.files[f]
  {}

  // ---------- sessions ----------

  // The end of a connection ends the client's session, and no other; nothing else changes.
  lemma DisconnectEndsSession(s: State, fd: int)
    requires Inv(s)
    ensures Step(s, Disconnect(fd)) == s.(sessions := Step(s, Disconnect(fd)).sessions)
    ensures forall y :: y in Step(s, Disconnect(fd)).sessions <==> y in s.sessions && y.fd != fd
  {
    DetachKeeps(s.sessions, fd);
  }

  // So does a commit; the other sessions remain, as it leaves them. The former content becomes the undo file.
  lemma CommitEndsSession(s: State, x: Session)
    requires Inv(s) && x in s.sessions
    ensures SessionOk(s, x) && x.file in Step(s, Etirw(x.fd)).files
    ensures var s' := Step(s, Etirw(x.fd));
            && (forall y :: y in s'.sessions ==> y.fd != x.fd)
            && (forall y :: y in s.sessions && y != x ==> View(s, x, y) in s'.sessions)
            && |s'.sessions| == |s.sessions| - 1
            && s'.snapshots == s.snapshots
            && s'.files[x.file].checkpoints == s.files[x.file].checkpoints
            && s'.files[x.file].undoAvailable && s'.files[x.file].undo == Some(s.files[x.file].content)
  {
    FoundIs(s.sessions, x.fd, x);
    var i := FindSession(s.sessions, x.fd).value;
    CommitFiles(s, Etirw(x.fd));
    CommitList(s, i);
    var s' := Step(s, Etirw(x.fd));
    forall j | 0 <= j < |s'.sessions|
      ensures s'.sessions[j].fd != x.fd
    {
      OthersApart(s, i, if j < i then j else j + 1);
    }
    forall y | y in s.sessions && y != x
      ensures View(s, x, y) in s'.sessions
    {
      var j :| 0 <= j < |s.sessions| && s.sessions[j] == y;
      CommitListHas(s, i, j);
    }
  }

  lemma OthersApart(s: State, i: nat, j: nat)
    requires Inv(s) && i < |s.sessions| && j < |s.sessions| && i != j
    ensures s.sessions[j].fd != s.sessions[i].fd
  {
    assert if i < j then Apart(s.sessions[i], s.sessions[j]) else Apart(s.sessions[j], s.sessions[i]);
  }

  // Another client has this sentence.
  ghost predicate TakenByOther(s: State, fd: int, f: FileId, index: int) {
    exists x :: x in s.sessions && x.file == f && x.index == index && x.fd != fd
  }

  // Why a lock is refused.
  lemma LockRefusals(s: State, e: Event)
    requires Inv(s) && e.WriteLock? && e.index.Some? && e.index.value >= 0
    ensures var reply, k := StepReply(s, e).1, e.index.value;
            && (reply == Error(FileNotFound) <==> e.file !in s.files)
            && (reply == Error(PermissionDenied) <==> e.file in s.files && !e.allowed)
            && (reply == Error(SentenceLocked) <==> e.file in s.files && e.allowed && TakenByOther(s, e.fd, e.file, k))
            && (reply == Error(InvalidRequest) <==> e.file in s.files && e.allowed && k > Delims(s.files[e.file].content))
  {
    StillTaken(s, e.fd, e.file, e.index.value);
  }

  lemma StillTaken(s: State, fd: int, f: FileId, k: int)
    requires Inv(s)
    ensures SentenceTaken(Detach(s.sessions, fd), f, k) <==> TakenByOther(s, fd, f, k)
    ensures TakenByOther(s, fd, f, k) ==> f in s.files && k <= Delims(s.files[f].content)
  {
    DetachKeeps(s.sessions, fd);
    var d := Detach(s.sessions, fd);
    if SentenceTaken(d, f, k) {
      var i :| 0 <= i < |d| && d[i].file == f && d[i].index == k;
      assert d[i] in d;
    }
    if TakenByOther(s, fd, f, k) {
      var x :| x in s.sessions && x.file == f && x.index == k && x.fd != fd;
      assert x in d && SessionOk(s, x);
      BoundsIs(s.files[f].content, k, Span(x.start, x.end));
    }
  }

  // ---------- undo, checkpoint, revert ----------

  // The tag that the handlers use of what a client sent: what fits the buffer, without the white space at both ends.
  lemma CleanTagIs(sent: string) returns (i: nat, j: nat)
    ensures i <= j <= |sent| && j < MAX_TAG_LENGTH && CleanTag(sent) == sent[i..j]
    ensures AllSpace(sent[..i]) && (i < j ==> !IsSpace(sent[i]) && !IsSpace(sent[j - 1]))
    ensures forall k :: j <= k < |sent| && k < MAX_TAG_LENGTH - 1 ==> IsSpace(sent[k])
  {
    var cut := Cut(sent, MAX_TAG_LENGTH);
    i, j := TrimIs(cut);
    assert cut[i..j] == sent[i..j] && cut[..i] == sent[..i];
    forall k | j <= k < |sent| && k < MAX_TAG_LENGTH - 1
      ensures IsSpace(sent[k])
    {
      assert sent[k] == cut[j..][k - j];
    }
  }

  // What all three ask first.
  ghost predicate MayChange(s: State, f: FileId, allowed: bool) {
    f in s.files && allowed && !LockedBySome(s, f)
  }

  // Why one of the three is refused before the file's own history is looked at.
  lemma RefusalIs(s: State, f: FileId, allowed: bool)
    ensures var r := Refusal(s, f, allowed);
            && (r.None? <==> MayChange(s, f, allowed))
            && (r == Some(FileNotFound) <==> f !in s.files)
            && (r == Some(PermissionDenied) <==> f in s.files && !allowed)
            && (r == Some(SentenceLocked) <==> f in s.files && allowed && LockedBySome(s, f))
  {
    WritersHold(s, f);
  }

  lemma EarlyRefusals(s: State, e: Event)
    requires e.Undo? || ((e.TakeCheckpoint? || e.Revert?) && CleanTag(e.tag) != "")
    ensures var reply := StepReply(s, e).1;
            && (reply == Error(FileNotFound) <==> e.file !in s.files)
            && (reply == Error(PermissionDenied) <==> e.file in s.files && !e.allowed)
            && (reply == Error(SentenceLocked) <==> e.file in s.files && e.allowed && LockedBySome(s, e.file))
  {
    RefusalIs(s, e.file, e.allowed);
  }

  // In every reachable state: UNDO is carried out exactly for a user with write access, on a file that nobody has
  // locked and whose latest commit or revert has not been undone; it brings back the content before that change.
  lemma UndoWhen(es: seq<Event>, f: FileId, allowed: bool)
    ensures var s, e := Run(EMPTY, es), Undo(f, allowed);
            && (Succeeds(s, e) <==> MayChange(s, f, allowed) && BeforeLatest(es, f).Some?)
            && (Succeeds(s, e) ==>
                  f in Step(s, e).files && Step(s, e).files[f]
                    == s.files[f].(content := BeforeLatest(es, f).value, undoAvailable := false))
            && Step(s, e).sessions == s.sessions && Step(s, e).snapshots == s.snapshots
  {
    RefusalIs(Run(EMPTY, es), f, allowed);
    if f in Run(EMPTY, es).files {
      UndoFileIsBeforeLatest(es, f);
    }
  }

  // The file has a listed checkpoint with this tag.
  ghost predicate HasTag(s: State, f: FileId, tag: string) {
    exists i :: IsEntry(s, f, i) && s.files[f].checkpoints[i].tag == tag
  }

  lemma TagFound(s: State, f: FileId, tag: string)
    requires f in s.files
    ensures FindCheckpoint(s.files[f].checkpoints, tag).Some? <==> HasTag(s, f, tag)
  {
    var r := FindCheckpoint(s.files[f].checkpoints, tag);
    if r.Some? {
      assert IsEntry(s, f, r.value);
    }
  }

  // CHECKPOINT is carried out exactly with a tag that is new for the file, by a user with write access, on a file
  // that nobody has locked; a full list is no obstacle. The content and the undo file stay as they are.
  lemma CheckpointWhen(s: State, e: Event)
    requires e.TakeCheckpoint?
    ensures var tag := CleanTag(e.tag);
            Succeeds(s, e) <==>
              && tag != "" && MayChange(s, e.file, e.allowed) && !HasTag(s, e.file, tag)
              && |PathOf(e)| < MAX_PATH_LENGTH
    ensures Succeeds(s, e) ==>
              && e.file in Step(s, e).files && Step(s, e).sessions == s.sessions
              && Step(s, e).files[e.file] == s.files[e.file].(checkpoints := Step(s, e).files[e.file].checkpoints)
              && HasTag(Step(s, e), e.file, CleanTag(e.tag))
  {
    RefusalIs(s, e.file, e.allowed);
    if MayChange(s, e.file, e.allowed) {
      TagFound(s, e.file, CleanTag(e.tag));
    }
    if Succeeds(s, e) {
      var cs := Step(s, e).files[e.file].checkpoints;
      assert cs[|cs| - 1].tag == CleanTag(e.tag);
      assert IsEntry(Step(s, e), e.file, |cs| - 1);
    }
  }

  lemma OneEntryEach(cs: seq<Checkpoint>, i: nat, j: nat)
    requires DistinctTags(cs) && i < |cs| && j < |cs| && cs[i].tag == cs[j].tag
    ensures i == j
  {}

  // In every reachable state: REVERT is carried out exactly for a listed tag whose snapshot file is there, by a user
  // with write access, on a file that nobody has locked. The former content becomes the undo file.
  lemma RevertWhen(es: seq<Event>, e: Event)
    requires e.Revert?
    ensures var s, tag := Run(EMPTY, es), CleanTag(e.tag);
            && (Succeeds(s, e) <==>
                  && tag != "" && MayChange(s, e.file, e.allowed)
                  && exists i :: IsEntry(s, e.file, i) && s.files[e.file].checkpoints[i].tag == tag
                                 && PathAt(s, e.file, i) in s.snapshots)
            && (Succeeds(s, e) ==>
                  && e.file in Step(s, e).files && Step(s, e).sessions == s.sessions && Step(s, e).snapshots == s.snapshots
                  && Step(s, e).files[e.file] == s.files[e.file].(
                       content := Step(s, e).files[e.file].content,
                       undo := Some(s.files[e.file].content), undoAvailable := true))
  {
    var s, tag := Run(EMPTY, es), CleanTag(e.tag);
    RefusalIs(s, e.file, e.allowed);
    if MayChange(s, e.file, e.allowed) {
      CheckpointListIsLatest(es, e.file);
      var cs := s.files[e.file].checkpoints;
      var r := FindCheckpoint(cs, tag);
      if r.Some? {
        assert IsEntry(s, e.file, r.value);
        forall i | IsEntry(s, e.file, i) && cs[i].tag == tag
          ensures i == r.value
        {
          OneEntryEach(cs, i, r.value);
        }
      }
    }
  }

  // ---------- copy, create, delete ----------

  // The file that COPY reads from is there and not locked, or the other server delivers its bytes.
  ghost predicate CanRead(s: State, source: Source) {
    match source
    case Local(g) => g in s.files && !LockedBySome(s, g)
    case Remote(t) => t.Bytes?
  }

  // COPY is carried out exactly when the destination exists and is not locked, and the source can be read. It replaces
  // the content and nothing else: neither undo file nor checkpoints, in whatever state they are.
  lemma CopyReplaces(s: State, e: Event)
    requires e.Copy?
    ensures Succeeds(s, e) <==> e.dest in s.files && !LockedBySome(s, e.dest) && CanRead(s, e.source)
    ensures Succeeds(s, e) ==>
              var data := match e.source case Local(g) => s.files[g].content case Remote(t) => t.data;
              Step(s, e) == s.(files := s.files[e.dest := s.files[e.dest].(content := data)])
    ensures e.source.Local? ==>
              (StepReply(s, e).1 == Error(SentenceLocked) <==>
                e.dest in s.files && e.source.file in s.files
                && (LockedBySome(s, e.dest) || LockedBySome(s, e.source.file)))
  {
    WritersHold(s, e.dest);
    if e.source.Local? {
      WritersHold(s, e.source.file);
    }
  }

  // What a failed transfer is reported as: not found and denied are passed on, all else is an internal error.
  lemma CopyReports(s: State, dest: FileId, t: Transfer)
    requires dest in s.files && !LockedBySome(s, dest) && !t.Bytes?
    ensures StepReply(s, Copy(dest, Remote(t))).1
         == Error(if t == Rejected(FileNotFound) || t == Rejected(PermissionDenied) then t.code else Internal)
  {
    WritersHold(s, dest);
  }

  // CREATE is carried out exactly for a new file, which is empty and has neither undo file nor checkpoints.
  lemma CreateEnters(s: State, f: FileId)
    ensures Succeeds(s, Create(f)) <==> f !in s.files
    ensures Succeeds(s, Create(f)) ==>
              && Step(s, Create(f)).sessions == s.sessions && Step(s, Create(f)).snapshots == s.snapshots
              && f in Step(s, Create(f)).files
              && var r := Step(s, Create(f)).files[f];
                 r.content == "" && !r.undoAvailable && r.undo.None? && r.checkpoints == []
  {}

  // DELETE is carried out exactly for a file that exists and is not locked. The file goes, and of the snapshot files
  // exactly those that it lists.
  lemma DeleteRemoves(s: State, f: FileId)
    ensures var s' := Step(s, Delete(f));
            && (Succeeds(s, Delete(f)) <==> f in s.files && !LockedBySome(s, f))
            && (Succeeds(s, Delete(f)) ==>
                  && f !in s'.files && s'.sessions == s.sessions
                  && forall p :: if exists i :: IsEntry(s, f, i) && PathAt(s, f, i) == p then p !in s'.snapshots
                                 else (p in s'.snapshots <==> p in s.snapshots)
                                      && (p in s.snapshots ==> s'.snapshots[p] == s.snapshots[p]))
  {
    WritersHold(s, f);
    if f in s.files {
      forall p
        ensures p in PathsOf(s.files[f].checkpoints) <==> exists i :: IsEntry(s, f, i) && PathAt(s, f, i) == p
      {
        if p in PathsOf(s.files[f].checkpoints) {
          var i :| 0 <= i < |s.files[f].checkpoints| && s.files[f].checkpoints[i].path == p;
          assert IsEntry(s, f, i) && PathAt(s, f, i) == p;
        }
      }
    }
  }
}
