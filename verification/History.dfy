/** What UNDO and REVERT bring back, over every run: the undo file and the checkpoint list related to the events
    that produced them. */
module History {
  import opened Wrappers
  import opened Text
  import opened Engine
  import opened LockSafety
  import Words
  import opened SnapshotNames

  // ---------- events that concern a file ----------

  // The event is a successful commit on the file.
  ghost predicate CommitsOn(s: State, e: Event, f: FileId) {
    && e.Etirw? && Succeeds(s, e)
    && var i := FindSession(s.sessions, e.fd); i.Some? && s.sessions[i.value].file == f
  }

  ghost predicate RevertsOn(s: State, e: Event, f: FileId) {
    e.Revert? && e.file == f && Succeeds(s, e)
  }

  ghost predicate UndoesOn(s: State, e: Event, f: FileId) {
    e.Undo? && e.file == f && Succeeds(s, e)
  }

  ghost predicate CopiesOn(s: State, e: Event, f: FileId) {
    e.Copy? && e.dest == f && Succeeds(s, e)
  }

  ghost predicate CreatesOrDeletes(s: State, e: Event, f: FileId) {
    ((e.Create? && e.file == f) || (e.Delete? && e.file == f)) && Succeeds(s, e)
  }

  ghost predicate CheckpointsOn(s: State, e: Event, f: FileId) {
    e.TakeCheckpoint? && e.file == f && Succeeds(s, e)
  }

  // ---------- undo ----------

  // The content of a file just before its latest commit or revert, unless that has been undone already.
  ghost function BeforeLatest(es: seq<Event>, f: FileId): Option<string>
    decreases |es|
  {
    if es == [] then None
    else
      var init, e := es[..|es| - 1], es[|es| - 1];
      var s := Run(EMPTY, init);
      if f in s.files && (CommitsOn(s, e, f) || RevertsOn(s, e, f)) then Some(s.files[f].content)
      else if UndoesOn(s, e, f) || CreatesOrDeletes(s, e, f) then None
      else BeforeLatest(init, f)
  }

  // A commit changes one file: content and undo, nothing else.
  lemma CommitFiles(s: State, e: Event)
    requires Inv(s) && e.Etirw? && FindSession(s.sessions, e.fd).Some?
    ensures var x := s.sessions[FindSession(s.sessions, e.fd).value];
            && Succeeds(s, e) && x.file in s.files && BoundsInside(x, s.files[x.file].content)
            && Step(s, e).files == s.files[x.file := CommitFile(s.files[x.file], x)]
            && Step(s, e).snapshots == s.snapshots
  {
    CommitKeepsInv(s, FindSession(s.sessions, e.fd).value);
  }

  // How one step changes the undo fields and the content of a file that exists before and after it.
  predicate UndoFields(a: FileState, b: FileState, changed: bool, undone: bool, copied: bool) {
    && (changed ==> b.undoAvailable && b.undo == Some(a.content))
    && (undone ==> !b.undoAvailable && a.undoAvailable && a.undo == Some(b.content))
    && (!changed && !undone ==> b.undoAvailable == a.undoAvailable && b.undo == a.undo)
    && (!changed && !undone && !copied ==> b.content == a.content)
  }

  // Commits aside, no handler changes more of a file than the request is about.
  lemma RecordsKept(s: State, e: Event, f: FileId)
    requires !e.Etirw? && f in s.files && f in Step(s, e).files
    ensures !RevertsOn(s, e, f) && !UndoesOn(s, e, f) && !CopiesOn(s, e, f) && !CheckpointsOn(s, e, f) ==>
              Step(s, e).files[f] == s.files[f]
  {}

  lemma UndoFieldsOfRequest(s: State, e: Event, f: FileId)
    requires f in s.files && f in Step(s, e).files
    requires RevertsOn(s, e, f) || UndoesOn(s, e, f) || CopiesOn(s, e, f) || CheckpointsOn(s, e, f)
    ensures UndoFields(s.files[f], Step(s, e).files[f], RevertsOn(s, e, f), UndoesOn(s, e, f), CopiesOn(s, e, f))
  {}

  lemma UndoFieldsStep(s: State, e: Event, f: FileId)
    requires Inv(s) && f in s.files && f in Step(s, e).files
    ensures UndoFields(s.files[f], Step(s, e).files[f],
                       CommitsOn(s, e, f) || RevertsOn(s, e, f), UndoesOn(s, e, f), CopiesOn(s, e, f))
  {
    if e.Etirw? {
      if FindSession(s.sessions, e.fd).Some? {
        CommitFiles(s, e);
      }
    } else if RevertsOn(s, e, f) || UndoesOn(s, e, f) || CopiesOn(s, e, f) || CheckpointsOn(s, e, f) {
      UndoFieldsOfRequest(s, e, f);
    } else {
      RecordsKept(s, e, f);
    }
  }

  lemma FilesStep(s: State, e: Event, f: FileId)
    ensures f !in s.files ==> (f in Step(s, e).files <==> e.Create? && e.file == f)
    ensures f !in s.files && f in Step(s, e).files ==> Step(s, e).files[f] == FileState("", None, false, [])
    ensures f in s.files ==> (f !in Step(s, e).files <==> e.Delete? && e.file == f && Succeeds(s, e))
  {}

  // The undo file of a file is the content just before its latest commit or revert.
  lemma {:induction false} UndoFileIsBeforeLatest(es: seq<Event>, f: FileId)
    requires f in Run(EMPTY, es).files
    ensures var r := Run(EMPTY, es).files[f];
            && (r.undoAvailable <==> BeforeLatest(es, f).Some?)
            && (r.undoAvailable ==> r.undo == BeforeLatest(es, f))
    decreases |es|
  {
    if es != [] {
      var init, e := es[..|es| - 1], es[|es| - 1];
      var s := Run(EMPTY, init);
      RunKeepsInv(EMPTY, init);
      FilesStep(s, e, f);
      if f in s.files {
        UndoFileIsBeforeLatest(init, f);
        UndoFieldsStep(s, e, f);
      }
    }
  }

  // UNDO succeeds exactly when there is such a change to take back and nobody holds a sentence; it restores the
  // content before the change, and a second UNDO is refused.
  lemma UndoRestores(es: seq<Event>, f: FileId)
    requires f in Run(EMPTY, es).files
    ensures var s := Run(EMPTY, es);
            Succeeds(s, Undo(f, true)) <==> !HasWriters(s.sessions, f) && BeforeLatest(es, f).Some?
    ensures var s := Run(EMPTY, es);
            Succeeds(s, Undo(f, true)) ==>
              && f in Step(s, Undo(f, true)).files
              && BeforeLatest(es, f) == Some(Step(s, Undo(f, true)).files[f].content)
              && StepReply(Step(s, Undo(f, true)), Undo(f, true)).1 == Error(NoUndoHistory)
  {
    UndoFileIsBeforeLatest(es, f);
  }

  // Nothing here commits to, reverts, undoes, creates or deletes the file.
  ghost predicate LeavesUndoAlone(s: State, es: seq<Event>, f: FileId) {
    forall i :: 0 <= i < |es| ==>
      var t := Run(s, es[..i]);
      && !CommitsOn(t, es[i], f) && !RevertsOn(t, es[i], f) && !UndoesOn(t, es[i], f)
      && !CreatesOrDeletes(t, es[i], f)
  }

  lemma {:induction false} UndoFieldsRun(s: State, es: seq<Event>, f: FileId)
    requires Inv(s) && f in s.files && LeavesUndoAlone(s, es, f)
    ensures f in Run(s, es).files
    ensures Run(s, es).files[f].undoAvailable == s.files[f].undoAvailable && Run(s, es).files[f].undo == s.files[f].undo
    decreases |es|
  {
    if es != [] {
      var init := es[..|es| - 1];
      assert forall i :: 0 <= i < |init| ==> es[..i] == init[..i];
      UndoFieldsRun(s, init, f);
      RunKeepsInv(s, init);
      FilesStep(Run(s, init), es[|es| - 1], f);
      UndoFieldsStep(Run(s, init), es[|es| - 1], f);
    }
  }

  lemma UndoIs(s: State, f: FileId)
    requires f in s.files && Succeeds(s, Undo(f, true))
    ensures f in Step(s, Undo(f, true)).files
    ensures s.files[f].undo == Some(Step(s, Undo(f, true)).files[f].content)
  {}

  // A commit (or revert) and a later UNDO cancel out, whatever else happens in between; even copies onto the file
  // are lost with it.
  lemma ChangeThenUndo(s: State, change: Event, es: seq<Event>, f: FileId)
    requires Inv(s) && f in s.files && (CommitsOn(s, change, f) || RevertsOn(s, change, f))
    requires LeavesUndoAlone(Step(s, change), es, f)
    requires Succeeds(Run(Step(s, change), es), Undo(f, true))
    ensures f in Step(Run(Step(s, change), es), Undo(f, true)).files
    ensures Step(Run(Step(s, change), es), Undo(f, true)).files[f].content == s.files[f].content
  {
    FilesStep(s, change, f);
    UndoFieldsStep(s, change, f);
    StepKeepsInv(s, change);
    UndoFieldsRun(Step(s, change), es, f);
    UndoIs(Run(Step(s, change), es), f);
  }

  // UNDO is meant to take back the latest modification. Right after a modification that holds for commits and
  // reverts; after a COPY it holds only if the older undo file, or else the copied text, equals the lost content.
  lemma UndoTakesBackLatest(s: State, m: Event, f: FileId)
    requires Inv(s) && f in s.files && (CommitsOn(s, m, f) || RevertsOn(s, m, f) || CopiesOn(s, m, f))
    requires !HasWriters(Step(s, m).sessions, f)
    ensures f in Step(Step(s, m), Undo(f, true)).files
    ensures Step(Step(s, m), Undo(f, true)).files[f].content == s.files[f].content <==>
      (m.Copy? ==>
        var r := s.files[f];
        if r.undoAvailable && r.undo.Some? then r.undo.value == r.content
        else m.source == Remote(Bytes(r.content)) || (m.source.Local? && s.files[m.source.file].content == r.content))
  {
    FilesStep(s, m, f);
    FilesStep(Step(s, m), Undo(f, true), f);
    UndoFieldsStep(s, m, f);
  }

  // A file whose only modification is a COPY has nothing to undo.
  lemma CopyIsNotUndone(f: FileId)
    ensures var s := Run(EMPTY, [Create(f), Copy(f, Remote(Bytes("new")))]);
            f in s.files && s.files[f].content == "new" && StepReply(s, Undo(f, true)) == (s, Error(NoUndoHistory))
  {
    var es := [Create(f), Copy(f, Remote(Bytes("new")))];
    assert es[..1] == [Create(f)] && es[..1][..0] == [];
    assert Run(EMPTY, es[..1][..0]) == EMPTY;
    assert Run(EMPTY, es[..1]) == Step(EMPTY, Create(f));
    assert Run(EMPTY, es) == Step(Step(EMPTY, Create(f)), es[1]);
  }

  // ---------- checkpoints ----------

  datatype Taken = Taken(tag: string, path: string, content: string)

  // The checkpoints taken of a file since it was created, oldest first, with the content each one saw.
  ghost function TakenOf(es: seq<Event>, f: FileId): seq<Taken>
    decreases |es|
  {
    if es == [] then []
    else
      var init, e := es[..|es| - 1], es[|es| - 1];
      var s := Run(EMPTY, init);
      if f in s.files && CheckpointsOn(s, e, f) then
        TakenOf(init, f) + [Taken(CleanTag(e.tag), PathOf(e), s.files[f].content)]
      else if CreatesOrDeletes(s, e, f) then []
      else TakenOf(init, f)
  }

  function Latest<T>(xs: seq<T>, n: nat): (r: seq<T>)
    ensures |r| == if |xs| <= n then |xs| else n
  {
    if |xs| <= n then xs else xs[|xs| - n..]
  }

  function Entries(ts: seq<Taken>): (r: seq<Checkpoint>)
    ensures |r| == |ts| && forall i :: 0 <= i < |ts| ==> r[i] == Checkpoint(ts[i].tag, ts[i].path)
  {
    seq(|ts|, i requires 0 <= i < |ts| => Checkpoint(ts[i].tag, ts[i].path))
  }

  predicate DistinctTags(cs: seq<Checkpoint>) {
    forall i, j :: 0 <= i < j < |cs| ==> cs[i].tag != cs[j].tag
  }

  lemma CheckpointsOfRequest(s: State, e: Event, f: FileId)
    requires f in s.files && f in Step(s, e).files
    requires RevertsOn(s, e, f) || UndoesOn(s, e, f) || CopiesOn(s, e, f)
    ensures Step(s, e).files[f].checkpoints == s.files[f].checkpoints
  {}

  lemma CheckpointsStep(s: State, e: Event, f: FileId)
    requires Inv(s) && f in s.files && f in Step(s, e).files
    ensures !CheckpointsOn(s, e, f) ==> Step(s, e).files[f].checkpoints == s.files[f].checkpoints
    ensures CheckpointsOn(s, e, f) ==>
              && Step(s, e).files[f].checkpoints
                 == PushCheckpoint(s.files[f].checkpoints, Checkpoint(CleanTag(e.tag), PathOf(e)))
              && FindCheckpoint(s.files[f].checkpoints, CleanTag(e.tag)).None?
  {
    if e.Etirw? {
      if FindSession(s.sessions, e.fd).Some? {
        CommitFiles(s, e);
      }
    } else if RevertsOn(s, e, f) || UndoesOn(s, e, f) || CopiesOn(s, e, f) {
      CheckpointsOfRequest(s, e, f);
    } else if !CheckpointsOn(s, e, f) {
      RecordsKept(s, e, f);
    }
  }

  lemma PushIsLatest(ts: seq<Taken>, t: Taken)
    ensures PushCheckpoint(Entries(Latest(ts, MAX_CHECKPOINTS)), Checkpoint(t.tag, t.path))
         == Entries(Latest(ts + [t], MAX_CHECKPOINTS))
  {}

  // What one step makes of the list, when the list is as stated before it.
  lemma ListStep(ts: seq<Taken>, s: State, e: Event, f: FileId)
    requires Inv(s) && f in s.files && f in Step(s, e).files
    requires s.files[f].checkpoints == Entries(Latest(ts, MAX_CHECKPOINTS)) && DistinctTags(s.files[f].checkpoints)
    ensures var cs := Step(s, e).files[f].checkpoints;
            DistinctTags(cs) && cs == Entries(Latest(TakenBy(ts, s, e, f), MAX_CHECKPOINTS))
  {
    CheckpointsStep(s, e, f);
    if CheckpointsOn(s, e, f) {
      PushIsLatest(ts, Taken(CleanTag(e.tag), PathOf(e), s.files[f].content));
      PushKeepsTags(s.files[f].checkpoints, Checkpoint(CleanTag(e.tag), PathOf(e)));
    }
  }

  ghost function TakenBy(ts: seq<Taken>, s: State, e: Event, f: FileId): seq<Taken>
    requires f in s.files
  {
    if CheckpointsOn(s, e, f) then ts + [Taken(CleanTag(e.tag), PathOf(e), s.files[f].content)] else ts
  }

  lemma PushKeepsTags(cs: seq<Checkpoint>, c: Checkpoint)
    requires DistinctTags(cs) && FindCheckpoint(cs, c.tag).None?
    ensures DistinctTags(PushCheckpoint(cs, c))
  {}

  lemma TakenStep(es: seq<Event>, f: FileId)
    requires es != []
    ensures var init, e := es[..|es| - 1], es[|es| - 1];
            var s := Run(EMPTY, init);
            && (f in s.files && f in Step(s, e).files ==> TakenOf(es, f) == TakenBy(TakenOf(init, f), s, e, f))
            && (f !in s.files && f in Step(s, e).files ==> TakenOf(es, f) == [])
  {
    var s, e := Run(EMPTY, es[..|es| - 1]), es[|es| - 1];
    FilesStep(s, e, f);
    if f in s.files && f in Step(s, e).files {
      assert !CreatesOrDeletes(s, e, f);
    } else if f in Step(s, e).files {
      assert CreatesOrDeletes(s, e, f);
    }
  }

  // The list is always the latest 32 checkpoints (fewer if fewer were taken), in order, with distinct tags.
  lemma {:induction false} CheckpointListIsLatest(es: seq<Event>, f: FileId)
    requires f in Run(EMPTY, es).files
    ensures var cs := Run(EMPTY, es).files[f].checkpoints;
            cs == Entries(Latest(TakenOf(es, f), MAX_CHECKPOINTS)) && |cs| <= MAX_CHECKPOINTS && DistinctTags(cs)
    decreases |es|
  {
    if es != [] {
      var init, e := es[..|es| - 1], es[|es| - 1];
      RunKeepsInv(EMPTY, init);
      TakenStep(es, f);
      if f in Run(EMPTY, init).files {
        CheckpointListIsLatest(init, f);
        ListStep(TakenOf(init, f), Run(EMPTY, init), e, f);
      } else {
        FilesStep(Run(EMPTY, init), e, f);
      }
    }
  }

  // ---------- what a checkpoint restores ----------

  predicate IsEntry(s: State, f: FileId, i: int) {
    f in s.files && 0 <= i < |s.files[f].checkpoints|
  }

  function PathAt(s: State, f: FileId, i: int): string
    requires IsEntry(s, f, i)
  {
    s.files[f].checkpoints[i].path
  }

  ghost predicate PathListed(s: State, path: string) {
    exists f, i :: IsEntry(s, f, i) && PathAt(s, f, i) == path
  }

  // Listed snapshot files are distinct, across all files of the server.
  ghost predicate PathsDistinct(s: State) {
    forall f, i, g, j :: IsEntry(s, f, i) && IsEntry(s, g, j) && (f != g || i != j) ==>
      PathAt(s, f, i) != PathAt(s, g, j)
  }

  // The checkpoint is not written over the snapshot file of a listed one.
  ghost predicate FreshStep(s: State, e: Event) {
    e.TakeCheckpoint? && Succeeds(s, e) ==> !PathListed(s, PathOf(e))
  }

  ghost predicate FreshPaths(es: seq<Event>) {
    forall i :: 0 <= i < |es| ==> FreshStep(Run(EMPTY, es[..i]), es[i])
  }

  // The position that entry i of file f had before the step: a full list has lost its oldest entry.
  ghost function OldPlace(s: State, e: Event, f: FileId, i: int): int
    requires f in s.files
  {
    if CheckpointsOn(s, e, f) && |s.files[f].checkpoints| >= MAX_CHECKPOINTS then i + 1 else i
  }

  // The entry that this step has just appended.
  ghost predicate IsNewEntry(s: State, e: Event, f: FileId, i: int)
    requires f in s.files
  {
    CheckpointsOn(s, e, f) && OldPlace(s, e, f, i) == |s.files[f].checkpoints|
  }

  lemma EntriesStep(s: State, e: Event, f: FileId, i: int)
    requires Inv(s) && IsEntry(Step(s, e), f, i)
    ensures f in s.files
    ensures IsNewEntry(s, e, f, i) ==> PathAt(Step(s, e), f, i) == PathOf(e)
    ensures !IsNewEntry(s, e, f, i) ==>
              IsEntry(s, f, OldPlace(s, e, f, i)) && PathAt(Step(s, e), f, i) == PathAt(s, f, OldPlace(s, e, f, i))
  {
    FilesStep(s, e, f);
    CheckpointsStep(s, e, f);
  }

  lemma PathsStayDistinct(s: State, e: Event)
    requires Inv(s) && PathsDistinct(s) && FreshStep(s, e)
    ensures PathsDistinct(Step(s, e))
  {
    var s' := Step(s, e);
    forall f, i, g, j | IsEntry(s', f, i) && IsEntry(s', g, j) && (f != g || i != j)
      ensures PathAt(s', f, i) != PathAt(s', g, j)
    {
      EntriesStep(s, e, f, i);
      EntriesStep(s, e, g, j);
    }
  }

  lemma SnapshotsStep(s: State, e: Event)
    ensures Step(s, e).snapshots == s.snapshots
      || (e.TakeCheckpoint? && e.file in s.files && CheckpointsOn(s, e, e.file))
      || (e.Delete? && e.file in s.files && e.file !in Step(s, e).files
          && Step(s, e).snapshots == s.snapshots - PathsOf(s.files[e.file].checkpoints))
  {}

  // A listed snapshot keeps its content through a step that is not written over it.
  lemma SnapshotKept(s: State, e: Event, f: FileId, i: int)
    requires Inv(s) && PathsDistinct(s) && FreshStep(s, e)
    requires IsEntry(Step(s, e), f, i) && f in s.files && !IsNewEntry(s, e, f, i)
    requires PathAt(Step(s, e), f, i) in s.snapshots
    ensures PathAt(Step(s, e), f, i) in Step(s, e).snapshots
    ensures Step(s, e).snapshots[PathAt(Step(s, e), f, i)] == s.snapshots[PathAt(Step(s, e), f, i)]
  {
    var i0 := OldPlace(s, e, f, i);
    EntriesStep(s, e, f, i);
    SnapshotsStep(s, e);
    if e.TakeCheckpoint? && e.file in s.files && CheckpointsOn(s, e, e.file) {
      assert PathAt(s, f, i0) != PathOf(e);
      if |s.files[e.file].checkpoints| >= MAX_CHECKPOINTS {
        assert IsEntry(s, e.file, 0);
        assert PathAt(s, f, i0) != PathAt(s, e.file, 0);
      }
    } else if e.Delete? && e.file in s.files && e.file !in Step(s, e).files {
      forall k | 0 <= k < |s.files[e.file].checkpoints|
        ensures s.files[e.file].checkpoints[k].path != PathAt(s, f, i0)
      {
        assert IsEntry(s, e.file, k) && PathAt(s, e.file, k) != PathAt(s, f, i0);
      }
    }
  }

  // The snapshot of entry i holds what the file held when that checkpoint was taken.
  ghost predicate Remembers(s: State, es: seq<Event>, f: FileId, i: int) {
    var ts := Latest(TakenOf(es, f), MAX_CHECKPOINTS);
    IsEntry(s, f, i) && i < |ts| && PathAt(s, f, i) in s.snapshots && s.snapshots[PathAt(s, f, i)] == ts[i].content
  }

  lemma LatestSnoc<T>(xs: seq<T>, x: T, n: nat, i: nat)
    requires n > 0 && i < |Latest(xs + [x], n)|
    ensures var j := if |xs| >= n then i + 1 else i;
            Latest(xs + [x], n)[i] == if j < |Latest(xs, n)| then Latest(xs, n)[j] else x
  {}

  lemma NewSnapshot(s: State, e: Event, f: FileId)
    requires f in s.files && CheckpointsOn(s, e, f) && FreshStep(s, e)
    ensures PathOf(e) in Step(s, e).snapshots && Step(s, e).snapshots[PathOf(e)] == s.files[f].content
  {
    if |s.files[f].checkpoints| >= MAX_CHECKPOINTS {
      assert IsEntry(s, f, 0) && PathAt(s, f, 0) != PathOf(e);
    }
  }

  lemma TakenSnoc(init: seq<Event>, e: Event, f: FileId)
    requires var s := Run(EMPTY, init); f in s.files && CheckpointsOn(s, e, f)
    ensures TakenOf(init + [e], f)
         == TakenOf(init, f) + [Taken(CleanTag(e.tag), PathOf(e), Run(EMPTY, init).files[f].content)]
  {
    assert (init + [e])[..|init|] == init;
  }

  lemma NewEntryRemembers(init: seq<Event>, e: Event, f: FileId, i: int)
    requires var s := Run(EMPTY, init); Inv(s) && IsEntry(Step(s, e), f, i) && f in s.files && IsNewEntry(s, e, f, i)
    requires FreshStep(Run(EMPTY, init), e)
    ensures Remembers(Run(EMPTY, init + [e]), init + [e], f, i)
  {
    var s, es := Run(EMPTY, init), init + [e];
    assert es[..|es| - 1] == init;
    CheckpointListIsLatest(init, f);
    EntriesStep(s, e, f, i);
    NewSnapshot(s, e, f);
    TakenSnoc(init, e, f);
    LatestSnoc(TakenOf(init, f), Taken(CleanTag(e.tag), PathOf(e), s.files[f].content), MAX_CHECKPOINTS, i);
  }

  lemma OldEntryRemembers(init: seq<Event>, e: Event, f: FileId, i: int)
    requires var s := Run(EMPTY, init);
      && Inv(s) && PathsDistinct(s) && IsEntry(Step(s, e), f, i) && f in s.files && !IsNewEntry(s, e, f, i)
      && Remembers(s, init, f, OldPlace(s, e, f, i))
    requires FreshStep(Run(EMPTY, init), e)
    ensures Remembers(Run(EMPTY, init + [e]), init + [e], f, i)
  {
    var s, es := Run(EMPTY, init), init + [e];
    assert es[..|es| - 1] == init;
    EntriesStep(s, e, f, i);
    SnapshotKept(s, e, f, i);
    CheckpointListIsLatest(init, f);
    CheckpointListIsLatest(es, f);
    FilesStep(s, e, f);
    CheckpointsStep(s, e, f);
    if CheckpointsOn(s, e, f) {
      LatestSnoc(TakenOf(init, f), Taken(CleanTag(e.tag), PathOf(e), s.files[f].content), MAX_CHECKPOINTS, i);
    }
  }

  // As long as no checkpoint is written over another's file, every listed checkpoint remembers its content.
  lemma {:induction false} CheckpointsRemember(es: seq<Event>)
    requires FreshPaths(es)
    ensures PathsDistinct(Run(EMPTY, es))
    ensures forall f, i :: IsEntry(Run(EMPTY, es), f, i) ==> Remembers(Run(EMPTY, es), es, f, i)
    decreases |es|
  {
    if es != [] {
      var init, e := es[..|es| - 1], es[|es| - 1];
      var s := Run(EMPTY, init);
      assert es == init + [e];
      forall i | 0 <= i < |init|
        ensures FreshStep(Run(EMPTY, init[..i]), init[i])
      {
        assert init[..i] == es[..i] && init[i] == es[i];
      }
      CheckpointsRemember(init);
      RunKeepsInv(EMPTY, init);
      assert FreshStep(s, e);
      PathsStayDistinct(s, e);
      forall f, i | IsEntry(Step(s, e), f, i)
        ensures Remembers(Run(EMPTY, es), es, f, i)
      {
        EntriesStep(s, e, f, i);
        if IsNewEntry(s, e, f, i) {
          NewEntryRemembers(init, e, f, i);
        } else {
          OldEntryRemembers(init, e, f, i);
        }
      }
    }
  }

  lemma RevertStepRestores(s: State, f: FileId, tag: string, i: nat)
    requires IsEntry(s, f, i) && !HasWriters(s.sessions, f) && DistinctTags(s.files[f].checkpoints)
    requires CleanTag(tag) != "" && s.files[f].checkpoints[i].tag == CleanTag(tag)
    requires PathAt(s, f, i) in s.snapshots
    ensures var e := Revert(f, tag, true);
            Succeeds(s, e) && f in Step(s, e).files && Step(s, e).files[f].content == s.snapshots[PathAt(s, f, i)]
  {}

  // REVERT to a listed tag restores the content at the time of the checkpoint, whatever has happened since.
  lemma RevertRestores(es: seq<Event>, f: FileId, tag: string, i: nat)
    requires FreshPaths(es) && IsEntry(Run(EMPTY, es), f, i) && !HasWriters(Run(EMPTY, es).sessions, f)
    requires CleanTag(tag) != "" && Run(EMPTY, es).files[f].checkpoints[i].tag == CleanTag(tag)
    ensures var s, e, ts := Run(EMPTY, es), Revert(f, tag, true), Latest(TakenOf(es, f), MAX_CHECKPOINTS);
            && Succeeds(s, e) && f in Step(s, e).files && i < |ts|
            && ts[i].tag == CleanTag(tag) && Step(s, e).files[f].content == ts[i].content
  {
    CheckpointsRemember(es);
    CheckpointListIsLatest(es, f);
    assert Remembers(Run(EMPTY, es), es, f, i);
    RevertStepRestores(Run(EMPTY, es), f, tag, i);
  }

  // Without that condition: exactly when a listed snapshot survives a further checkpoint. It is lost if the new
  // checkpoint writes other content to the same path, or if making room unlinks that path.
  lemma SnapshotSurvives(s: State, e: Event, g: FileId, i: nat)
    requires e.TakeCheckpoint? && Succeeds(s, e) && e.file in s.files
    requires IsEntry(s, g, i) && PathAt(s, g, i) in s.snapshots
    ensures var p, cs, m := PathAt(s, g, i), s.files[e.file].checkpoints, Step(s, e).snapshots;
            (p in m && m[p] == s.snapshots[p]) <==>
              && (p == PathOf(e) ==> s.files[e.file].content == s.snapshots[p])
              && (|cs| >= MAX_CHECKPOINTS ==> cs[0].path != p)
  {}

  // ---------- a collision ----------

  function OneFile(content: string, cs: seq<Checkpoint>, m: map<string, string>): State {
    State(map[0 := FileState(content, None, false, cs)], [], m)
  }

  lemma FirstTag(base: string, now: int)
    requires |SnapshotPath(base, now, "a b")| < MAX_PATH_LENGTH
    ensures var p := SnapshotPath(base, now, "a b");
            Step(Step(EMPTY, Create(0)), TakeCheckpoint(0, "a b", base, now, true))
            == OneFile("", [Checkpoint("a b", p)], map[p := ""])
  {
    var s1, p := OneFile("", [], map[]), SnapshotPath(base, now, "a b");
    ShortTag("a b");
    CheckpointAdds(s1, TakeCheckpoint(0, "a b", base, now, true));
    assert s1.files[0].checkpoints + [Checkpoint("a b", p)] == [Checkpoint("a b", p)];
    assert s1.files[0 := FileState("", None, false, [Checkpoint("a b", p)])]
        == map[0 := FileState("", None, false, [Checkpoint("a b", p)])];
  }

  lemma SecondTag(base: string, now: int)
    requires |SnapshotPath(base, now, "a-b")| < MAX_PATH_LENGTH
    ensures var p := SnapshotPath(base, now, "a-b");
            Step(OneFile("new", [Checkpoint("a b", p)], map[p := ""]), TakeCheckpoint(0, "a-b", base, now, true))
            == OneFile("new", [Checkpoint("a b", p), Checkpoint("a-b", p)], map[p := "new"])
  {
    var p := SnapshotPath(base, now, "a-b");
    var s, cs := OneFile("new", [Checkpoint("a b", p)], map[p := ""]), [Checkpoint("a b", p), Checkpoint("a-b", p)];
    ShortTag("a-b");
    assert FindCheckpoint(s.files[0].checkpoints[1..], "a-b").None?;
    CheckpointAdds(s, TakeCheckpoint(0, "a-b", base, now, true));
    assert s.files[0].checkpoints + [Checkpoint("a-b", p)] == cs;
  }

  // The tags "a b" and "a-b", taken within one second: REVERT to the first brings back what the second one saw.
  lemma RevertAfterCollision(base: string, now: int)
    requires |SnapshotPath(base, now, "a b")| < MAX_PATH_LENGTH
    ensures var p, q := SnapshotPath(base, now, "a b"), SnapshotPath(base, now, "a-b");
            var s := Run(EMPTY, [Create(0), TakeCheckpoint(0, "a b", base, now, true),
                                 Copy(0, Remote(Bytes("new"))), TakeCheckpoint(0, "a-b", base, now, true)]);
            && 0 in s.files && s.files[0].checkpoints == [Checkpoint("a b", p), Checkpoint("a-b", q)]
            && Succeeds(s, Revert(0, "a b", true)) && 0 in Step(s, Revert(0, "a b", true)).files
            && Step(s, Revert(0, "a b", true)).files[0].content == "new"
  {
    var p := SnapshotPath(base, now, "a b");
    LookAlikes();
    PathsCollide(base, now, "a b", base, now, "a-b");
    var e0, e1 := Create(0), TakeCheckpoint(0, "a b", base, now, true);
    var e2, e3 := Copy(0, Remote(Bytes("new"))), TakeCheckpoint(0, "a-b", base, now, true);
    assert [] + [e0] == [e0] && [e0] + [e1] == [e0, e1];
    assert [e0, e1] + [e2] == [e0, e1, e2] && [e0, e1, e2] + [e3] == [e0, e1, e2, e3];
    RunSnoc([], e0);
    RunSnoc([e0], e1);
    RunSnoc([e0, e1], e2);
    RunSnoc([e0, e1, e2], e3);
    FirstTag(base, now);
    CopyIn(p);
    SecondTag(base, now);
    var s := OneFile("new", [Checkpoint("a b", p), Checkpoint("a-b", p)], map[p := "new"]);
    assert Run(EMPTY, [e0, e1, e2, e3]) == s;
    assert IsEntry(s, 0, 0);
    ShortTag("a b");
    RevertStepRestores(s, 0, "a b", 0);
  }

  lemma CopyIn(p: string)
    ensures Step(OneFile("", [Checkpoint("a b", p)], map[p := ""]), Copy(0, Remote(Bytes("new"))))
         == OneFile("new", [Checkpoint("a b", p)], map[p := ""])
  {
    var s := OneFile("", [Checkpoint("a b", p)], map[p := ""]);
    assert s.files[0 := FileState("new", None, false, [Checkpoint("a b", p)])]
        == map[0 := FileState("new", None, false, [Checkpoint("a b", p)])];
  }

  lemma ShortTag(tag: string)
    requires |tag| == 3 && !IsSpace(tag[0]) && !IsSpace(tag[2])
    ensures CleanTag(tag) == tag
  {}

  lemma CheckpointAdds(s: State, e: Event)
    requires e.TakeCheckpoint? && e.allowed && CleanTag(e.tag) == e.tag != "" && e.file in s.files && s.sessions == []
    requires |s.files[e.file].checkpoints| < MAX_CHECKPOINTS && FindCheckpoint(s.files[e.file].checkpoints, e.tag).None?
    requires |PathOf(e)| < MAX_PATH_LENGTH
    ensures var f := s.files[e.file];
            Step(s, e) == s.(
              files := s.files[e.file := f.(checkpoints := f.checkpoints + [Checkpoint(e.tag, PathOf(e))])],
              snapshots := s.snapshots[PathOf(e) := f.content])
  {}

  lemma RunSnoc(es: seq<Event>, e: Event)
    ensures Run(EMPTY, es + [e]) == Step(Run(EMPTY, es), e)
  {
    assert (es + [e])[..|es|] == es;
  }
}
