/** Snapshot files over whole runs: what each one holds, and when a checkpoint is written over another's file. */
module Snapshots {
  import opened Wrappers
  import opened Engine
  import opened LockSafety
  import opened History
  import opened SnapshotNames

  // ---------- when snapshot files are distinct ----------

  // The event at position k is a checkpoint that is taken.
  ghost predicate TakenAt(es: seq<Event>, k: nat)
    requires k < |es|
  {
    es[k].TakeCheckpoint? && Succeeds(Run(EMPTY, es[..k]), es[k])
  }

  // The two requests are for one file name, in one second, with tags that look alike.
  predicate LookAlike(a: Event, b: Event)
    requires a.TakeCheckpoint? && b.TakeCheckpoint?
  {
    a.base == b.base && a.now == b.now && SanitizeTag(CleanTag(a.tag)) == SanitizeTag(CleanTag(b.tag))
  }

  // No two checkpoints of the run look alike.
  ghost predicate Spaced(es: seq<Event>) {
    forall j, k :: 0 <= j < k < |es| && TakenAt(es, j) && TakenAt(es, k) ==> !LookAlike(es[j], es[k])
  }

  // Every listed snapshot file was written by a checkpoint of the run.
  lemma {:induction false} ListedWasTaken(es: seq<Event>, f: FileId, i: int) returns (k: nat)
    requires IsEntry(Run(EMPTY, es), f, i)
    ensures k < |es| && TakenAt(es, k) && PathOf(es[k]) == PathAt(Run(EMPTY, es), f, i)
    decreases |es|
  {
    var init, e := es[..|es| - 1], es[|es| - 1];
    var s := Run(EMPTY, init);
    RunKeepsInv(EMPTY, init);
    EntriesStep(s, e, f, i);
    if IsNewEntry(s, e, f, i) {
      k := |es| - 1;
    } else {
      k := ListedWasTaken(init, f, OldPlace(s, e, f, i));
      assert es[..k] == init[..k];
    }
  }

  lemma SpacedIsFreshAt(es: seq<Event>, n: nat)
    requires Spaced(es) && n < |es|
    ensures FreshStep(Run(EMPTY, es[..n]), es[n])
  {
    var s := Run(EMPTY, es[..n]);
    if es[n].TakeCheckpoint? && Succeeds(s, es[n]) && PathListed(s, PathOf(es[n])) {
      var f, i :| IsEntry(s, f, i) && PathAt(s, f, i) == PathOf(es[n]);
      var k := ListedWasTaken(es[..n], f, i);
      assert es[..n][..k] == es[..k] && TakenAt(es, k) && TakenAt(es, n);
      PathsCollide(es[k].base, es[k].now, CleanTag(es[k].tag), es[n].base, es[n].now, CleanTag(es[n].tag));
    }
  }

  // Then no checkpoint is written over a listed one.
  lemma SpacedIsFresh(es: seq<Event>)
    requires Spaced(es)
    ensures FreshPaths(es)
  {
    forall n | 0 <= n < |es|
      ensures FreshStep(Run(EMPTY, es[..n]), es[n])
    {
      SpacedIsFreshAt(es, n);
    }
  }

  // REVERT restores the content of the checkpoint, whatever has happened since, in every run in which no two
  // checkpoints of one file name fall into one second with tags that look alike.
  lemma SpacedReverts(es: seq<Event>, f: FileId, tag: string, i: nat)
    requires Spaced(es) && IsEntry(Run(EMPTY, es), f, i) && !HasWriters(Run(EMPTY, es).sessions, f)
    requires CleanTag(tag) != "" && Run(EMPTY, es).files[f].checkpoints[i].tag == CleanTag(tag)
    ensures var s, e, ts := Run(EMPTY, es), Revert(f, tag, true), Latest(TakenOf(es, f), MAX_CHECKPOINTS);
            && Succeeds(s, e) && f in Step(s, e).files && i < |ts|
            && ts[i].tag == CleanTag(tag) && Step(s, e).files[f].content == ts[i].content
  {
    SpacedIsFresh(es);
    RevertRestores(es, f, tag, i);
  }

  // ---------- what a snapshot file holds ----------

  // The step deletes this snapshot file: a full list gives it up, or its file is deleted.
  ghost predicate Unlinks(s: State, e: Event, path: string) {
    && Succeeds(s, e) && (e.TakeCheckpoint? || e.Delete?) && e.file in s.files
    && var cs := s.files[e.file].checkpoints;
       if e.Delete? then path in PathsOf(cs) else |cs| >= MAX_CHECKPOINTS && cs[0].path == path
  }

  ghost predicate Writes(s: State, e: Event, path: string) {
    e.TakeCheckpoint? && Succeeds(s, e) && e.file in s.files && PathOf(e) == path
  }

  // The content last written to a path, if it has not been unlinked since.
  ghost function LastWritten(es: seq<Event>, path: string): Option<string>
    decreases |es|
  {
    if es == [] then None
    else
      var init, e := es[..|es| - 1], es[|es| - 1];
      var s := Run(EMPTY, init);
      if Unlinks(s, e, path) then None
      else if Writes(s, e, path) then Some(s.files[e.file].content)
      else LastWritten(init, path)
  }

  lemma SnapshotAfter(s: State, e: Event, path: string)
    ensures Unlinks(s, e, path) ==> path !in Step(s, e).snapshots
    ensures !Unlinks(s, e, path) && Writes(s, e, path) ==>
              path in Step(s, e).snapshots && Step(s, e).snapshots[path] == s.files[e.file].content
    ensures !Unlinks(s, e, path) && !Writes(s, e, path) ==>
              && (path in Step(s, e).snapshots <==> path in s.snapshots)
              && (path in s.snapshots ==> Step(s, e).snapshots[path] == s.snapshots[path])
  {
    SnapshotsStep(s, e);
  }

  lemma {:induction false} SnapshotIsLastWritten(es: seq<Event>, path: string)
    ensures var m := Run(EMPTY, es).snapshots;
            LastWritten(es, path) == if path in m then Some(m[path]) else None
    decreases |es|
  {
    if es != [] {
      SnapshotIsLastWritten(es[..|es| - 1], path);
      SnapshotAfter(Run(EMPTY, es[..|es| - 1]), es[|es| - 1], path);
    }
  }

  lemma RevertStepIs(s: State, f: FileId, tag: string, i: nat)
    requires IsEntry(s, f, i) && !HasWriters(s.sessions, f) && DistinctTags(s.files[f].checkpoints)
    requires CleanTag(tag) != "" && s.files[f].checkpoints[i].tag == CleanTag(tag)
    ensures Succeeds(s, Revert(f, tag, true)) <==> PathAt(s, f, i) in s.snapshots
  {}

  // The exact condition, in every run: REVERT to a listed tag restores the content of that checkpoint if and only
  // if the last thing written to its file, and not unlinked since, was that content.
  lemma RevertRestoresExactly(es: seq<Event>, f: FileId, tag: string, i: nat)
    requires IsEntry(Run(EMPTY, es), f, i) && !HasWriters(Run(EMPTY, es).sessions, f)
    requires CleanTag(tag) != "" && Run(EMPTY, es).files[f].checkpoints[i].tag == CleanTag(tag)
    ensures var s, e, ts := Run(EMPTY, es), Revert(f, tag, true), Latest(TakenOf(es, f), MAX_CHECKPOINTS);
            && i < |ts| && ts[i].tag == CleanTag(tag)
            && f in Step(s, e).files
            && (Succeeds(s, e) && Step(s, e).files[f].content == ts[i].content
                <==> LastWritten(es, PathAt(s, f, i)) == Some(ts[i].content))
  {
    var s := Run(EMPTY, es);
    CheckpointListIsLatest(es, f);
    SnapshotIsLastWritten(es, PathAt(s, f, i));
    RevertStepIs(s, f, tag, i);
    FilesStep(s, Revert(f, tag, true), f);
    if PathAt(s, f, i) in s.snapshots {
      RevertStepRestores(s, f, tag, i);
    }
  }
}
