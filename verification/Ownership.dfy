/** Whose records the table of the name server holds, over every run: each was entered by its owner, and nobody else
    moves it or takes it away. */
module Ownership {
  import opened Wrappers
  import opened Namespace
  import opened Directory
  import opened Catalogue

  // ---------- where a record comes from ----------

  // What a record keeps for as long as it is in the table.
  predicate SameOrigin(m: Meta, m': Meta) {
    && m'.owner == m.owner && m'.created == m.created && m'.isDirectory == m.isDirectory
    && m'.ip == m.ip && m'.port == m.port
  }

  // The record was entered by this request.
  predicate EnteredBy(m: Meta, s: State, e: Event)
    requires Honest(s, e)
  {
    match e
    case Create(name, user, chosen, storage, now) =>
      && CreateStep(s, name, user, chosen, storage, now).0.Done?
      && !m.isDirectory && m.owner == user && m.created == now
      && m.ip == s.servers[chosen.value].ip && m.port == s.servers[chosen.value].port
    case CreateFolder(path, user, now) =>
      && FolderStep(s, path, user, now).0.Done?
      && m.isDirectory && m.owner == user && m.created == now && m.ip == "" && m.port == 0
    case _ => false
  }

  // Every record of the table was there before the step, or the step has entered it.
  lemma StepOrigin(s: State, e: Event, m': Meta) returns (m: Meta)
    requires Good(s) && Honest(s, e) && m' in Step(s, e).files
    ensures EnteredBy(m', s, e) || (m in s.files && SameOrigin(m, m'))
  {
    m := m';
    match e
    case Create(name, user, chosen, storage, now) =>
      CreateCorrect(s, name, user, chosen, storage, now);
    case CreateFolder(path, user, now) =>
      FolderCorrect(s, path, user, now);
    case Move(src, dest, user, storage, now) =>
      m := MoveOrigin(s, e, m');
    case Delete(target, user, storage, order) =>
      DeleteGranted(s, target, user);
      DeleteOutcome(s, target, user, storage, order);
    case WriteComplete(k, name, size, words, chars, now) =>
      CompleteCorrect(s, k, name, size, words, chars, now);
      var i :| 0 <= i < |s.files| && Step(s, e).files[i] == m';
      m := s.files[i];
    case _ =>
  }

  lemma MoveOrigin(s: State, e: Event, m': Meta) returns (m: Meta)
    requires Good(s) && e.Move? && m' in Step(s, e).files
    ensures m in s.files && SameOrigin(m, m')
  {
    m := m';
    var v := MoveVerdict(s.files, s.servers, e.src, e.dest, e.user);
    if v.Granted? && e.storage.None? {
      var r, whole := Step(s, e).files, s.files[Find(s.files, e.src).value].isDirectory;
      MovedRecords(s.files, e.src, whole, v.value, e.user, e.now);
      m := MovedOrigin(s.files, r, m', e.src, whole, v.value, e.user, e.now);
    }
  }

  lemma MovedOrigin(fs: seq<Meta>, r: seq<Meta>, m': Meta, src: string, whole: bool, root: string, user: string, now: int)
    returns (m: Meta)
    requires |r| == |fs| && m' in r && forall i :: 0 <= i < |fs| ==> MovedAs(fs[i], r[i], src, whole, root, user, now)
    ensures m in fs && SameOrigin(m, m')
  {
    var i :| 0 <= i < |r| && r[i] == m';
    m := fs[i];
  }

  // In every run from the empty table: each record was entered by a request of its owner that was carried out, at
  // the time it records, as the file or folder that it is, and on the server where it lies.
  lemma {:induction false} EveryRecordEntered(states: seq<State>, es: seq<Event>, m: Meta) returns (k: nat)
    requires IsRun(states, es) && states[0] == EMPTY && m in states[|es|].files
    ensures k < |es| && Honest(states[k], es[k]) && EnteredBy(m, states[k], es[k])
    decreases |es|
  {
    var n := |es| - 1;
    RunKeepsGood(states, es);
    var m0 := StepOrigin(states[n], es[n], m);
    if EnteredBy(m, states[n], es[n]) {
      k := n;
    } else {
      k := EveryRecordEntered(states[..n + 1], es[..n], m0);
    }
  }

  // ---------- who moves and deletes ----------

  // This user asks for a MOVE or a DELETE.
  predicate ActsOn(e: Event, user: string) {
    (e.Move? && e.user == user) || (e.Delete? && e.user == user)
  }

  // The same record under the same name; its figures may have been updated.
  predicate Stays(m: Meta, m': Meta) {
    SameOrigin(m, m') && m'.name == m.name && m'.readers == m.readers && m'.writers == m.writers
  }

  lemma StepKeepsRecord(s: State, e: Event, m: Meta) returns (m': Meta)
    requires Good(s) && Honest(s, e) && m in s.files && !ActsOn(e, m.owner)
    ensures m' in Step(s, e).files && Stays(m, m')
  {
    m' := m;
    var i :| 0 <= i < |s.files| && s.files[i] == m;
    match e
    case Create(name, user, chosen, storage, now) =>
      CreateCorrect(s, name, user, chosen, storage, now);
      m' := Step(s, e).files[i];
    case CreateFolder(path, user, now) =>
      FolderCorrect(s, path, user, now);
      m' := Step(s, e).files[i];
    case Move(src, dest, user, storage, now) =>
      MoveKeepsRecord(s, e, i);
    case Delete(target, user, storage, order) =>
      DeleteGranted(s, target, user);
      DeleteOutcome(s, target, user, storage, order);
    case WriteComplete(k, name, size, words, chars, now) =>
      CompleteCorrect(s, k, name, size, words, chars, now);
      m' := Step(s, e).files[i];
    case _ =>
  }

  lemma MoveKeepsRecord(s: State, e: Event, i: nat)
    requires Good(s) && e.Move? && i < |s.files| && s.files[i].owner != e.user
    ensures s.files[i] in Step(s, e).files
  {
    var v := MoveVerdict(s.files, s.servers, e.src, e.dest, e.user);
    if v.Granted? && e.storage.None? {
      MoveGranted(s, e.src, e.dest, e.user, v.value);
      MoveCorrect(s.files, s.servers, e.src, e.dest, e.user, e.now, v.value);
      assert Step(s, e).files[i] == s.files[i];
    }
  }

  // In every run: while its owner asks for no MOVE and no DELETE a record stays in the table under its name, with
  // its owner and its access lists, whatever the other users do.
  lemma {:induction false} NobodyElseTakesIt(states: seq<State>, es: seq<Event>, m: Meta) returns (m': Meta)
    requires IsRun(states, es) && Good(states[0]) && m in states[0].files
    requires forall i :: 0 <= i < |es| ==> !ActsOn(es[i], m.owner)
    ensures Good(states[|es|]) && m' in states[|es|].files && Stays(m, m')
    decreases |es|
  {
    m' := m;
    if es != [] {
      var n := |es| - 1;
      var m0 := NobodyElseTakesIt(states[..n + 1], es[..n], m);
      StepKeepsGood(states[n], es[n]);
      m' := StepKeepsRecord(states[n], es[n], m0);
    }
  }
}
