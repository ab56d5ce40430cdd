/** Safety of sentence locks over every run: each open session denotes the sentence it locked, whatever
    the other sessions commit. */
module LockSafety {
  import opened Wrappers
  import opened Text
  import opened Sentences
  import opened Engine
  import Words

  // A session's offsets and index denote a sentence of the text, and its working copy can replace it.
  predicate Denotes(text: string, x: Session) {
    && BoundsInside(x, text)
    && IsSentence(text, x.index, Span(x.start, x.end))
    && Fits(text[x.start..x.end], x.working)
  }

  predicate SessionOk(s: State, x: Session) {
    x.file in s.files && Denotes(s.files[x.file].content, x)
  }

  // One session per client, and one client per sentence.
  predicate Apart(x: Session, y: Session) {
    x.fd != y.fd && (x.file == y.file ==> x.index != y.index)
  }

  predicate AllApart(ss: seq<Session>) {
    forall i, j :: 0 <= i < j < |ss| ==> Apart(ss[i], ss[j])
  }

  predicate Inv(s: State) {
    && (forall i :: 0 <= i < |s.sessions| ==> SessionOk(s, s.sessions[i]))
    && AllApart(s.sessions)
  }

  function Slice(s: State, x: Session): string
    requires SessionOk(s, x)
  {
    s.files[x.file].content[x.start..x.end]
  }

  // ---------- the list operations ----------

  lemma DetachKeeps(ss: seq<Session>, fd: int)
    requires AllApart(ss)
    ensures AllApart(Detach(ss, fd))
    ensures forall y :: y in Detach(ss, fd) <==> y in ss && y.fd != fd
    ensures forall j :: 0 <= j < |Detach(ss, fd)| ==> Detach(ss, fd)[j] in ss
  {
    var r := Detach(ss, fd);
    if FindSession(ss, fd).Some? {
      var i := FindSession(ss, fd).value;
      assert forall j :: 0 <= j < |ss| && j != i ==> ss[j].fd != fd;
      assert forall j :: 0 <= j < |r| ==> r[j] == ss[if j < i then j else j + 1];
      forall y | y in ss && y.fd != fd
        ensures y in r
      {
        var j :| 0 <= j < |ss| && ss[j] == y;
        assert r[if j < i then j else j - 1] == y;
      }
    }
  }

  lemma FoundIs(ss: seq<Session>, fd: int, x: Session)
    requires AllApart(ss) && x in ss && x.fd == fd
    ensures FindSession(ss, fd).Some? && ss[FindSession(ss, fd).value] == x
  {
    var j :| 0 <= j < |ss| && ss[j] == x;
  }

  // ---------- a commit, seen by one other session of the file ----------

  function AfterCommit(y: Session, x: Session, text: string): Session
    requires BoundsInside(x, text)
  {
    Moved(y, x.end, |x.working| - (x.end - x.start),
          CountSentences(x.working) - CountSentences(text[x.start..x.end]))
  }

  // A session on an earlier sentence is not touched.
  lemma CommitSeenBefore(text: string, x: Session, y: Session)
    requires Denotes(text, x) && Denotes(text, y) && y.index < x.index
    ensures AfterCommit(y, x, text) == y
    ensures var text' := Splice(text, Span(x.start, x.end), x.working);
            Denotes(text', y) && text'[y.start..y.end] == text[y.start..y.end]
  {
    SentencesOrdered(text, y.index, Span(y.start, y.end), x.index, Span(x.start, x.end));
    SpliceBefore(text, y.index, Span(y.start, y.end), x.index, Span(x.start, x.end), x.working);
  }

  // The arithmetic of the handler is exact for a session on a later sentence: the index moves by the number
  // of delimiters that the commit adds to the file, which is never negative, so the clamp to 0 is not used.
  lemma CommitSeenAfter(text: string, x: Session, y: Session)
    requires Denotes(text, x) && Denotes(text, y) && x.index < y.index
    ensures var text', y' := Splice(text, Span(x.start, x.end), x.working), AfterCommit(y, x, text);
            && CountSentences(x.working) - CountSentences(text[x.start..x.end]) == Delims(text') - Delims(text) >= 0
            && y' == y.(start := y.start + |text'| - |text|, end := y.end + |text'| - |text|,
                        index := y.index + Delims(text') - Delims(text))
            && Denotes(text', y') && text'[y'.start..y'.end] == text[y.start..y.end]
  {
    var at, w := Span(x.start, x.end), x.working;
    var y' := AfterCommit(y, x, text);
    SpliceAfter(text, y.index, Span(y.start, y.end), x.index, at, w);
    SpliceDelims(text, at, w);
    assert Span(y'.start, y'.end) == Shift(Span(y.start, y.end), at, |w|);
    assert y'.index == y.index + Delims(w) - 1;
  }

  lemma AfterCommitApart(text: string, x: Session, y: Session, z: Session)
    requires Denotes(text, x) && Denotes(text, y) && Denotes(text, z)
    requires x.index != y.index && x.index != z.index && y.index != z.index
    ensures AfterCommit(y, x, text).index != AfterCommit(z, x, text).index
  {
    IndexAfterCommit(text, x, y);
    IndexAfterCommit(text, x, z);
  }

  lemma IndexAfterCommit(text: string, x: Session, y: Session)
    requires Denotes(text, x) && Denotes(text, y) && x.index != y.index
    ensures var added := Delims(Splice(text, Span(x.start, x.end), x.working)) - Delims(text);
            var index := AfterCommit(y, x, text).index;
            if y.index < x.index then index == y.index else index == y.index + added >= y.index
  {
    if y.index < x.index {
      CommitSeenBefore(text, x, y);
    } else {
      CommitSeenAfter(text, x, y);
    }
  }

  // What the commit of x makes of another session.
  function View(s: State, x: Session, y: Session): Session
    requires SessionOk(s, x)
  {
    if y.file == x.file then AfterCommit(y, x, s.files[x.file].content) else y
  }

  lemma CommitKeepsSession(s: State, i: nat, s': State, y: Session)
    requires Inv(s) && i < |s.sessions| && y in s.sessions && y != s.sessions[i]
    requires s'.files == s.files[s.sessions[i].file := CommitFile(s.files[s.sessions[i].file], s.sessions[i])]
    ensures SessionOk(s', View(s, s.sessions[i], y)) && Slice(s', View(s, s.sessions[i], y)) == Slice(s, y)
  {
    var x := s.sessions[i];
    var text := s.files[x.file].content;
    if y.file == x.file {
      if y.index < x.index {
        CommitSeenBefore(text, x, y);
      } else {
        CommitSeenAfter(text, x, y);
      }
    }
  }

  lemma CommitViewsApart(s: State, i: nat, y: Session, z: Session)
    requires Inv(s) && i < |s.sessions| && y in s.sessions && z in s.sessions
    requires y != s.sessions[i] && z != s.sessions[i] && Apart(y, z)
    ensures Apart(View(s, s.sessions[i], y), View(s, s.sessions[i], z))
  {
    var x := s.sessions[i];
    if y.file == x.file == z.file {
      AfterCommitApart(s.files[x.file].content, x, y, z);
    }
  }

  // The list after a commit: every other session, in its old place, as the commit leaves it.
  lemma CommitList(s: State, i: nat)
    requires Inv(s) && i < |s.sessions|
    ensures var r := CommitSessions(s.sessions, i, s.files[s.sessions[i].file].content);
            && |r| == |s.sessions| - 1
            && forall j :: 0 <= j < |r| ==> r[j] == View(s, s.sessions[i], s.sessions[if j < i then j else j + 1])
  {
    var r := CommitSessions(s.sessions, i, s.files[s.sessions[i].file].content);
    forall j | 0 <= j < |r|
      ensures r[j] == View(s, s.sessions[i], s.sessions[if j < i then j else j + 1])
    {
      CommitListAt(s, i, j);
    }
  }

  lemma CommitListAt(s: State, i: nat, j: nat)
    requires Inv(s) && i < |s.sessions| && j < |s.sessions| - 1
    ensures CommitSessions(s.sessions, i, s.files[s.sessions[i].file].content)[j]
         == View(s, s.sessions[i], s.sessions[if j < i then j else j + 1])
  {
    var text, k := s.files[s.sessions[i].file].content, if j < i then j else j + 1;
    assert MovedByCommit(s.sessions, i, text)[k] == View(s, s.sessions[i], s.sessions[k]);
  }

  lemma CommitKeepsInv(s: State, i: nat)
    requires Inv(s) && i < |s.sessions| && FindSession(s.sessions, s.sessions[i].fd) == Some(i)
    ensures var (s', reply) := CommitStep(s, Etirw(s.sessions[i].fd)); reply == Done && Inv(s')
  {
    var s' := CommitStep(s, Etirw(s.sessions[i].fd)).0;
    CommitList(s, i);
    forall j | 0 <= j < |s'.sessions|
      ensures SessionOk(s', s'.sessions[j])
    {
      CommitKeepsSession(s, i, s', s.sessions[if j < i then j else j + 1]);
    }
    forall j, k | 0 <= j < k < |s'.sessions|
      ensures Apart(s'.sessions[j], s'.sessions[k])
    {
      CommitViewsApart(s, i, s.sessions[if j < i then j else j + 1], s.sessions[if k < i then k else k + 1]);
    }
  }

  // ---------- the other handlers ----------

  lemma SliceFits(text: string, k: int, x: Span)
    requires IsSentence(text, k, x)
    ensures Fits(text[x.start..x.end], text[x.start..x.end])
  {}

  // Adding a session at the head of the list.
  lemma AddKeepsInv(s: State, x: Session)
    requires Inv(s) && SessionOk(s, x) && forall j :: 0 <= j < |s.sessions| ==> Apart(x, s.sessions[j])
    ensures Inv(s.(sessions := [x] + s.sessions))
  {}

  lemma LockKeepsInv(s: State, e: Event)
    requires Inv(s) && e.WriteLock?
    ensures Inv(LockStep(s, e).0)
  {
    DetachKeeps(s.sessions, e.fd);
    var s1 := s.(sessions := Detach(s.sessions, e.fd));
    assert Inv(s1);
    if !LockStep(s, e).1.Error? {
      var text := s.files[e.file].content;
      SliceFits(text, e.index.value, Bounds(text, e.index.value).value);
      assert forall j :: 0 <= j < |s1.sessions| ==> s1.sessions[j] in s1.sessions;
      AddKeepsInv(s1, LockStep(s, e).0.sessions[0]);
    }
  }

  lemma FitsTrans(a: string, b: string, c: string)
    requires Fits(a, b) && Fits(b, c)
    ensures Fits(a, c)
  {}

  lemma DataKeepsInv(s: State, e: Event)
    requires Inv(s) && e.WriteData?
    ensures Inv(DataStep(s, e).0)
  {
    var i := FindSession(s.sessions, e.fd);
    if e.wordIndex.Some? && e.wordIndex.value >= 0 && i.Some? {
      var x := s.sessions[i.value];
      var w := Words.EditSentence(x.working, e.wordIndex.value, e.content);
      if w.Some? {
        Words.EditFits(x.working, e.wordIndex.value, e.content);
        FitsTrans(Slice(s, x), x.working, w.value);
      }
    }
  }

  // Undo, checkpoint, revert, copy, create and delete leave a file with open sessions as it is.
  lemma OthersKeepLockedFiles(s: State, e: Event, f: FileId)
    requires !e.WriteLock? && !e.WriteData? && !e.Etirw? && !e.Disconnect?
    requires f in s.files && HasWriters(s.sessions, f)
    ensures Step(s, e).sessions == s.sessions
    ensures f in Step(s, e).files && Step(s, e).files[f] == s.files[f]
  {}

  lemma OthersKeepInv(s: State, e: Event)
    requires Inv(s) && !e.WriteLock? && !e.WriteData? && !e.Etirw? && !e.Disconnect?
    ensures Inv(Step(s, e))
  {
    var s' := Step(s, e);
    assert s'.sessions == s.sessions;
    forall j | 0 <= j < |s.sessions|
      ensures SessionOk(s', s'.sessions[j])
    {
      OthersKeepLockedFiles(s, e, s.sessions[j].file);
    }
  }

  // ---------- every run ----------

  lemma StepKeepsInv(s: State, e: Event)
    requires Inv(s)
    ensures Inv(Step(s, e))
  {
    match e
    case WriteLock(_, _, _, _, _) => LockKeepsInv(s, e);
    case WriteData(_, _, _) => DataKeepsInv(s, e);
    case Etirw(fd) =>
      if FindSession(s.sessions, fd).Some? {
        CommitKeepsInv(s, FindSession(s.sessions, fd).value);
      }
    case Disconnect(fd) => DetachKeeps(s.sessions, fd);
    case _ => OthersKeepInv(s, e);
  }

  // In every state that a run reaches, ss_get_sentence_bounds of a session's index is the session's span.
  lemma {:induction false} RunKeepsInv(s: State, es: seq<Event>)
    requires Inv(s)
    ensures Inv(Run(s, es))
  {
    if es != [] {
      RunKeepsInv(s, es[..|es| - 1]);
      StepKeepsInv(Run(s, es[..|es| - 1]), es[|es| - 1]);
    }
  }

  lemma SessionsDenoteSentences(es: seq<Event>, x: Session)
    requires x in Run(EMPTY, es).sessions
    ensures var s := Run(EMPTY, es);
            && SessionOk(s, x)
            && Bounds(s.files[x.file].content, x.index) == Some(Span(x.start, x.end))
  {
    RunKeepsInv(EMPTY, es);
    var s := Run(EMPTY, es);
    assert SessionOk(s, x);
    BoundsIs(s.files[x.file].content, x.index, Span(x.start, x.end));
  }

  // Two sessions on one file lock different sentences, and their slices do not overlap.
  lemma SessionsAreDisjoint(es: seq<Event>, x: Session, y: Session)
    requires x in Run(EMPTY, es).sessions && y in Run(EMPTY, es).sessions && x != y
    ensures x.fd != y.fd
    ensures x.file == y.file ==> x.index != y.index
    ensures x.file == y.file && x.index < y.index ==> x.start < x.end <= y.start
  {
    RunKeepsInv(EMPTY, es);
    DisjointIn(Run(EMPTY, es), x, y);
  }

  lemma DisjointIn(s: State, x: Session, y: Session)
    requires Inv(s) && x in s.sessions && y in s.sessions && x != y
    ensures x.fd != y.fd
    ensures x.file == y.file ==> x.index != y.index
    ensures x.file == y.file && x.index < y.index ==> x.start < x.end <= y.start
  {
    var i :| 0 <= i < |s.sessions| && s.sessions[i] == x;
    var j :| 0 <= j < |s.sessions| && s.sessions[j] == y;
    assert if i < j then Apart(x, y) else Apart(y, x);
    assert SessionOk(s, x) && SessionOk(s, y);
    if x.file == y.file && x.index < y.index {
      SlicesApart(s.files[x.file].content, x, y);
    }
  }

  lemma SlicesApart(text: string, x: Session, y: Session)
    requires Denotes(text, x) && Denotes(text, y) && x.index < y.index
    ensures x.start < x.end <= y.start
  {
    SentencesOrdered(text, x.index, Span(x.start, x.end), y.index, Span(y.start, y.end));
  }

  // A client with an open session can always commit: the "Invalid sentence bounds" reply cannot occur.
  lemma CommitNeverRefused(es: seq<Event>, fd: int)
    ensures var s := Run(EMPTY, es);
            Succeeds(s, Etirw(fd)) <==> exists x :: x in s.sessions && x.fd == fd
  {
    RunKeepsInv(EMPTY, es);
    var s := Run(EMPTY, es);
    if FindSession(s.sessions, fd).Some? {
      CommitKeepsInv(s, FindSession(s.sessions, fd).value);
      assert s.sessions[FindSession(s.sessions, fd).value] in s.sessions;
    }
  }

  // ---------- no lost update ----------

  // The events that end a client's session: its commit, its disconnection, and its next lock request.
  predicate EndsSession(e: Event, fd: int) {
    match e
    case WriteLock(g, _, _, index, _) => g == fd && index.Some? && index.value >= 0
    case Etirw(g) => g == fd
    case Disconnect(g) => g == fd
    case _ => false
  }

  // The same session later: offsets and index may have moved, the working copy may have been edited.
  predicate SameSession(x: Session, y: Session) {
    x.fd == y.fd && x.file == y.file && x.user == y.user && x.snapshot == y.snapshot
  }

  lemma LockKeepsOthers(s: State, e: Event, x: Session)
    requires Inv(s) && x in s.sessions && e.WriteLock? && !EndsSession(e, x.fd)
    ensures x in LockStep(s, e).0.sessions && LockStep(s, e).0.files == s.files
  {
    DetachKeeps(s.sessions, e.fd);
    var d, s' := Detach(s.sessions, e.fd), LockStep(s, e).0;
    if !LockStep(s, e).1.Error? {
      assert s'.sessions[1..] == d;
    }
  }

  lemma CommitKeepsOthers(s: State, e: Event, x: Session) returns (y: Session)
    requires Inv(s) && x in s.sessions && e.Etirw? && e.fd != x.fd
    ensures y in CommitStep(s, e).0.sessions && SameSession(x, y) && y.working == x.working
    ensures SessionOk(CommitStep(s, e).0, y) && Slice(CommitStep(s, e).0, y) == Slice(s, x)
  {
    y := x;
    var found := FindSession(s.sessions, e.fd);
    if found.Some? {
      var i := found.value;
      var j :| 0 <= j < |s.sessions| && s.sessions[j] == x;
      CommitKeepsInv(s, i);
      CommitKeepsSession(s, i, CommitStep(s, e).0, x);
      y := View(s, s.sessions[i], x);
      CommitListHas(s, i, j);
    }
  }

  lemma CommitListHas(s: State, i: nat, j: nat)
    requires Inv(s) && i < |s.sessions| && j < |s.sessions| && j != i
    ensures View(s, s.sessions[i], s.sessions[j]) in CommitSessions(s.sessions, i, s.files[s.sessions[i].file].content)
  {
    CommitList(s, i);
    var r := CommitSessions(s.sessions, i, s.files[s.sessions[i].file].content);
    assert r[if j < i then j else j - 1] == View(s, s.sessions[i], s.sessions[j]);
  }

  lemma StepKeepsSlice(s: State, e: Event, x: Session) returns (y: Session)
    requires Inv(s) && x in s.sessions && !EndsSession(e, x.fd)
    ensures y in Step(s, e).sessions && SameSession(x, y)
    ensures SessionOk(Step(s, e), y) && Slice(Step(s, e), y) == Slice(s, x)
    ensures !(e.WriteData? && e.fd == x.fd) ==> y.working == x.working
  {
    StepKeepsInv(s, e);
    y := x;
    match e
    case WriteLock(_, _, _, _, _) =>
      LockKeepsOthers(s, e, x);
    case WriteData(_, _, _) =>
      var j :| 0 <= j < |s.sessions| && s.sessions[j] == x;
      y := Step(s, e).sessions[j];
    case Etirw(_) =>
      y := CommitKeepsOthers(s, e, x);
    case Disconnect(fd) =>
      DetachKeeps(s.sessions, fd);
    case _ =>
      OthersKeepLockedFiles(s, e, x.file);
  }

  // While a session is open its slice holds the bytes it locked, whatever happens in between.
  lemma {:induction false} NoLostUpdate(s: State, es: seq<Event>, x: Session) returns (y: Session)
    requires Inv(s) && x in s.sessions && forall i :: 0 <= i < |es| ==> !EndsSession(es[i], x.fd)
    ensures y in Run(s, es).sessions && SameSession(x, y)
    ensures SessionOk(Run(s, es), y) && Slice(Run(s, es), y) == Slice(s, x)
    ensures (forall i :: 0 <= i < |es| ==> !(es[i].WriteData? && es[i].fd == x.fd)) ==> y.working == x.working
  {
    if es == [] {
      y := x;
    } else {
      var init := es[..|es| - 1];
      var z := NoLostUpdate(s, init, x);
      RunKeepsInv(s, init);
      y := StepKeepsSlice(Run(s, init), es[|es| - 1], z);
    }
  }

  // What a request that parses does to the list: the client's own session goes, and if the lock is granted a new
  // one opens on the sentence that the client is shown, with that sentence as its working copy.
  lemma LockOpens(s: State, e: Event)
    requires Inv(s) && e.WriteLock? && e.index.Some? && e.index.value >= 0
    ensures var (s', reply) := LockStep(s, e);
            && s'.files == s.files && s'.snapshots == s.snapshots
            && (forall y :: y in s.sessions && y.fd != e.fd ==> y in s'.sessions)
            && (forall y :: y in s'.sessions ==> y in s.sessions || y == s'.sessions[0])
            && (forall y :: y in s'.sessions && y.fd == e.fd ==> reply.Locked? && y == s'.sessions[0])
            && (reply.Locked? ==>
                  && s'.sessions != [] && SessionOk(s', s'.sessions[0])
                  && var x := s'.sessions[0];
                     && x.fd == e.fd && x.user == e.user && x.file == e.file && x.index == e.index.value
                     && x.snapshot == s.files[e.file].content
                     && x.working == reply.sentence == Slice(s', x))
  {
    DetachKeeps(s.sessions, e.fd);
    LockKeepsInv(s, e);
    LockList(s, e);
    var s' := LockStep(s, e).0;
    if LockStep(s, e).1.Locked? {
      assert SessionOk(s', s'.sessions[0]);
    }
  }

  // The list without the client's session, and the new one in front of it if the lock is granted.
  lemma LockList(s: State, e: Event)
    requires e.WriteLock? && e.index.Some? && e.index.value >= 0
    ensures var (s', reply), d := LockStep(s, e), Detach(s.sessions, e.fd);
            if reply.Locked? then
              && e.file in s.files && s'.sessions != [] && s' == s.(sessions := [s'.sessions[0]] + d)
              && var x := s'.sessions[0];
                 && x.fd == e.fd && x.user == e.user && x.file == e.file && x.index == e.index.value
                 && x.snapshot == s.files[e.file].content && x.working == reply.sentence
                 && BoundsInside(x, x.snapshot) && x.working == x.snapshot[x.start..x.end]
            else
              s' == s.(sessions := d)
  {
    var s', d := LockStep(s, e).0, Detach(s.sessions, e.fd);
    if LockStep(s, e).1.Locked? {
      assert s'.sessions == [s'.sessions[0]] + d;
    }
  }

  // The commit of the session is carried out and replaces its slice by its working copy.
  ghost predicate CommitPuts(s: State, x: Session)
    requires SessionOk(s, x)
  {
    && Succeeds(s, Etirw(x.fd)) && x.file in Step(s, Etirw(x.fd)).files
    && Step(s, Etirw(x.fd)).files[x.file].content
       == Splice(s.files[x.file].content, Span(x.start, x.end), x.working)
  }

  lemma CommitSplices(s: State, x: Session)
    requires Inv(s) && x in s.sessions
    ensures SessionOk(s, x) && CommitPuts(s, x)
  {
    FoundIs(s.sessions, x.fd, x);
    CommitKeepsInv(s, FindSession(s.sessions, x.fd).value);
  }

  // From lock to commit: the commit replaces exactly the sentence that the lock showed the client. If the client
  // has sent no words, it puts the sentence back, and the content stays as it is.
  lemma CommitReplacesWhatWasShown(s: State, lock: Event, es: seq<Event>, sentence: string) returns (y: Session)
    requires Inv(s) && lock.WriteLock? && StepReply(s, lock).1 == Locked(sentence)
    requires forall i :: 0 <= i < |es| ==> !EndsSession(es[i], lock.fd)
    ensures var t := Run(Step(s, lock), es);
            && y in t.sessions && y.fd == lock.fd && y.file == lock.file && SessionOk(t, y)
            && Slice(t, y) == sentence && CommitPuts(t, y)
            && ((forall i :: 0 <= i < |es| ==> !(es[i].WriteData? && es[i].fd == lock.fd)) ==>
                  y.working == sentence && Step(t, Etirw(lock.fd)).files[lock.file].content == t.files[lock.file].content)
  {
    var s1 := Step(s, lock);
    StepKeepsInv(s, lock);
    LockOpens(s, lock);
    y := NoLostUpdate(s1, es, s1.sessions[0]);
    RunKeepsInv(s1, es);
    CommitSplices(Run(s1, es), y);
    SpliceNothing(Run(s1, es).files[lock.file].content, Span(y.start, y.end));
  }

  // Replacing a slice by itself changes nothing.
  lemma SpliceNothing(text: string, at: Span)
    requires at.start <= at.end <= |text|
    ensures Splice(text, at, text[at.start..at.end]) == text
  {}

  // When a lock is granted: the file exists and may be written, the sentence exists, and no other client has it.
  lemma LockGranted(s: State, e: Event)
    requires Inv(s) && e.WriteLock?
    ensures Succeeds(s, e) <==>
      && e.index.Some? && e.file in s.files && e.allowed
      && 0 <= e.index.value <= Delims(s.files[e.file].content)
      && forall x :: x in s.sessions && x.file == e.file && x.index == e.index.value ==> x.fd == e.fd
    ensures e.index.None? || e.index.value < 0 ==> StepReply(s, e) == (s, Error(InvalidRequest))
  {
    DetachKeeps(s.sessions, e.fd);
    if e.index.Some? {
      var d := Detach(s.sessions, e.fd);
      assert SentenceTaken(d, e.file, e.index.value)
        <==> exists x :: x in d && x.file == e.file && x.index == e.index.value by {
        if SentenceTaken(d, e.file, e.index.value) {
          var i :| 0 <= i < |d| && d[i].file == e.file && d[i].index == e.index.value;
          assert d[i] in d;
        }
      }
    }
  }
}
