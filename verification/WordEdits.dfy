/** What the word edits of a session come to: one WRITE_DATA on the session list, and all of them from the lock to
    the commit. */
module WordEdits {
  import opened Wrappers
  import opened Text
  import opened Sentences
  import opened Words
  import opened Engine
  import opened LockSafety

  // ---------- one edit ----------

  // Nothing of the session but its working copy differs.
  predicate SameButWorking(x: Session, y: Session) {
    && SameSession(x, y)
    && y.index == x.index && y.start == x.start && y.end == x.end
  }

  // The working copy w becomes w' by inserting the words of the content in front of the word at the index, or
  // behind the last word.
  predicate Inserts(w: string, index: nat, content: string, w': string) {
    var former := Core(w);
    var q := if index < |former| then index else |former|;
    var ws := former[..q] + Words.Words(content) + former[q..];
    AllWords(ws) && Reads(w', ws, FinalDelimiter(w)) && Normal(w', ws, FinalDelimiter(w))
  }

  predicate CanInsert(w: string, index: Option<int>) {
    index.Some? && 0 <= index.value <= |Core(w)| + 1
  }

  // WRITE_DATA is accepted exactly when the client has a session and the index is at most one past the end of its
  // words. It then inserts the words there, and nothing else on the server changes; a refusal changes nothing.
  lemma DataInserts(s: State, fd: int, index: Option<int>, content: string)
    requires Inv(s)
    ensures var e := WriteData(fd, index, content);
            && (Succeeds(s, e) <==> exists x :: x in s.sessions && x.fd == fd && CanInsert(x.working, index))
            && (!Succeeds(s, e) ==> StepReply(s, e) == (s, Error(InvalidRequest)))
            && Step(s, e).files == s.files && Step(s, e).snapshots == s.snapshots
            && |Step(s, e).sessions| == |s.sessions|
            && forall i :: 0 <= i < |s.sessions| ==>
                 if Succeeds(s, e) && s.sessions[i].fd == fd then
                   && SameButWorking(s.sessions[i], Step(s, e).sessions[i])
                   && CanInsert(s.sessions[i].working, index)
                   && Inserts(s.sessions[i].working, index.value, content, Step(s, e).sessions[i].working)
                 else
                   Step(s, e).sessions[i] == s.sessions[i]
  {
    var found := FindSession(s.sessions, fd);
    if found.None? {
      NoSession(s, fd);
    } else {
      var x := s.sessions[found.value];
      assert x in s.sessions;
      forall i | 0 <= i < |s.sessions| && s.sessions[i].fd == fd
        ensures i == found.value
      {
        OneSessionEach(s, i, found.value);
      }
      EditStep(s, WriteData(fd, index, content), found.value);
    }
  }

  lemma NoSession(s: State, fd: int)
    requires FindSession(s.sessions, fd).None?
    ensures forall x :: x in s.sessions ==> x.fd != fd
  {}

  // The handler, once it has found the session.
  lemma EditStep(s: State, e: Event, i: nat)
    requires e.WriteData? && FindSession(s.sessions, e.fd) == Some(i)
    ensures Succeeds(s, e) <==> CanInsert(s.sessions[i].working, e.wordIndex)
    ensures !Succeeds(s, e) ==> StepReply(s, e) == (s, Error(InvalidRequest))
    ensures Succeeds(s, e) ==>
              && |Step(s, e).sessions| == |s.sessions|
              && Step(s, e) == s.(sessions := s.sessions[i := Step(s, e).sessions[i]])
              && SameButWorking(s.sessions[i], Step(s, e).sessions[i])
              && Inserts(s.sessions[i].working, e.wordIndex.value, e.content, Step(s, e).sessions[i].working)
  {
    if e.wordIndex.Some? && e.wordIndex.value >= 0 {
      EditInsertsWords(s.sessions[i].working, e.wordIndex.value, e.content);
    }
  }

  // ---------- what the next edit sees ----------

  // A sentence as an edit reads it: its words, and the delimiter it ends in.
  datatype Reading = Reading(words: seq<string>, delimiter: Option<char>)

  function ReadingOf(s: string): Reading {
    Reading(Core(s), FinalDelimiter(s))
  }

  // The last word without its last character; it goes if nothing is left of it.
  function Shorten(ws: seq<string>): seq<string>
    requires ws != []
  {
    var last := ws[|ws| - 1];
    if |last| <= 1 then ws[..|ws| - 1] else ws[..|ws| - 1] + [last[..|last| - 1]]
  }

  // The words with this delimiter behind them, unless the last one brings its own.
  function Closed(ws: seq<string>, delimiter: Option<char>): Reading {
    if EndsInDelimiter(ws) then Reading(Shorten(ws), Some(ws[|ws| - 1][|ws[|ws| - 1]| - 1]))
    else Reading(ws, delimiter)
  }

  lemma {:induction false} WordsOfStripped(s: string)
    ensures Words.Words(StripTrailing(s)) == Words.Words(s)
  {
    if s != "" && IsSpace(s[|s| - 1]) {
      WordsOfStripped(s[..|s| - 1]);
    }
  }

  lemma WordsOfInit(t: string, init: string, c: char)
    requires t == init + [c] && !IsSpace(c)
    ensures Words.Words(t) != [] && Shorten(Words.Words(t)) == Words.Words(init)
  {
    ShortenWords(init, c);
  }

  lemma ShortenWords(init: string, c: char)
    requires !IsSpace(c)
    ensures Words.Words(init + [c]) != [] && Shorten(Words.Words(init + [c])) == Words.Words(init)
  {
    var ws := Words.Words(init);
    WordsSnocChar(init, c);
    WordsAreWords(init);
    if init == "" || IsSpace(init[|init| - 1]) {
      ShortenSnoc(ws, c);
    } else {
      ShortenExtend(ws, c);
    }
  }

  lemma ShortenSnoc(ws: seq<string>, c: char)
    ensures Shorten(ws + [[c]]) == ws
  {}

  lemma ShortenExtend(ws: seq<string>, c: char)
    requires AllWords(ws) && ws != []
    ensures Extend(ws, c) != [] && Shorten(Extend(ws, c)) == ws
  {
    var last := ws[|ws| - 1];
    assert IsWord(last);
    assert (last + [c])[..|last|] == last;
    assert ws[..|ws| - 1] + [last] == ws;
  }

  lemma ReadsIsReading(r: string, ws: seq<string>, delimiter: Option<char>)
    requires AllWords(ws) && Reads(r, ws, delimiter)
    ensures ReadingOf(r) == Closed(ws, delimiter)
  {
    if EndsInDelimiter(ws) {
      var t := StripTrailing(r);
      WordsOfStripped(r);
      assert Terminated(t);
      InitLast([], t);
      WordsOfInit(t, t[..|t| - 1], t[|t| - 1]);
    }
  }

  // ---------- all edits of a session ----------

  // The reading after one more request of the run.
  function EditedBy(r: Reading, e: Event, fd: int): Reading {
    if e.WriteData? && e.fd == fd && e.wordIndex.Some? && 0 <= e.wordIndex.value <= |r.words| + 1 then
      Closed(InsertAt(r.words, e.wordIndex.value, Words.Words(e.content)), r.delimiter)
    else r
  }

  // The sentence with all accepted insertions of the client, in order.
  function Edited(r: Reading, es: seq<Event>, fd: int): Reading {
    if es == [] then r else EditedBy(Edited(r, es[..|es| - 1], fd), es[|es| - 1], fd)
  }

  // The text itself: the sentence as it was shown, or else what the last accepted insertion made of it.
  predicate Written(w: string, sentence: string, es: seq<Event>, fd: int) {
    if es == [] then w == sentence
    else
      var r, e := Edited(ReadingOf(sentence), es[..|es| - 1], fd), es[|es| - 1];
      if e.WriteData? && e.fd == fd && e.wordIndex.Some? && 0 <= e.wordIndex.value <= |r.words| + 1 then
        Normal(w, InsertAt(r.words, e.wordIndex.value, Words.Words(e.content)), r.delimiter)
      else
        Written(w, sentence, es[..|es| - 1], fd)
  }

  // That leaves no choice.
  lemma {:induction false} WrittenUnique(a: string, b: string, sentence: string, es: seq<Event>, fd: int)
    requires Written(a, sentence, es, fd) && Written(b, sentence, es, fd)
    ensures a == b
  {
    if es != [] {
      var r, e := Edited(ReadingOf(sentence), es[..|es| - 1], fd), es[|es| - 1];
      if e.WriteData? && e.fd == fd && e.wordIndex.Some? && 0 <= e.wordIndex.value <= |r.words| + 1 {
        NormalUnique(a, b, InsertAt(r.words, e.wordIndex.value, Words.Words(e.content)), r.delimiter);
      } else {
        WrittenUnique(a, b, sentence, es[..|es| - 1], fd);
      }
    }
  }

  // One request, seen by the session x of a client; y is the same session afterwards.
  lemma StepEdits(s: State, e: Event, x: Session, y: Session)
    requires Inv(s) && x in s.sessions && e.WriteData? && e.fd == x.fd
    requires y in Step(s, e).sessions && y.fd == x.fd
    ensures if CanInsert(x.working, e.wordIndex) then Inserts(x.working, e.wordIndex.value, e.content, y.working)
            else y.working == x.working
  {
    DataInserts(s, e.fd, e.wordIndex, e.content);
    var i :| 0 <= i < |s.sessions| && s.sessions[i] == x;
    var j :| 0 <= j < |s.sessions| && Step(s, e).sessions[j] == y;
    OneSessionEach(s, i, j);
  }

  lemma OneSessionEach(s: State, i: nat, j: nat)
    requires Inv(s) && i < |s.sessions| && j < |s.sessions| && s.sessions[i].fd == s.sessions[j].fd
    ensures i == j
  {
    assert i < j ==> Apart(s.sessions[i], s.sessions[j]);
    assert j < i ==> Apart(s.sessions[j], s.sessions[i]);
  }

  // From the lock on the working copy is the sentence with the client's accepted insertions.
  lemma {:induction false} RunEdits(s: State, es: seq<Event>, x: Session) returns (y: Session)
    requires Inv(s) && x in s.sessions && forall i :: 0 <= i < |es| ==> !EndsSession(es[i], x.fd)
    ensures y in Run(s, es).sessions && SameSession(x, y)
    ensures SessionOk(Run(s, es), y) && Slice(Run(s, es), y) == Slice(s, x)
    ensures Written(y.working, x.working, es, x.fd)
    ensures ReadingOf(y.working) == Edited(ReadingOf(x.working), es, x.fd)
  {
    if es == [] {
      y := x;
    } else {
      var init, e := es[..|es| - 1], es[|es| - 1];
      var z := RunEdits(s, init, x);
      RunKeepsInv(s, init);
      y := StepKeepsSlice(Run(s, init), e, z);
      if e.WriteData? && e.fd == x.fd {
        StepEdits(Run(s, init), e, z, y);
        if CanInsert(z.working, e.wordIndex) {
          ReadsIsReading(y.working, InsertAt(Core(z.working), e.wordIndex.value, Words.Words(e.content)),
                         FinalDelimiter(z.working));
        }
      }
    }
  }

  // From the lock on.
  lemma LockThenEdits(s: State, lock: Event, es: seq<Event>, sentence: string) returns (y: Session)
    requires Inv(s) && lock.WriteLock? && StepReply(s, lock).1 == Locked(sentence)
    requires forall i :: 0 <= i < |es| ==> !EndsSession(es[i], lock.fd)
    ensures var t := Run(Step(s, lock), es);
            && Inv(t) && y in t.sessions && y.fd == lock.fd && y.file == lock.file && SessionOk(t, y)
            && Slice(t, y) == sentence
            && Written(y.working, sentence, es, lock.fd)
            && ReadingOf(y.working) == Edited(ReadingOf(sentence), es, lock.fd)
  {
    StepKeepsInv(s, lock);
    LockOpens(s, lock);
    y := RunEdits(Step(s, lock), es, Step(s, lock).sessions[0]);
    RunKeepsInv(Step(s, lock), es);
  }

  // From lock to commit: what ETIRW puts in place of the shown sentence is that sentence with all of the client's
  // accepted insertions, in order, whatever the other clients do in between.
  lemma CommitWritesEdits(s: State, lock: Event, es: seq<Event>, sentence: string, t: State) returns (y: Session)
    requires Inv(s) && lock.WriteLock? && StepReply(s, lock).1 == Locked(sentence)
    requires forall i :: 0 <= i < |es| ==> !EndsSession(es[i], lock.fd)
    requires t == Run(Step(s, lock), es)
    ensures y in t.sessions && y.fd == lock.fd && y.file == lock.file && SessionOk(t, y) && Slice(t, y) == sentence
    ensures Written(y.working, sentence, es, lock.fd)
    ensures ReadingOf(y.working) == Edited(ReadingOf(sentence), es, lock.fd)
    ensures CommitPuts(t, y)
  {
    y := LockThenEdits(s, lock, es, sentence);
    CommitSplices(t, y);
  }
}
