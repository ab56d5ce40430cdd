/** Commits commute: whatever the order in which a set of open sessions of a file commits, the file ends up as
    the text in which each locked slice is replaced by its working copy. */
module CommitOrder {
  import opened Wrappers
  import opened Text
  import opened Sentences
  import opened Engine
  import opened LockSafety

  datatype Edit = Edit(start: nat, end: nat, text: string)

  // The edits lie in the text, one behind the other.
  predicate InOrder(text: string, es: seq<Edit>) {
    && (forall i :: 0 <= i < |es| ==> es[i].start <= es[i].end <= |text|)
    && (forall i, j :: 0 <= i < j < |es| ==> es[i].start < es[j].start && es[i].end <= es[j].start)
  }

  // The text with every slice replaced, and all else kept in order.
  function Replace(text: string, es: seq<Edit>): string
    requires InOrder(text, es)
    decreases |es|
  {
    if es == [] then text
    else
      var last := es[|es| - 1];
      Replace(text[..last.start], es[..|es| - 1]) + last.text + text[last.end..]
  }

  function ShiftEdit(e: Edit, delta: int): Edit
    requires e.start + delta >= 0 && e.end + delta >= 0
  {
    Edit(e.start + delta, e.end + delta, e.text)
  }

  function Growth(c: Edit): int {
    |c.text| - (c.end - c.start)
  }

  // The edits that remain once edit i has been applied.
  function Rest(text: string, es: seq<Edit>, i: nat): (r: seq<Edit>)
    requires InOrder(text, es) && i < |es|
    ensures |r| == |es| - 1
    ensures forall j :: 0 <= j < |r| ==>
      r[j] == if j < i then es[j] else ShiftEdit(es[j + 1], Growth(es[i]))
  {
    seq(|es| - 1, j requires 0 <= j < |es| - 1 => if j < i then es[j] else ShiftEdit(es[j + 1], Growth(es[i])))
  }

  function Apply(text: string, c: Edit): string
    requires c.start <= c.end <= |text|
  {
    Splice(text, Span(c.start, c.end), c.text)
  }

  lemma RestInOrder(text: string, es: seq<Edit>, i: nat)
    requires InOrder(text, es) && i < |es|
    ensures InOrder(Apply(text, es[i]), Rest(text, es, i))
  {
    var text', r := Apply(text, es[i]), Rest(text, es, i);
    forall j | 0 <= j < |r|
      ensures r[j].start <= r[j].end <= |text'|
    {
      RestInside(text, es, i, j);
    }
    forall j, k | 0 <= j < k < |r|
      ensures r[j].start < r[k].start && r[j].end <= r[k].start
    {
      RestApart(text, es, i, j, k);
    }
  }

  lemma RestInside(text: string, es: seq<Edit>, i: nat, j: nat)
    requires InOrder(text, es) && i < |es| && j < |es| - 1
    ensures Rest(text, es, i)[j].start <= Rest(text, es, i)[j].end <= |Apply(text, es[i])|
  {
    if j < i {
      assert es[j].end <= es[i].start;
    } else {
      assert es[i].end <= es[j + 1].start <= es[j + 1].end <= |text|;
    }
  }

  lemma RestApart(text: string, es: seq<Edit>, i: nat, j: nat, k: nat)
    requires InOrder(text, es) && i < |es| && j < k < |es| - 1
    ensures var r := Rest(text, es, i); r[j].start < r[k].start && r[j].end <= r[k].start
  {
    var j', k' := if j < i then j else j + 1, if k < i then k else k + 1;
    assert es[j'].start < es[k'].start && es[j'].end <= es[k'].start;
    if j < i <= k {
      assert es[j].end <= es[i].start && es[i].end <= es[k + 1].start;
    }
  }

  lemma {:induction false} ReplaceAppend(a: string, b: string, es: seq<Edit>)
    requires InOrder(a, es)
    ensures InOrder(a + b, es) && Replace(a + b, es) == Replace(a, es) + b
  {
    if es != [] {
      var last := es[|es| - 1];
      SliceAppend(a, b, last.start, last.end);
      Associative(Replace(a[..last.start], es[..|es| - 1]) + last.text, a[last.end..], b);
    }
  }

  lemma SliceAppend(a: string, b: string, i: nat, j: nat)
    requires i <= |a| && j <= |a|
    ensures (a + b)[..i] == a[..i] && (a + b)[j..] == a[j..] + b
  {}

  lemma ApplyHead(text: string, c: Edit, p: nat)
    requires c.start <= c.end <= p <= |text|
    ensures Apply(text, c)[..p + Growth(c)] == Apply(text[..p], c)
    ensures Apply(text, c)[p + Growth(c)..] == text[p..]
  {}

  lemma ApplyLastFirst(text: string, es: seq<Edit>)
    requires InOrder(text, es) && es != []
    ensures InOrder(Apply(text, es[|es| - 1]), es[..|es| - 1])
    ensures Replace(Apply(text, es[|es| - 1]), es[..|es| - 1]) == Replace(text, es)
  {
    var last := es[|es| - 1];
    assert Apply(text, last) == text[..last.start] + (last.text + text[last.end..]);
    ReplaceAppend(text[..last.start], last.text + text[last.end..], es[..|es| - 1]);
  }

  lemma RestOfInit(text: string, es: seq<Edit>, i: nat)
    requires InOrder(text, es) && i < |es| - 1
    ensures var last := es[|es| - 1];
            && InOrder(text[..last.start], es[..|es| - 1])
            && Rest(text, es, i) == Rest(text[..last.start], es[..|es| - 1], i) + [ShiftEdit(last, Growth(es[i]))]
  {
    var last, init := es[|es| - 1], es[..|es| - 1];
    assert InOrder(text[..last.start], init);
    assert |Rest(text[..last.start], init, i)| == |init| - 1;
  }

  // Applying one edit, wherever it stands, leaves the final text the same.
  lemma {:induction false} ApplyAnyFirst(text: string, es: seq<Edit>, i: nat)
    requires InOrder(text, es) && i < |es|
    ensures InOrder(Apply(text, es[i]), Rest(text, es, i))
    ensures Replace(Apply(text, es[i]), Rest(text, es, i)) == Replace(text, es)
    decreases |es|
  {
    RestInOrder(text, es, i);
    if i == |es| - 1 {
      assert Rest(text, es, i) == es[..|es| - 1];
      ApplyLastFirst(text, es);
    } else {
      var head := text[..es[|es| - 1].start];
      RestOfInit(text, es, i);
      ApplyAnyFirst(head, es[..|es| - 1], i);
      ApplyInnerFirst(text, es, i);
    }
  }

  // An inner edit is applied to the part of the text before the last edit.
  lemma ApplyInnerFirst(text: string, es: seq<Edit>, i: nat)
    requires InOrder(text, es) && i < |es| - 1
    requires var head, init := text[..es[|es| - 1].start], es[..|es| - 1];
             && InOrder(head, init) && InOrder(Apply(head, es[i]), Rest(head, init, i))
             && Replace(Apply(head, es[i]), Rest(head, init, i)) == Replace(head, init)
    ensures InOrder(Apply(text, es[i]), Rest(text, es, i))
    ensures Replace(Apply(text, es[i]), Rest(text, es, i)) == Replace(text, es)
  {
    RestInOrder(text, es, i);
    InnerParts(text, es, i);
  }

  lemma InnerParts(text: string, es: seq<Edit>, i: nat)
    requires InOrder(text, es) && i < |es| - 1 && InOrder(Apply(text, es[i]), Rest(text, es, i))
    ensures var last, init := es[|es| - 1], es[..|es| - 1];
            var head := text[..last.start];
            && InOrder(head, init) && InOrder(Apply(head, es[i]), Rest(head, init, i))
            && Replace(Apply(text, es[i]), Rest(text, es, i))
               == Replace(Apply(head, es[i]), Rest(head, init, i)) + last.text + text[last.end..]
  {
    var c, last, init := es[i], es[|es| - 1], es[..|es| - 1];
    var head := text[..last.start];
    RestOfInit(text, es, i);
    ApplyHead(text, c, last.start);
    ApplyHead(text, c, last.end);
    ReplaceParts(Apply(text, c), Rest(head, init, i), ShiftEdit(last, Growth(c)), Apply(head, c), text[last.end..]);
  }

  lemma ReplaceParts(text: string, es: seq<Edit>, last: Edit, head: string, tail: string)
    requires last.start <= last.end <= |text| && InOrder(text, es + [last])
    requires text[..last.start] == head && text[last.end..] == tail
    ensures InOrder(head, es) && Replace(text, es + [last]) == Replace(head, es) + last.text + tail
  {
    ReplaceSnoc(text, es, last);
  }

  lemma ReplaceSnoc(text: string, es: seq<Edit>, last: Edit)
    requires last.start <= last.end <= |text| && InOrder(text, es + [last])
    ensures InOrder(text[..last.start], es)
    ensures Replace(text, es + [last]) == Replace(text[..last.start], es) + last.text + text[last.end..]
  {
    assert (es + [last])[..|es|] == es && (es + [last])[|es|] == last;
  }

  // ---------- the edits that open sessions hold ----------

  function EditOf(x: Session): Edit
    requires 0 <= x.start <= x.end
  {
    Edit(x.start, x.end, x.working)
  }

  // The sessions of a file that belong to the given clients.
  predicate Pending(s: State, f: FileId, clients: set<int>, x: Session) {
    x in s.sessions && x.file == f && x.fd in clients
  }

  // The edit belongs to a session of one of these clients.
  ghost predicate Held(s: State, f: FileId, clients: set<int>, c: Edit) {
    exists x :: Pending(s, f, clients, x) && SessionOk(s, x) && EditOf(x) == c
  }

  // The edits pending for these clients, sorted by position.
  ghost predicate Lists(s: State, f: FileId, clients: set<int>, es: seq<Edit>)
    requires f in s.files
  {
    && InOrder(s.files[f].content, es)
    && (forall x :: Pending(s, f, clients, x) && SessionOk(s, x) ==> EditOf(x) in es)
    && (forall e :: e in es ==> Held(s, f, clients, e))
  }

  lemma PendingOrdered(s: State, f: FileId, x: Session, y: Session)
    requires Inv(s) && f in s.files && x in s.sessions && y in s.sessions && x.file == f == y.file && x != y
    ensures SessionOk(s, x) && SessionOk(s, y)
    ensures (x.start < y.start && x.end <= y.start) || (y.start < x.start && y.end <= x.start)
  {
    var text := s.files[f].content;
    assert SessionOk(s, x) && SessionOk(s, y);
    if x.index < y.index {
      SentencesOrdered(text, x.index, Span(x.start, x.end), y.index, Span(y.start, y.end));
    } else {
      SentencesOrdered(text, y.index, Span(y.start, y.end), x.index, Span(x.start, x.end));
    }
  }

  lemma HeldIn(s: State, f: FileId, clients: set<int>, more: set<int>, c: Edit)
    requires Held(s, f, clients, c) && clients <= more
    ensures Held(s, f, more, c)
  {
    var x :| Pending(s, f, clients, x) && SessionOk(s, x) && EditOf(x) == c;
    assert Pending(s, f, more, x);
  }

  // Every set of pending edits can be sorted: each session finds its place among the others.
  lemma {:induction false} ListsExist(s: State, f: FileId, order: seq<int>) returns (es: seq<Edit>)
    requires Inv(s) && f in s.files && NoRepeats(order)
    ensures Lists(s, f, Elems(order), es)
    decreases |order|
  {
    if order == [] {
      es := [];
    } else {
      ElemsTail(order);
      var es0 := ListsExist(s, f, order[1..]);
      if x :| Pending(s, f, Elems(order), x) && x.fd == order[0] {
        es := InsertEdit(s, f, Elems(order), x, es0);
      } else {
        es := es0;
        forall e | e in es
          ensures Held(s, f, Elems(order), e)
        {
          HeldIn(s, f, Elems(order[1..]), Elems(order), e);
        }
        assert forall x :: Pending(s, f, Elems(order), x) ==> Pending(s, f, Elems(order[1..]), x);
      }
    }
  }

  // An edit of another session lies on one side.
  lemma HeldBeside(s: State, f: FileId, clients: set<int>, x: Session, c: Edit)
    requires Inv(s) && f in s.files && x in s.sessions && x.file == f && x.fd !in clients && Held(s, f, clients, c)
    ensures SessionOk(s, x)
    ensures (c.start < x.start && c.end <= x.start) || (x.start < c.start && x.end <= c.start)
  {
    var y :| Pending(s, f, clients, y) && SessionOk(s, y) && EditOf(y) == c;
    PendingOrdered(s, f, x, y);
  }

  lemma InsertInOrder(text: string, es0: seq<Edit>, c: Edit) returns (p: nat)
    requires InOrder(text, es0) && c.start <= c.end <= |text|
    requires forall i :: 0 <= i < |es0| ==>
      (es0[i].start < c.start && es0[i].end <= c.start) || (c.start < es0[i].start && c.end <= es0[i].start)
    ensures p <= |es0| && InOrder(text, es0[..p] + [c] + es0[p..])
  {
    p := 0;
    while p < |es0| && es0[p].start < c.start
      invariant 0 <= p <= |es0| && forall i :: 0 <= i < p ==> es0[i].start < c.start
    {
      p := p + 1;
    }
    InsertedInOrder(text, es0, c, p);
  }

  lemma InsertedInOrder(text: string, es0: seq<Edit>, c: Edit, p: nat)
    requires InOrder(text, es0) && c.start <= c.end <= |text| && p <= |es0|
    requires forall i :: 0 <= i < |es0| ==>
      if i < p then es0[i].start < c.start && es0[i].end <= c.start else c.start < es0[i].start && c.end <= es0[i].start
    ensures InOrder(text, es0[..p] + [c] + es0[p..])
  {
    var r := es0[..p] + [c] + es0[p..];
    assert forall i :: 0 <= i < |r| ==> r[i] == Inserted(es0, c, p, i);
    forall i, j | 0 <= i < j < |r|
      ensures r[i].start < r[j].start && r[i].end <= r[j].start
    {
      if i != p && j != p {
        assert es0[if i < p then i else i - 1].start < es0[if j < p then j else j - 1].start;
      }
    }
  }

  function Inserted(es0: seq<Edit>, c: Edit, p: nat, i: nat): Edit
    requires p <= |es0| && i <= |es0|
  {
    if i < p then es0[i] else if i == p then c else es0[i - 1]
  }

  lemma InsertEdit(s: State, f: FileId, clients: set<int>, x: Session, es0: seq<Edit>) returns (es: seq<Edit>)
    requires Inv(s) && f in s.files && Pending(s, f, clients, x) && Lists(s, f, clients - {x.fd}, es0)
    ensures Lists(s, f, clients, es)
  {
    assert SessionOk(s, x);
    var c, others := EditOf(x), clients - {x.fd};
    forall i | 0 <= i < |es0|
      ensures (es0[i].start < c.start && es0[i].end <= c.start) || (c.start < es0[i].start && c.end <= es0[i].start)
    {
      HeldBeside(s, f, others, x, es0[i]);
    }
    var p := InsertInOrder(s.files[f].content, es0, c);
    es := es0[..p] + [c] + es0[p..];
    assert forall e :: e in es <==> e in es0 || e == c by {
      assert es0 == es0[..p] + es0[p..];
    }
    forall y | Pending(s, f, clients, y) && SessionOk(s, y)
      ensures EditOf(y) in es
    {
      if y != x {
        SameClientSameSession(s, x, y);
        assert Pending(s, f, others, y);
      }
    }
    forall e | e in es
      ensures Held(s, f, clients, e)
    {
      if e != c {
        HeldIn(s, f, others, clients, e);
      }
    }
  }

  // ---------- one commit ----------

  // The state after x has committed: its slice is replaced, and the other sessions have been adjusted.
  ghost predicate Committed(s: State, x: Session, s': State) {
    && SessionOk(s, x)
    && s'.files.Keys == s.files.Keys
    && s'.files[x.file].content == Apply(s.files[x.file].content, EditOf(x))
    && (forall y :: y in s.sessions && y.fd != x.fd ==> View(s, x, y) in s'.sessions && SessionOk(s', View(s, x, y)))
    && (forall z :: z in s'.sessions ==> exists y :: y in s.sessions && y.fd != x.fd && z == View(s, x, y))
  }

  lemma ViewIn(s: State, i: nat, y: Session)
    requires Inv(s) && i < |s.sessions| && FindSession(s.sessions, s.sessions[i].fd) == Some(i)
    requires y in s.sessions && y.fd != s.sessions[i].fd
    ensures var s' := CommitStep(s, Etirw(s.sessions[i].fd)).0;
            View(s, s.sessions[i], y) in s'.sessions && SessionOk(s', View(s, s.sessions[i], y))
  {
    CommitKeepsInv(s, i);
    var j :| 0 <= j < |s.sessions| && s.sessions[j] == y;
    CommitListHas(s, i, j);
    CommitKeepsSession(s, i, CommitStep(s, Etirw(s.sessions[i].fd)).0, y);
  }

  lemma ViewFrom(s: State, i: nat, z: Session) returns (y: Session)
    requires Inv(s) && i < |s.sessions|
    requires z in CommitSessions(s.sessions, i, s.files[s.sessions[i].file].content)
    ensures y in s.sessions && y.fd != s.sessions[i].fd && z == View(s, s.sessions[i], y)
  {
    var r := CommitSessions(s.sessions, i, s.files[s.sessions[i].file].content);
    CommitList(s, i);
    var j :| 0 <= j < |r| && r[j] == z;
    var k := if j < i then j else j + 1;
    y := s.sessions[k];
    assert if k < i then Apart(s.sessions[k], s.sessions[i]) else Apart(s.sessions[i], s.sessions[k]);
  }

  lemma CommitCommits(s: State, x: Session)
    requires Inv(s) && x in s.sessions
    ensures Inv(Step(s, Etirw(x.fd))) && Committed(s, x, Step(s, Etirw(x.fd)))
  {
    var s' := Step(s, Etirw(x.fd));
    FoundIs(s.sessions, x.fd, x);
    var i := FindSession(s.sessions, x.fd).value;
    CommitKeepsInv(s, i);
    forall y | y in s.sessions && y.fd != x.fd
      ensures View(s, x, y) in s'.sessions && SessionOk(s', View(s, x, y))
    {
      ViewIn(s, i, y);
    }
    forall z | z in s'.sessions
      ensures exists y :: y in s.sessions && y.fd != x.fd && z == View(s, x, y)
    {
      var y := ViewFrom(s, i, z);
    }
  }

  // The edit of a session that stays open: before x as it was, behind x shifted by the growth of x.
  lemma EditOfView(s: State, x: Session, y: Session, text: string, es: seq<Edit>, p: nat, q: nat)
    requires SessionOk(s, x) && SessionOk(s, y) && x.file == y.file && s.files[x.file].content == text
    requires InOrder(text, es) && p < |es| && q < |es| && p != q && es[p] == EditOf(x) && es[q] == EditOf(y)
    ensures var z := View(s, x, y);
            && 0 <= z.start <= z.end
            && EditOf(z) == Rest(text, es, p)[if q < p then q else q - 1]
  {}

  // Where the edit of another session goes when x commits.
  lemma HeldAfterCommit(s: State, clients: set<int>, es: seq<Edit>, x: Session, p: nat, q: nat, s': State, e: Edit)
    requires Inv(s) && Committed(s, x, s') && Pending(s, x.file, clients, x) && Lists(s, x.file, clients, es)
    requires p < |es| && es[p] == EditOf(x) && q < |es| && q != p
    requires e == Rest(s.files[x.file].content, es, p)[if q < p then q else q - 1]
    ensures Held(s', x.file, clients - {x.fd}, e)
  {
    var y := HolderOf(s, x.file, clients, es, q);
    DifferentEdits(s.files[x.file].content, es, p, q);
    SameClientSameSession(s, x, y);
    EditOfView(s, x, y, s.files[x.file].content, es, p, q);
    assert Pending(s', x.file, clients - {x.fd}, View(s, x, y));
  }

  lemma DifferentEdits(text: string, es: seq<Edit>, p: nat, q: nat)
    requires InOrder(text, es) && p < |es| && q < |es| && p != q
    ensures es[p] != es[q]
  {
    assert if p < q then es[p].start < es[q].start else es[q].start < es[p].start;
  }

  lemma HolderOf(s: State, f: FileId, clients: set<int>, es: seq<Edit>, q: nat) returns (y: Session)
    requires f in s.files && Lists(s, f, clients, es) && q < |es|
    ensures Pending(s, f, clients, y) && SessionOk(s, y) && EditOf(y) == es[q]
  {
    assert Held(s, f, clients, es[q]);
    y :| Pending(s, f, clients, y) && SessionOk(s, y) && EditOf(y) == es[q];
  }

  lemma SameClientSameSession(s: State, x: Session, y: Session)
    requires Inv(s) && x in s.sessions && y in s.sessions && x != y
    ensures x.fd != y.fd
  {
    var i :| 0 <= i < |s.sessions| && s.sessions[i] == x;
    var j :| 0 <= j < |s.sessions| && s.sessions[j] == y;
    assert if i < j then Apart(x, y) else Apart(y, x);
  }

  lemma PendingAfterCommit(s: State, clients: set<int>, es: seq<Edit>, x: Session, p: nat, s': State, z: Session)
    requires Inv(s) && Committed(s, x, s') && Pending(s, x.file, clients, x) && Lists(s, x.file, clients, es)
    requires p < |es| && es[p] == EditOf(x)
    requires Pending(s', x.file, clients - {x.fd}, z) && SessionOk(s', z)
    ensures EditOf(z) in Rest(s.files[x.file].content, es, p)
  {
    var y :| y in s.sessions && y.fd != x.fd && z == View(s, x, y);
    assert SessionOk(s, y) && Pending(s, x.file, clients, y);
    var q :| 0 <= q < |es| && es[q] == EditOf(y);
    PendingOrdered(s, x.file, x, y);
    EditOfView(s, x, y, s.files[x.file].content, es, p, q);
    assert Rest(s.files[x.file].content, es, p)[if q < p then q else q - 1] == EditOf(z);
  }

  lemma RestCovers(s: State, clients: set<int>, es: seq<Edit>, x: Session, p: nat, s': State)
    requires Inv(s) && Committed(s, x, s') && Pending(s, x.file, clients, x) && Lists(s, x.file, clients, es)
    requires p < |es| && es[p] == EditOf(x)
    ensures forall z :: Pending(s', x.file, clients - {x.fd}, z) && SessionOk(s', z) ==>
              EditOf(z) in Rest(s.files[x.file].content, es, p)
  {
    forall z | Pending(s', x.file, clients - {x.fd}, z) && SessionOk(s', z)
      ensures EditOf(z) in Rest(s.files[x.file].content, es, p)
    {
      PendingAfterCommit(s, clients, es, x, p, s', z);
    }
  }

  lemma RestHeld(s: State, clients: set<int>, es: seq<Edit>, x: Session, p: nat, s': State)
    requires Inv(s) && Committed(s, x, s') && Pending(s, x.file, clients, x) && Lists(s, x.file, clients, es)
    requires p < |es| && es[p] == EditOf(x)
    ensures forall e :: e in Rest(s.files[x.file].content, es, p) ==> Held(s', x.file, clients - {x.fd}, e)
  {
    var rest := Rest(s.files[x.file].content, es, p);
    forall e | e in rest
      ensures Held(s', x.file, clients - {x.fd}, e)
    {
      var j :| 0 <= j < |rest| && rest[j] == e;
      RestHeldAt(s, clients, es, x, p, s', j);
    }
  }

  lemma RestHeldAt(s: State, clients: set<int>, es: seq<Edit>, x: Session, p: nat, s': State, j: nat)
    requires Inv(s) && Committed(s, x, s') && Pending(s, x.file, clients, x) && Lists(s, x.file, clients, es)
    requires p < |es| && es[p] == EditOf(x) && j < |es| - 1
    ensures Held(s', x.file, clients - {x.fd}, Rest(s.files[x.file].content, es, p)[j])
  {
    var q := if j < p then j else j + 1;
    HeldAfterCommit(s, clients, es, x, p, q, s', Rest(s.files[x.file].content, es, p)[j]);
  }


  // Sorted pending edits, one of which commits: the others, shifted, are the pending edits that remain.
  lemma CommitRest(s: State, clients: set<int>, es: seq<Edit>, x: Session, p: nat, s': State)
    requires Inv(s) && Committed(s, x, s') && Pending(s, x.file, clients, x) && Lists(s, x.file, clients, es)
    requires p < |es| && es[p] == EditOf(x)
    ensures Lists(s', x.file, clients - {x.fd}, Rest(s.files[x.file].content, es, p))
  {
    RestInOrder(s.files[x.file].content, es, p);
    RestCovers(s, clients, es, x, p, s');
    RestHeld(s, clients, es, x, p, s');
  }

  // ---------- any order ----------

  ghost function Commits(s: State, order: seq<int>): State
    decreases |order|
  {
    if order == [] then s else Commits(Step(s, Etirw(order[0])), order[1..])
  }

  predicate NoRepeats(xs: seq<int>) {
    forall i, j :: 0 <= i < j < |xs| ==> xs[i] != xs[j]
  }

  function Elems(xs: seq<int>): set<int> {
    set x | x in xs
  }

  ghost predicate HasOpen(s: State, f: FileId, fd: int) {
    exists x :: x in s.sessions && x.file == f && x.fd == fd
  }

  // Each of these clients has a session open on the file.
  ghost predicate AllOpen(s: State, f: FileId, order: seq<int>) {
    forall i :: 0 <= i < |order| ==> HasOpen(s, f, order[i])
  }

  lemma OpenAfterCommit(s: State, f: FileId, fd: int, other: int)
    requires Inv(s) && fd != other && HasOpen(s, f, other)
    ensures HasOpen(Step(s, Etirw(fd)), f, other)
  {
    var x :| x in s.sessions && x.file == f && x.fd == other;
    var y := CommitKeepsOthers(s, Etirw(fd), x);
  }

  lemma ElemsTail(order: seq<int>)
    requires order != [] && NoRepeats(order)
    ensures NoRepeats(order[1..]) && Elems(order[1..]) == Elems(order) - {order[0]}
  {
    assert order == [order[0]] + order[1..];
    assert forall i :: 0 <= i < |order| - 1 ==> order[1..][i] == order[i + 1] != order[0];
  }

  lemma {:induction false} CommitsReplace(s: State, f: FileId, order: seq<int>, es: seq<Edit>)
    requires Inv(s) && f in s.files && NoRepeats(order) && AllOpen(s, f, order)
    requires Lists(s, f, Elems(order), es)
    ensures f in Commits(s, order).files
    ensures Commits(s, order).files[f].content == Replace(s.files[f].content, es)
    decreases |order|
  {
    if order == [] {
      assert es != [] ==> Held(s, f, Elems(order), es[0]);
    } else {
      var fd := order[0];
      assert HasOpen(s, f, fd);
      var x :| x in s.sessions && x.file == f && x.fd == fd;
      assert fd in Elems(order) && Pending(s, f, Elems(order), x) && SessionOk(s, x);
      var p :| 0 <= p < |es| && es[p] == EditOf(x);
      CommitCommits(s, x);
      CommitRest(s, Elems(order), es, x, p, Step(s, Etirw(fd)));
      ElemsTail(order);
      forall i | 0 <= i < |order| - 1
        ensures HasOpen(Step(s, Etirw(fd)), f, order[1..][i])
      {
        OpenAfterCommit(s, f, fd, order[i + 1]);
      }
      CommitsReplace(Step(s, Etirw(fd)), f, order[1..], Rest(s.files[f].content, es, p));
      ApplyAnyFirst(s.files[f].content, es, p);
    }
  }

  // The order of the commits does not matter.
  lemma CommitOrderIrrelevant(s: State, f: FileId, order: seq<int>, order': seq<int>)
    requires Inv(s) && f in s.files && AllOpen(s, f, order)
    requires NoRepeats(order) && NoRepeats(order') && Elems(order) == Elems(order')
    ensures f in Commits(s, order).files && f in Commits(s, order').files
    ensures Commits(s, order).files[f].content == Commits(s, order').files[f].content
  {
    var es := ListsExist(s, f, order);
    CommitsReplace(s, f, order, es);
    forall i | 0 <= i < |order'|
      ensures HasOpen(s, f, order'[i])
    {
      assert order'[i] in Elems(order);
      var j :| 0 <= j < |order| && order[j] == order'[i];
    }
    CommitsReplace(s, f, order', es);
  }
}
