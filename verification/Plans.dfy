/** The plans that MOVE and DELETE make of the table before they change it, and how carrying a plan out entry by
    entry reaches the table as a whole. */
module Plans {
  import opened Wrappers
  import opened Namespace
  import opened Directory

  // The positions of the selected records among the first n, in table order.
  function Positions(fs: seq<Meta>, n: nat, src: string, whole: bool): (ps: seq<nat>)
    requires n <= |fs|
    ensures forall j :: 0 <= j < |ps| ==> ps[j] < n && Selected(fs[ps[j]], src, whole)
  {
    if n == 0 then []
    else if Selected(fs[n - 1], src, whole) then Positions(fs, n - 1, src, whole) + [n - 1]
    else Positions(fs, n - 1, src, whole)
  }

  predicate Ascending(ps: seq<nat>) {
    forall i, j :: 0 <= i < j < |ps| ==> ps[i] < ps[j]
  }

  lemma {:induction false} PositionsAscend(fs: seq<Meta>, n: nat, src: string, whole: bool)
    requires n <= |fs|
    ensures Ascending(Positions(fs, n, src, whole))
  {
    if n > 0 {
      PositionsAscend(fs, n - 1, src, whole);
    }
  }

  lemma {:induction false} PositionsHaveAll(fs: seq<Meta>, n: nat, src: string, whole: bool, i: nat)
    requires i < n <= |fs| && Selected(fs[i], src, whole)
    ensures i in Positions(fs, n, src, whole)
  {
    if i < n - 1 {
      PositionsHaveAll(fs, n - 1, src, whole, i);
    }
  }

  lemma InPlan(fs: seq<Meta>, src: string, whole: bool, i: nat)
    requires i < |fs|
    ensures Selected(fs[i], src, whole) ==> i in Positions(fs, |fs|, src, whole)
  {
    if Selected(fs[i], src, whole) {
      PositionsHaveAll(fs, |fs|, src, whole, i);
    }
  }

  // How far the table has been treated when the plan has been carried out up to entry j.
  function Reached(ps: seq<nat>, j: nat, end: nat): nat
    requires j <= |ps|
  {
    if j < |ps| then ps[j] else end
  }

  lemma MovedSkip(fs: seq<Meta>, a: nat, b: nat, src: string, whole: bool, root: string, user: string, now: int)
    requires a <= b <= |fs| && forall i :: a <= i < b ==> !Selected(fs[i], src, whole)
    ensures Moved(fs, a, src, whole, root, user, now) == Moved(fs, b, src, whole, root, user, now)
  {}

  // The first entry of the plan: nothing before it is selected.
  lemma MovedStart(fs: seq<Meta>, src: string, whole: bool, root: string, user: string, now: int)
    ensures var ps := Positions(fs, |fs|, src, whole);
            Moved(fs, Reached(ps, 0, |fs|), src, whole, root, user, now) == fs
  {
    var ps := Positions(fs, |fs|, src, whole);
    var n := Reached(ps, 0, |fs|);
    PositionsAscend(fs, |fs|, src, whole);
    forall i | 0 <= i < n
      ensures !Selected(fs[i], src, whole)
    {
      NoPlanBefore(ps, i, |fs|);
      InPlan(fs, src, whole, i);
    }
  }

  lemma NoPlanBefore(ps: seq<nat>, i: nat, end: nat)
    requires Ascending(ps)
    requires i < Reached(ps, 0, end)
    ensures i !in ps
  {
    forall k | 0 <= k < |ps|
      ensures ps[k] != i
    {
      assert k > 0 ==> ps[0] < ps[k];
    }
  }

  // Entry j of the plan is still found under its old name, in its old place, and its new name is free.
  lemma MovedFinds(fs: seq<Meta>, j: nat, src: string, whole: bool, root: string, user: string, now: int)
    requires DistinctNames(fs) && NoCollision(fs, src, whole, root) && j < |Positions(fs, |fs|, src, whole)|
    ensures var p := Positions(fs, |fs|, src, whole)[j];
            var r := Moved(fs, p, src, whole, root, user, now);
            Find(r, fs[p].name) == Some(p) && r[p] == fs[p] && Find(r, NewName(fs[p].name, src, root)).None?
  {
    var p := Positions(fs, |fs|, src, whole)[j];
    var r := Moved(fs, p, src, whole, root, user, now);
    MovedDistinct(fs, p, src, whole, root, user, now);
    FindIs(r, fs[p].name, p);
    forall k | 0 <= k < |r|
      ensures r[k].name != NewName(fs[p].name, src, root)
    {
      if k < p && Selected(fs[k], src, whole) && r[k].name == NewName(fs[p].name, src, root) {
        NewNameInjective(fs[k].name, fs[p].name, src, root);
      }
    }
  }

  // Once it has been renamed, the table is treated up to the next entry.
  lemma MovedNext(fs: seq<Meta>, j: nat, src: string, whole: bool, root: string, user: string, now: int)
    requires j < |Positions(fs, |fs|, src, whole)|
    ensures var ps := Positions(fs, |fs|, src, whole);
            var p := ps[j];
            Moved(fs, p, src, whole, root, user, now)[p := RenamedMeta(fs[p], src, root, user, now)]
            == Moved(fs, Reached(ps, j + 1, |fs|), src, whole, root, user, now)
  {
    var ps := Positions(fs, |fs|, src, whole);
    var p, q := ps[j], Reached(ps, j + 1, |fs|);
    PositionsAscend(fs, |fs|, src, whole);
    forall i | p < i < q
      ensures !Selected(fs[i], src, whole)
    {
      NoPlanBetween(ps, j, i, |fs|);
      InPlan(fs, src, whole, i);
    }
    MovedSkip(fs, p + 1, q, src, whole, root, user, now);
  }

  lemma NoPlanBetween(ps: seq<nat>, j: nat, i: nat, end: nat)
    requires Ascending(ps)
    requires j < |ps| && ps[j] < i < Reached(ps, j + 1, end)
    ensures i !in ps
  {
    forall k | 0 <= k < |ps|
      ensures ps[k] != i
    {
      assert k < j ==> ps[k] < ps[j];
      assert k > j + 1 ==> ps[j + 1] < ps[k];
    }
  }

  // ---------- MOVE ----------

  datatype MoveEntry = MoveEntry(oldPath: string, newPath: string)

  // The plan names the selected records and their new paths, in table order.
  predicate IsMovePlan(plan: seq<MoveEntry>, fs: seq<Meta>, n: nat, src: string, whole: bool, root: string)
    requires n <= |fs|
  {
    var ps := Positions(fs, n, src, whole);
    |plan| == |ps| && forall j :: 0 <= j < |plan| ==>
      plan[j] == MoveEntry(fs[ps[j]].name, NewName(fs[ps[j]].name, src, root))
  }

  // One turn of the planning loop: a refused entry decides the whole scan, any other extends the plan.
  lemma PlanStep(fs: seq<Meta>, ss: seq<ServerInfo>, i: nat, plan: seq<MoveEntry>, src: string, whole: bool, root: string,
                 user: string)
    requires i < |fs| && PlanRefusal(fs, ss, i, src, whole, root, user).None? && IsMovePlan(plan, fs, i, src, whole, root)
    ensures !Selected(fs[i], src, whole) ==>
      PlanRefusal(fs, ss, i + 1, src, whole, root, user).None? && IsMovePlan(plan, fs, i + 1, src, whole, root)
    ensures Selected(fs[i], src, whole) ==>
      var refusal := EntryRefusal(fs, ss, fs[i], src, root, user);
      if refusal.Some? then PlanRefusal(fs, ss, |fs|, src, whole, root, user) == refusal
      else
        && PlanRefusal(fs, ss, i + 1, src, whole, root, user).None?
        && IsMovePlan(plan + [MoveEntry(fs[i].name, NewName(fs[i].name, src, root))], fs, i + 1, src, whole, root)
  {
    if Selected(fs[i], src, whole) && EntryRefusal(fs, ss, fs[i], src, root, user).Some? {
      PlanKeeps(fs, ss, i + 1, |fs|, src, whole, root, user);
    }
  }

  lemma {:induction false} PlanKeeps(fs: seq<Meta>, ss: seq<ServerInfo>, a: nat, b: nat, src: string, whole: bool,
                                     root: string, user: string)
    requires a <= b <= |fs| && PlanRefusal(fs, ss, a, src, whole, root, user).Some?
    ensures PlanRefusal(fs, ss, b, src, whole, root, user) == PlanRefusal(fs, ss, a, src, whole, root, user)
  {
    if a < b {
      PlanKeeps(fs, ss, a, b - 1, src, whole, root, user);
    }
  }

  // ---------- DELETE ----------

  // A plan entry keeps the path, the size and the server found when the plan was made.
  datatype DeleteEntry = DeleteEntry(path: string, size: int, home: Option<nat>)

  function EntryOf(m: Meta, ss: seq<ServerInfo>): DeleteEntry {
    DeleteEntry(m.name, BytesOf(m), if m.isDirectory then None else FindServer(ss, m.ip, m.port))
  }

  predicate IsDeletePlan(plan: seq<DeleteEntry>, fs: seq<Meta>, ss: seq<ServerInfo>, n: nat, target: string, whole: bool)
    requires n <= |fs|
  {
    var ps := Positions(fs, n, target, whole);
    |plan| == |ps| && forall j :: 0 <= j < |plan| ==> plan[j] == EntryOf(fs[ps[j]], ss)
  }

  lemma DeletePlanStep(fs: seq<Meta>, ss: seq<ServerInfo>, i: nat, plan: seq<DeleteEntry>, target: string, whole: bool,
                       user: string)
    requires i < |fs| && DeletePlanRefusal(fs, ss, i, target, whole, user).None?
    requires IsDeletePlan(plan, fs, ss, i, target, whole)
    ensures !Selected(fs[i], target, whole) ==>
      DeletePlanRefusal(fs, ss, i + 1, target, whole, user).None? && IsDeletePlan(plan, fs, ss, i + 1, target, whole)
    ensures Selected(fs[i], target, whole) ==>
      var refusal := DeleteEntryRefusal(ss, fs[i], user);
      if refusal.Some? then DeletePlanRefusal(fs, ss, |fs|, target, whole, user) == refusal
      else
        && DeletePlanRefusal(fs, ss, i + 1, target, whole, user).None?
        && IsDeletePlan(plan + [EntryOf(fs[i], ss)], fs, ss, i + 1, target, whole)
  {
    if Selected(fs[i], target, whole) && DeleteEntryRefusal(ss, fs[i], user).Some? {
      DeletePlanKeeps(fs, ss, i + 1, |fs|, target, whole, user);
    }
  }

  lemma {:induction false} DeletePlanKeeps(fs: seq<Meta>, ss: seq<ServerInfo>, a: nat, b: nat, target: string, whole: bool,
                                           user: string)
    requires a <= b <= |fs| && DeletePlanRefusal(fs, ss, a, target, whole, user).Some?
    ensures DeletePlanRefusal(fs, ss, b, target, whole, user) == DeletePlanRefusal(fs, ss, a, target, whole, user)
  {
    if a < b {
      DeletePlanKeeps(fs, ss, a, b - 1, target, whole, user);
    }
  }

  lemma PlanPathsDistinct(plan: seq<DeleteEntry>, fs: seq<Meta>, ss: seq<ServerInfo>, target: string, whole: bool)
    requires DistinctNames(fs) && IsDeletePlan(plan, fs, ss, |fs|, target, whole)
    ensures DistinctPaths(plan)
  {
    PositionsAscend(fs, |fs|, target, whole);
  }

  predicate DistinctPaths(plan: seq<DeleteEntry>) {
    forall i, j :: 0 <= i < j < |plan| ==> plan[i].path != plan[j].path
  }

  function CountTrue(flags: seq<bool>): (n: nat)
    ensures n <= |flags|
    ensures n == |flags| ==> forall i :: 0 <= i < |flags| ==> flags[i]
  {
    if flags == [] then 0 else CountTrue(flags[..|flags| - 1]) + (if flags[|flags| - 1] then 1 else 0)
  }

  lemma {:induction false} CountFlag(flags: seq<bool>, i: nat)
    requires i < |flags| && !flags[i]
    ensures CountTrue(flags[i := true]) == CountTrue(flags) + 1
  {
    var init := flags[..|flags| - 1];
    if i == |flags| - 1 {
      assert flags[i := true][..|flags| - 1] == init;
    } else {
      assert flags[i := true][..|flags| - 1] == init[i := true];
      CountFlag(init, i);
    }
  }

  lemma SomeLeft(flags: seq<bool>)
    requires CountTrue(flags) < |flags|
    ensures exists i :: 0 <= i < |flags| && !flags[i]
  {
    AllTrue(flags);
  }

  lemma {:induction false} AllTrue(flags: seq<bool>)
    ensures (forall i :: 0 <= i < |flags| ==> flags[i]) ==> CountTrue(flags) == |flags|
  {
    if flags != [] {
      AllTrue(flags[..|flags| - 1]);
    }
  }

  // The removal loop part way: order lists the flagged entries, none of them shorter than an unflagged one.
  ghost predicate Ordered(plan: seq<DeleteEntry>, flags: seq<bool>, order: seq<string>) {
    && |flags| == |plan| && CountTrue(flags) == |order|
    && (forall j :: 0 <= j < |plan| ==> (flags[j] <==> plan[j].path in order))
    && (forall n :: n in order ==> exists j :: 0 <= j < |plan| && plan[j].path == n)
    && (forall i, j :: 0 <= i < j < |order| ==> order[i] != order[j] && |order[i]| >= |order[j]|)
    && (forall i, j :: 0 <= i < |order| && 0 <= j < |plan| && !flags[j] ==> |order[i]| >= |plan[j].path|)
  }

  lemma OrderedStart(plan: seq<DeleteEntry>, flags: seq<bool>)
    requires |flags| == |plan| && forall i :: 0 <= i < |flags| ==> !flags[i]
    ensures Ordered(plan, flags, [])
  {
    NoneTrue(flags);
  }

  lemma {:induction false} NoneTrue(flags: seq<bool>)
    requires forall i :: 0 <= i < |flags| ==> !flags[i]
    ensures CountTrue(flags) == 0
  {
    if flags != [] {
      NoneTrue(flags[..|flags| - 1]);
    }
  }

  lemma OrderedStep(plan: seq<DeleteEntry>, flags: seq<bool>, order: seq<string>, best: nat)
    requires Ordered(plan, flags, order) && DistinctPaths(plan) && best < |plan| && !flags[best]
    requires forall j :: 0 <= j < |plan| && !flags[j] ==> |plan[j].path| <= |plan[best].path|
    ensures Ordered(plan, flags[best := true], order + [plan[best].path])
  {
    CountFlag(flags, best);
  }

  // With every entry flagged the order is one that DELETE may follow.
  lemma OrderedDone(plan: seq<DeleteEntry>, flags: seq<bool>, order: seq<string>, fs: seq<Meta>, ss: seq<ServerInfo>,
                    target: string, whole: bool)
    requires DistinctNames(fs) && IsDeletePlan(plan, fs, ss, |fs|, target, whole)
    requires Ordered(plan, flags, order) && |order| == |plan|
    ensures DeletionOrder(order, fs, target, whole)
  {
    var ps := Positions(fs, |fs|, target, whole);
    forall n | n in order
      ensures Find(fs, n).Some? && Selected(fs[Find(fs, n).value], target, whole)
    {
      var j :| 0 <= j < |plan| && plan[j].path == n;
      FindIs(fs, n, ps[j]);
    }
    forall i | 0 <= i < |fs| && Selected(fs[i], target, whole)
      ensures fs[i].name in order
    {
      InPlan(fs, target, whole, i);
      var j :| 0 <= j < |ps| && ps[j] == i;
      assert plan[j].path == fs[i].name;
    }
  }

  predicate SameAddresses(a: seq<ServerInfo>, b: seq<ServerInfo>) {
    |a| == |b| && forall i :: 0 <= i < |a| ==> a[i].ip == b[i].ip && a[i].port == b[i].port && a[i].alive == b[i].alive
  }

  lemma {:induction false} SameFind(a: seq<ServerInfo>, b: seq<ServerInfo>, ip: string, port: int)
    requires SameAddresses(a, b)
    ensures FindServer(a, ip, port) == FindServer(b, ip, port)
  {
    if a != [] {
      SameFind(a[..|a| - 1], b[..|b| - 1], ip, port);
    }
  }

  lemma {:induction false} RemoveAllAddresses(s: State, order: seq<string>)
    ensures SameAddresses(RemoveAll(s, order).servers, s.servers)
  {
    if order != [] {
      RemoveAllAddresses(s, order[..|order| - 1]);
    }
  }

  // An entry that has not been carried out still describes a record of the table and the server of that record.
  lemma PlanStillTrue(s: State, plan: seq<DeleteEntry>, target: string, whole: bool, order: seq<string>, j: nat)
    requires DistinctNames(s.files) && IsDeletePlan(plan, s.files, s.servers, |s.files|, target, whole)
    requires j < |plan| && plan[j].path !in order
    ensures var r := RemoveAll(s, order);
            var i := Find(r.files, plan[j].path);
            i.Some? && plan[j] == EntryOf(r.files[i.value], r.servers)
  {
    var m := s.files[Positions(s.files, |s.files|, target, whole)[j]];
    StillThere(s, order, m);
    RemoveAllAddresses(s, order);
    SameFind(RemoveAll(s, order).servers, s.servers, m.ip, m.port);
  }
}
