/** The 64-entry lookup cache of the name server. It maps names to table slots; a hit is not checked against the
    name stored in the slot, so that agreement is an invariant. It refines a least-recently-used list. */
module FileCache {
  import opened Wrappers
  import opened Namespace

  const CACHE_SIZE: nat := 64

  datatype Entry = Entry(name: string, slot: nat, valid: bool, lastUsed: nat)

  // ---------- the entries as a sequence ----------

  // Each valid entry points at the slot that holds its name.
  predicate Sound(es: seq<Entry>, fs: seq<Meta>) {
    forall i :: 0 <= i < |es| && es[i].valid ==> es[i].slot < |fs| && fs[es[i].slot].name == es[i].name
  }

  // No name is cached twice, no stamp is used twice, and no stamp lies in the future.
  predicate Stamped(es: seq<Entry>, tick: nat) {
    && (forall i :: 0 <= i < |es| && es[i].valid ==> es[i].lastUsed <= tick)
    && (forall i, j :: 0 <= i < j < |es| && es[i].valid && es[j].valid ==>
          es[i].name != es[j].name && es[i].lastUsed != es[j].lastUsed)
  }

  // The position of the valid entry for a name.
  function Position(es: seq<Entry>, name: string): (r: Option<nat>)
    ensures r.Some? ==> r.value < |es| && es[r.value].valid && es[r.value].name == name
    ensures forall i :: 0 <= i < (if r.Some? then r.value else |es|) ==> !(es[i].valid && es[i].name == name)
  {
    if es == [] then None
    else if Position(es[..|es| - 1], name).Some? then Position(es[..|es| - 1], name)
    else if es[|es| - 1].valid && es[|es| - 1].name == name then Some(|es| - 1)
    else None
  }

  lemma PositionIs(es: seq<Entry>, tick: nat, i: nat)
    requires Stamped(es, tick) && i < |es| && es[i].valid
    ensures Position(es, es[i].name) == Some(i)
  {
    assert Position(es, es[i].name).Some?;
  }

  lemma AllPositions(es: seq<Entry>, tick: nat)
    requires Stamped(es, tick)
    ensures forall i :: 0 <= i < |es| && es[i].valid ==> Position(es, es[i].name) == Some(i)
  {
    forall i | 0 <= i < |es| && es[i].valid
      ensures Position(es, es[i].name) == Some(i)
    {
      PositionIs(es, tick, i);
    }
  }

  // ---------- the list that the cache refines ----------

  // The names in the cache, most recently used first.
  ghost predicate Recency(es: seq<Entry>, order: seq<string>) {
    && (forall n :: n in order ==> Position(es, n).Some?)
    && (forall i :: 0 <= i < |es| && es[i].valid ==> es[i].name in order)
    && Descending(es, order)
  }

  ghost predicate Descending(es: seq<Entry>, order: seq<string>) {
    forall i, j :: 0 <= i < j < |order| ==> Newer(es, order[i], order[j])
  }

  ghost predicate Newer(es: seq<Entry>, a: string, b: string) {
    var p, q := Position(es, a), Position(es, b);
    p.Some? && q.Some? && es[p.value].lastUsed > es[q.value].lastUsed
  }

  function Without(order: seq<string>, name: string): (r: seq<string>)
    ensures forall n :: n in r <==> n in order && n != name
  {
    if order == [] then []
    else if order[|order| - 1] == name then Without(order[..|order| - 1], name)
    else Without(order[..|order| - 1], name) + [order[|order| - 1]]
  }

  predicate Full(es: seq<Entry>) {
    forall i :: 0 <= i < |es| ==> es[i].valid
  }

  // Using a name moves it to the front; storing a new one into a full cache drops the last.
  function Use(order: seq<string>, name: string, full: bool): seq<string> {
    if name in order then [name] + Without(order, name)
    else if full && order != [] then [name] + order[..|order| - 1]
    else [name] + order
  }

  lemma {:induction false} WithoutKeepsOrder(es: seq<Entry>, order: seq<string>, name: string)
    requires Descending(es, order)
    ensures Descending(es, Without(order, name))
  {
    if order != [] {
      var init, last := order[..|order| - 1], order[|order| - 1];
      WithoutKeepsOrder(es, init, name);
      if last != name {
        forall n | n in Without(init, name)
          ensures Newer(es, n, last)
        {
          var j :| 0 <= j < |init| && init[j] == n;
          assert Newer(es, order[j], order[|order| - 1]);
        }
        DescendingSnoc(es, Without(init, name), last);
      }
    }
  }

  lemma DescendingSnoc(es: seq<Entry>, order: seq<string>, last: string)
    requires Descending(es, order) && forall n :: n in order ==> Newer(es, n, last)
    ensures Descending(es, order + [last])
  {}

  // A name used just now: entry p gets it with a fresh stamp, all other entries of other names stay.
  ghost predicate Freshened(es: seq<Entry>, es': seq<Entry>, p: nat, name: string, tick: nat) {
    && |es| == |es'| && p < |es|
    && es'[p].valid && es'[p].name == name && es'[p].lastUsed > tick
    && (forall i :: 0 <= i < |es| && i != p ==> es'[i] == es[i] && !(es[i].valid && es[i].name == name))
  }

  lemma FreshenedStamped(es: seq<Entry>, es': seq<Entry>, p: nat, name: string, tick: nat)
    requires Stamped(es, tick) && Freshened(es, es', p, name, tick)
    ensures Stamped(es', es'[p].lastUsed)
    ensures Position(es', name) == Some(p)
    ensures forall n :: n != name && !(es[p].valid && es[p].name == n) ==> Position(es', n) == Position(es, n)
  {
    PositionIs(es', es'[p].lastUsed, p);
    forall n | n != name && !(es[p].valid && es[p].name == n)
      ensures Position(es', n) == Position(es, n)
    {
      if Position(es, n).Some? {
        PositionIs(es', es'[p].lastUsed, Position(es, n).value);
      }
    }
  }

  // A list of other names, each found where it was before, to which the name just used is put in front.
  lemma PutInFront(es: seq<Entry>, es': seq<Entry>, p: nat, name: string, tick: nat, tail: seq<string>)
    requires Stamped(es, tick) && Freshened(es, es', p, name, tick)
    requires forall n :: n in tail ==> n != name && Position(es, n).Some? && !(es[p].valid && es[p].name == n)
    requires forall i :: 0 <= i < |es| && i != p && es[i].valid ==> es[i].name in tail
    requires Descending(es, tail)
    ensures Recency(es', [name] + tail)
  {
    forall n | n in tail
      ensures TailKept(es, es', name, n)
    {
      KeptInTail(es, es', p, name, tick, n);
    }
    DescendingSame(es, es', tail);
    DescendingCons(es', name, tail);
    FreshenedStamped(es, es', p, name, tick);
    forall i | 0 <= i < |es'| && es'[i].valid
      ensures es'[i].name in [name] + tail
    {
      assert i != p ==> es'[i] == es[i];
    }
  }

  // Another cached name is found where it was, with its old stamp, older than the name just used.
  ghost predicate TailKept(es: seq<Entry>, es': seq<Entry>, name: string, n: string) {
    var q := Position(es, n);
    && q.Some? && Position(es', n) == q && q.value < |es'|
    && es'[q.value].lastUsed == es[q.value].lastUsed && Newer(es', name, n)
  }

  lemma KeptInTail(es: seq<Entry>, es': seq<Entry>, p: nat, name: string, tick: nat, n: string)
    requires Stamped(es, tick) && Freshened(es, es', p, name, tick)
    requires n != name && Position(es, n).Some? && !(es[p].valid && es[p].name == n)
    ensures TailKept(es, es', name, n)
  {
    FreshenedStamped(es, es', p, name, tick);
  }

  lemma DescendingSame(es: seq<Entry>, es': seq<Entry>, order: seq<string>)
    requires Descending(es, order) && |es| == |es'|
    requires forall n :: n in order ==>
      Position(es, n).Some? && Position(es', n) == Position(es, n)
      && es'[Position(es, n).value].lastUsed == es[Position(es, n).value].lastUsed
    ensures Descending(es', order)
  {
    forall i, j | 0 <= i < j < |order|
      ensures Newer(es', order[i], order[j])
    {
      assert Newer(es, order[i], order[j]) && order[i] in order && order[j] in order;
    }
  }

  lemma DescendingCons(es: seq<Entry>, first: string, order: seq<string>)
    requires Descending(es, order) && forall n :: n in order ==> Newer(es, first, n)
    ensures Descending(es, [first] + order)
  {
    var r := [first] + order;
    forall i, j | 0 <= i < j < |r|
      ensures Newer(es, r[i], r[j])
    {
      assert r[j] == order[j - 1] && r[j] in order;
      if i > 0 {
        assert r[i] == order[i - 1] && Newer(es, order[i - 1], order[j - 1]);
      }
    }
  }

  // A name that is in the cache already moves to the front.
  lemma UseCached(es: seq<Entry>, es': seq<Entry>, p: nat, name: string, tick: nat, order: seq<string>)
    requires Stamped(es, tick) && Freshened(es, es', p, name, tick) && Recency(es, order)
    requires es[p].valid && es[p].name == name
    ensures Recency(es', Use(order, name, Full(es)))
  {
    WithoutKeepsOrder(es, order, name);
    PutInFront(es, es', p, name, tick, Without(order, name));
  }

  lemma NotCached(es: seq<Entry>, es': seq<Entry>, p: nat, name: string, tick: nat, order: seq<string>)
    requires Freshened(es, es', p, name, tick) && Recency(es, order) && !(es[p].valid && es[p].name == name)
    ensures name !in order
  {
    assert Position(es, name).None?;
  }

  // A new name takes a free entry.
  lemma UseFree(es: seq<Entry>, es': seq<Entry>, p: nat, name: string, tick: nat, order: seq<string>)
    requires Stamped(es, tick) && Freshened(es, es', p, name, tick) && Recency(es, order)
    requires !es[p].valid
    ensures Recency(es', Use(order, name, Full(es)))
  {
    NotCached(es, es', p, name, tick, order);
    PutInFront(es, es', p, name, tick, order);
  }

  // In a full cache a new name takes the entry with the smallest stamp, and that is the last name of the list.
  lemma UseOldest(es: seq<Entry>, es': seq<Entry>, p: nat, name: string, tick: nat, order: seq<string>)
    requires Stamped(es, tick) && Freshened(es, es', p, name, tick) && Recency(es, order)
    requires es[p].name != name && Full(es) && forall i :: 0 <= i < |es| ==> es[p].lastUsed <= es[i].lastUsed
    ensures order != [] && order[|order| - 1] == es[p].name
    ensures Recency(es', Use(order, name, Full(es)))
  {
    NotCached(es, es', p, name, tick, order);
    PositionIs(es, tick, p);
    OldestIsLast(es, tick, p, order);
    var init := order[..|order| - 1];
    assert order == init + [es[p].name];
    forall n | n in init
      ensures n != es[p].name
    {
      var j :| 0 <= j < |init| && init[j] == n;
      assert Newer(es, order[j], order[|order| - 1]);
    }
    forall i | 0 <= i < |es| && i != p
      ensures es[i].name in init
    {
      assert es[i].name in order;
      assert es[i].name != es[p].name;
    }
    PutInFront(es, es', p, name, tick, init);
  }

  lemma OldestIsLast(es: seq<Entry>, tick: nat, p: nat, order: seq<string>)
    requires Stamped(es, tick) && Recency(es, order) && Full(es)
    requires p < |es| && forall i :: 0 <= i < |es| ==> es[p].lastUsed <= es[i].lastUsed
    ensures order != [] && order[|order| - 1] == es[p].name
  {
    PositionIs(es, tick, p);
    assert es[p].name in order;
    var k :| 0 <= k < |order| && order[k] == es[p].name;
    var last := order[|order| - 1];
    assert k < |order| - 1 ==> Newer(es, order[k], order[|order| - 1]);
  }

  // ---------- the cache ----------

  class Cache {
    const entries: array<Entry>
    var tick: nat

    ghost predicate Valid()
      reads this, entries
    {
      entries.Length == CACHE_SIZE && Stamped(entries[..], tick)
    }

    constructor ()
      ensures Valid() && fresh(entries) && forall i :: 0 <= i < CACHE_SIZE ==> !entries[i].valid
    {
      entries := new Entry[CACHE_SIZE](_ => Entry("", 0, false, 0));
      tick := 0;
    }

    // Gives entry i to a name, with the next stamp.
    method Assign(i: nat, name: string, slot: nat)
      requires Valid() && i < CACHE_SIZE
      requires forall j :: 0 <= j < CACHE_SIZE && j != i ==> !(entries[j].valid && entries[j].name == name)
      modifies this, entries
      ensures Valid() && tick == old(tick) + 1
      ensures entries[..] == old(entries[..])[i := Entry(name, slot, true, tick)]
      ensures Freshened(old(entries[..]), entries[..], i, name, old(tick))
    {
      ghost var before := entries[..];
      tick := tick + 1;
      entries[i] := Entry(name, slot, true, tick);
      FreshenedStamped(before, entries[..], i, name, tick - 1);
    }

    // file_cache_lookup: a hit gets a fresh stamp. (An entry whose slot lies beyond the table would be dropped;
    // no entry of a sound cache does.)
    method Lookup(name: string, ghost fs: seq<Meta>, count: nat) returns (slot: Option<nat>)
      requires Valid() && Sound(entries[..], fs) && count == |fs|
      modifies this, entries
      ensures Valid() && Sound(entries[..], fs)
      ensures slot.Some? <==> Position(old(entries[..]), name).Some?
      ensures slot.Some? ==> slot.value < |fs| && fs[slot.value].name == name
      ensures slot.None? ==> entries[..] == old(entries[..]) && tick == old(tick)
      ensures slot.Some? ==> forall order :: Recency(old(entries[..]), order) ==>
                Recency(entries[..], Use(order, name, Full(old(entries[..]))))
    {
      ghost var before := entries[..];
      var i := 0;
      while i < CACHE_SIZE
        invariant 0 <= i <= CACHE_SIZE && entries[..] == before && tick == old(tick)
        invariant forall j :: 0 <= j < i ==> !(before[j].valid && before[j].name == name)
      {
        if entries[i].valid && entries[i].name == name {
          assert before[i].slot < |fs|;
          Assign(i, name, entries[i].slot);
          forall order | Recency(before, order)
            ensures Recency(entries[..], Use(order, name, Full(before)))
          {
            UseCached(before, entries[..], i, name, old(tick), order);
          }
          return Some(entries[i].slot);
        }
        i := i + 1;
      }
      return None;
    }

    // file_cache_store: the name's own entry, else the first free one, else the one with the smallest stamp.
    method Store(name: string, slot: nat, ghost fs: seq<Meta>)
      requires Valid() && Sound(entries[..], fs) && slot < |fs| && fs[slot].name == name
      modifies this, entries
      ensures Valid() && Sound(entries[..], fs)
      ensures Position(entries[..], name).Some? && entries[Position(entries[..], name).value].slot == slot
      ensures forall order :: Recency(old(entries[..]), order) ==>
                Recency(entries[..], Use(order, name, Full(old(entries[..]))))
    {
      ghost var before := entries[..];
      var target := 0;
      while target < CACHE_SIZE && !(entries[target].valid && entries[target].name == name)
        invariant 0 <= target <= CACHE_SIZE
        invariant forall j :: 0 <= j < target ==> !(before[j].valid && before[j].name == name)
      {
        target := target + 1;
      }
      if target < CACHE_SIZE {
        Assign(target, name, slot);
        forall order | Recency(before, order)
          ensures Recency(entries[..], Use(order, name, Full(before)))
        {
          UseCached(before, entries[..], target, name, old(tick), order);
        }
        PositionIs(entries[..], tick, target);
        return;
      }
      target := 0;
      while target < CACHE_SIZE && entries[target].valid
        invariant 0 <= target <= CACHE_SIZE
        invariant forall j :: 0 <= j < target ==> before[j].valid
      {
        target := target + 1;
      }
      if target < CACHE_SIZE {
        Assign(target, name, slot);
        forall order | Recency(before, order)
          ensures Recency(entries[..], Use(order, name, Full(before)))
        {
          UseFree(before, entries[..], target, name, old(tick), order);
        }
        PositionIs(entries[..], tick, target);
        return;
      }
      target := Oldest();
      Assign(target, name, slot);
      forall order | Recency(before, order)
        ensures Recency(entries[..], Use(order, name, Full(before)))
      {
        UseOldest(before, entries[..], target, name, old(tick), order);
      }
      PositionIs(entries[..], tick, target);
    }

    // The scan for the smallest stamp.
    method Oldest() returns (oldest: nat)
      requires Valid()
      ensures oldest < CACHE_SIZE && forall i :: 0 <= i < CACHE_SIZE ==> entries[oldest].lastUsed <= entries[i].lastUsed
    {
      oldest := 0;
      for i := 1 to CACHE_SIZE
        invariant oldest < CACHE_SIZE && forall j :: 0 <= j < i ==> entries[oldest].lastUsed <= entries[j].lastUsed
      {
        if entries[i].lastUsed < entries[oldest].lastUsed {
          oldest := i;
        }
      }
    }

    // file_cache_rename: the table has a new name in this slot.
    method Rename(oldName: string, newName: string, slot: nat, ghost fs: seq<Meta>, ghost fs': seq<Meta>)
      requires Valid() && Sound(entries[..], fs) && Find(fs, newName).None? && DistinctNames(fs)
      requires slot < |fs| == |fs'| && fs[slot].name == oldName && fs'[slot].name == newName
      requires forall i :: 0 <= i < |fs| && i != slot ==> fs'[i] == fs[i]
      modifies this, entries
      ensures Valid() && Sound(entries[..], fs')
      ensures forall order :: Recency(old(entries[..]), order) ==> Recency(entries[..], UseAs(order, oldName, newName))
    {
      ghost var before, hit := entries[..], None;
      Unused(before, fs, newName);
      for i := 0 to CACHE_SIZE
        invariant Valid() && hit == (if hit.Some? then Position(before, oldName) else None)
        invariant hit.Some? ==> hit.value < i && Freshened(before, entries[..], hit.value, newName, old(tick))
                                && entries[hit.value].slot == slot
        invariant hit.None? ==> entries[..] == before && tick == old(tick)
        invariant hit.None? ==> forall j :: 0 <= j < i ==> !(before[j].valid && before[j].name == oldName)
      {
        if entries[i].valid && entries[i].name == oldName {
          OnlyAt(before, entries[..], old(tick), i, oldName, newName, hit);
          PositionIs(before, tick, i);
          Assign(i, newName, slot);
          hit := Some(i);
        }
      }
      RenamedSound(before, entries[..], old(tick), oldName, newName, slot, fs, fs', hit);
      forall order | Recency(before, order)
        ensures Recency(entries[..], UseAs(order, oldName, newName))
      {
        RenamedUses(before, entries[..], old(tick), oldName, newName, order, hit);
      }
    }

    // The cache part of remove_file_metadata_locked: the record in this slot is gone, the last one has moved in.
    method Drop(name: string, slot: nat, ghost fs: seq<Meta>, moved: Option<string>, count: nat)
      requires Valid() && Sound(entries[..], fs) && DistinctNames(fs) && slot < |fs| && fs[slot].name == name
      requires count == |fs| - 1 && moved == if slot == count then None else Some(fs[count].name)
      modifies entries
      ensures Valid() && Sound(entries[..], RemoveSwap(fs, slot))
      ensures forall i :: 0 <= i < CACHE_SIZE ==>
        entries[i].valid == (old(entries[i].valid) && old(entries[i].name) != name)
        && entries[i].name == old(entries[i].name) && entries[i].lastUsed == old(entries[i].lastUsed)
      ensures forall order :: Recency(old(entries[..]), order) ==> Recency(entries[..], Without(order, name))
    {
      ghost var before := entries[..];
      for i := 0 to CACHE_SIZE
        invariant forall j :: i <= j < CACHE_SIZE ==> entries[j] == before[j]
        invariant forall j :: 0 <= j < i ==> entries[j] == Swept(before[j], name, slot, moved, count)
      {
        SweepEntry(i, name, slot, moved, count);
      }
      SweptIsDropped(before, entries[..], fs, name, slot, moved, count);
      DroppedSound(before, entries[..], fs, name, slot, moved);
      forall order | Recency(before, order)
        ensures Recency(entries[..], Without(order, name))
      {
        DroppedUses(before, entries[..], tick, name, slot, moved, order);
      }
    }

    method SweepEntry(i: nat, name: string, slot: nat, moved: Option<string>, count: nat)
      requires i < entries.Length
      modifies entries
      ensures entries[i] == Swept(old(entries[i]), name, slot, moved, count)
      ensures forall j :: 0 <= j < entries.Length && j != i ==> entries[j] == old(entries[j])
    {
      var e := entries[i];
      if e.valid && e.name == name {
        entries[i] := e.(valid := false);
      } else if e.valid {
        if moved.Some? && e.name == moved.value {
          entries[i] := e.(slot := slot);
        }
        if entries[i].slot >= count {
          entries[i] := entries[i].(valid := false);
        }
      }
    }
  }

  // One entry after a removal: the removed name goes, the moved one follows its record, and what points beyond the
  // table goes too.
  function Swept(e: Entry, name: string, slot: nat, moved: Option<string>, count: nat): Entry {
    if !e.valid then e
    else if e.name == name then e.(valid := false)
    else
      var e' := if moved == Some(e.name) then e.(slot := slot) else e;
      if e'.slot >= count then e'.(valid := false) else e'
  }

  // In a sound cache nothing points beyond the table.
  lemma SweptIsDropped(es: seq<Entry>, es': seq<Entry>, fs: seq<Meta>, name: string, slot: nat, moved: Option<string>,
                       count: nat)
    requires Sound(es, fs) && DistinctNames(fs) && slot < |fs| && fs[slot].name == name && count == |fs| - 1
    requires moved == if slot == count then None else Some(fs[count].name)
    requires |es| == |es'| && forall i :: 0 <= i < |es| ==> es'[i] == Swept(es[i], name, slot, moved, count)
    ensures forall i :: 0 <= i < |es| ==> Dropped(es[i], es'[i], name, slot, moved)
  {
    forall i | 0 <= i < |es|
      ensures Dropped(es[i], es'[i], name, slot, moved)
    {
      if es[i].valid && es[i].name != name {
        SlotInside(es, fs, name, slot, i);
      }
    }
  }

  predicate Dropped(e: Entry, e': Entry, name: string, slot: nat, moved: Option<string>) {
    if !e.valid then e' == e
    else if e.name == name then e' == e.(valid := false)
    else if moved.Some? && e.name == moved.value then e' == e.(slot := slot)
    else e' == e
  }

  // A sound entry for another name points at another slot; if that is the last one, it has the last name.
  lemma SlotInside(es: seq<Entry>, fs: seq<Meta>, name: string, slot: nat, i: nat)
    requires Sound(es, fs) && DistinctNames(fs) && slot < |fs| && fs[slot].name == name
    requires i < |es| && es[i].valid && es[i].name != name
    ensures es[i].slot < |fs| && es[i].slot != slot && fs[es[i].slot].name == es[i].name
    ensures es[i].slot == |fs| - 1 <==> es[i].name == fs[|fs| - 1].name
  {
    FindIs(fs, es[i].name, es[i].slot);
    FindIs(fs, fs[|fs| - 1].name, |fs| - 1);
  }

  lemma Unused(es: seq<Entry>, fs: seq<Meta>, name: string)
    requires Sound(es, fs) && Find(fs, name).None?
    ensures forall i :: 0 <= i < |es| ==> !(es[i].valid && es[i].name == name)
  {}

  // Only one entry can have the name that is being replaced.
  lemma OnlyAt(before: seq<Entry>, es: seq<Entry>, tick: nat, i: nat, oldName: string, newName: string, hit: Option<nat>)
    requires Stamped(before, tick) && |before| == |es| && i < |es| && es[i].valid && es[i].name == oldName != newName
    requires hit.Some? ==> hit.value < i && Position(before, oldName) == hit
                           && Freshened(before, es, hit.value, newName, tick)
    ensures hit.None?
  {
    AllPositions(before, tick);
  }

  // Renaming moves the entry to the front under its new name.
  function UseAs(order: seq<string>, oldName: string, newName: string): seq<string> {
    if oldName in order then [newName] + Without(order, oldName) else order
  }

  lemma RenamedUses(es: seq<Entry>, es': seq<Entry>, tick: nat, oldName: string, newName: string, order: seq<string>,
                    hit: Option<nat>)
    requires Stamped(es, tick) && Recency(es, order) && hit == Position(es, oldName)
    requires forall i :: 0 <= i < |es| ==> !(es[i].valid && es[i].name == newName)
    requires if hit.Some? then Freshened(es, es', hit.value, newName, tick) else es' == es
    ensures Recency(es', UseAs(order, oldName, newName))
  {
    if hit.Some? {
      var p := hit.value;
      assert es[p].name in order;
      WithoutKeepsOrder(es, order, oldName);
      forall i | 0 <= i < |es| && i != p && es[i].valid
        ensures es[i].name in Without(order, oldName)
      {
        assert es[i].name in order && es[i].name != es[p].name;
      }
      PutInFront(es, es', p, newName, tick, Without(order, oldName));
    }
  }

  lemma RenamedSound(es: seq<Entry>, es': seq<Entry>, tick: nat, oldName: string, newName: string, slot: nat,
                     fs: seq<Meta>, fs': seq<Meta>, hit: Option<nat>)
    requires Sound(es, fs) && DistinctNames(fs) && slot < |fs| == |fs'| && |es| == |es'|
    requires fs[slot].name == oldName && fs'[slot].name == newName
    requires forall i :: 0 <= i < |fs| && i != slot ==> fs'[i] == fs[i]
    requires if hit.Some? then Freshened(es, es', hit.value, newName, tick) && es'[hit.value].slot == slot else es' == es
    requires hit == Position(es, oldName) && Stamped(es, tick)
    ensures Sound(es', fs')
  {
    AllPositions(es, tick);
    forall j | 0 <= j < |es'| && es'[j].valid && (hit.None? || j != hit.value)
      ensures es'[j].slot < |fs'| && fs'[es'[j].slot].name == es'[j].name
    {
      assert es'[j] == es[j] && fs[es[j].slot].name == es[j].name;
    }
  }

  // The entries after a removal point into the smaller table, at the records that have their names.
  lemma DroppedSound(es: seq<Entry>, es': seq<Entry>, fs: seq<Meta>, name: string, slot: nat, moved: Option<string>)
    requires Sound(es, fs) && DistinctNames(fs) && slot < |fs| && fs[slot].name == name && |es| == |es'|
    requires moved == if slot == |fs| - 1 then None else Some(fs[|fs| - 1].name)
    requires forall i :: 0 <= i < |es| ==> Dropped(es[i], es'[i], name, slot, moved)
    ensures Sound(es', RemoveSwap(fs, slot))
  {
    forall j | 0 <= j < |es'| && es'[j].valid
      ensures es'[j].slot < |fs| - 1 && RemoveSwap(fs, slot)[es'[j].slot].name == es'[j].name
    {
      assert Dropped(es[j], es'[j], name, slot, moved);
      SlotInside(es, fs, name, slot, j);
    }
  }

  // A removed name leaves the recency list, and the others keep their order.
  lemma DroppedUses(es: seq<Entry>, es': seq<Entry>, tick: nat, name: string, slot: nat, moved: Option<string>,
                    order: seq<string>)
    requires Stamped(es, tick) && |es| == |es'| && Recency(es, order)
    requires forall i :: 0 <= i < |es| ==> Dropped(es[i], es'[i], name, slot, moved)
    ensures Recency(es', Without(order, name))
  {
    var rest := Without(order, name);
    WithoutKeepsOrder(es, order, name);
    forall n | n in rest
      ensures Position(es, n).Some? && Position(es', n) == Position(es, n)
    {
      DroppedPosition(es, es', tick, name, slot, moved, n);
    }
    DescendingSame(es, es', rest);
    forall i | 0 <= i < |es'| && es'[i].valid
      ensures es'[i].name in rest
    {
      assert Dropped(es[i], es'[i], name, slot, moved) && es[i].name in order;
    }
  }

  lemma DroppedPosition(es: seq<Entry>, es': seq<Entry>, tick: nat, name: string, slot: nat, moved: Option<string>, n: string)
    requires Stamped(es, tick) && |es| == |es'| && n != name && Position(es, n).Some?
    requires forall i :: 0 <= i < |es| ==> Dropped(es[i], es'[i], name, slot, moved)
    ensures Position(es', n) == Position(es, n)
  {
    var p := Position(es, n).value;
    assert Dropped(es[p], es'[p], name, slot, moved);
    forall i | 0 <= i < |es'| && es'[i].valid && es'[i].name == n
      ensures i == p
    {
      assert Dropped(es[i], es'[i], name, slot, moved);
      PositionIs(es, tick, i);
    }
    assert Position(es', n).Some?;
  }

  // ---------- every cache has such a list ----------

  function ValidAt(es: seq<Entry>): set<nat> {
    set i: nat | i < |es| && es[i].valid
  }

  lemma NoneValid(es: seq<Entry>)
    requires ValidAt(es) == {}
    ensures Recency(es, [])
  {
    forall i: nat | i < |es|
      ensures !es[i].valid
    {
      assert i !in ValidAt(es);
    }
  }

  // The valid entry with the greatest stamp.
  lemma Newest(es: seq<Entry>) returns (p: nat)
    requires ValidAt(es) != {}
    ensures p < |es| && es[p].valid && forall i :: 0 <= i < |es| && es[i].valid ==> es[i].lastUsed <= es[p].lastUsed
  {
    p :| p in ValidAt(es);
    for i := 0 to |es|
      invariant p < |es| && es[p].valid
      invariant forall j :: 0 <= j < i && es[j].valid ==> es[j].lastUsed <= es[p].lastUsed
    {
      if es[i].valid && es[i].lastUsed > es[p].lastUsed {
        p := i;
      }
    }
  }

  lemma {:induction false} RecencyExists(es: seq<Entry>, tick: nat) returns (order: seq<string>)
    requires Stamped(es, tick)
    ensures Recency(es, order)
    decreases |ValidAt(es)|
  {
    if ValidAt(es) == {} {
      NoneValid(es);
      order := [];
    } else {
      var p := Newest(es);
      order := AddNewest(es, tick, p);
    }
  }

  function WithoutEntry(es: seq<Entry>, p: nat): (r: seq<Entry>)
    requires p < |es|
    ensures |r| == |es|
  {
    es[p := es[p].(valid := false)]
  }

  lemma SamePosition(es: seq<Entry>, tick: nat, p: nat, n: string)
    requires Stamped(es, tick) && p < |es| && es[p].valid && Position(WithoutEntry(es, p), n).Some?
    ensures n != es[p].name && Position(es, n) == Position(WithoutEntry(es, p), n)
  {
    PositionIs(es, tick, Position(WithoutEntry(es, p), n).value);
  }

  // The list of the other entries, with the newest in front.
  lemma AddNewest(es: seq<Entry>, tick: nat, p: nat) returns (order: seq<string>)
    requires Stamped(es, tick) && p < |es| && es[p].valid
    requires forall i :: 0 <= i < |es| && es[i].valid ==> es[i].lastUsed <= es[p].lastUsed
    ensures Recency(es, order)
    decreases |ValidAt(es)|, 0
  {
    var others := WithoutEntry(es, p);
    assert ValidAt(others) == ValidAt(es) - {p};
    var rest := RecencyExists(others, tick);
    NewestInFront(es, tick, p, rest);
    order := [es[p].name] + rest;
  }

  lemma NewestInFront(es: seq<Entry>, tick: nat, p: nat, rest: seq<string>)
    requires Stamped(es, tick) && p < |es| && es[p].valid && Recency(WithoutEntry(es, p), rest)
    requires forall i :: 0 <= i < |es| && es[i].valid ==> es[i].lastUsed <= es[p].lastUsed
    ensures Recency(es, [es[p].name] + rest)
  {
    PositionIs(es, tick, p);
    forall n | n in rest
      ensures Position(es, n) == Position(WithoutEntry(es, p), n) && Newer(es, es[p].name, n)
    {
      SamePosition(es, tick, p, n);
    }
    DescendingSame(WithoutEntry(es, p), es, rest);
    DescendingCons(es, es[p].name, rest);
    forall i | 0 <= i < |es| && es[i].valid && i != p
      ensures es[i].name in rest
    {
      assert WithoutEntry(es, p)[i].valid;
    }
  }
}
