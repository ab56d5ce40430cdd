/** The chained hash index of the name server: file_index_find, file_index_insert, file_index_remove_entry. */
module FileIndex {
  import opened Wrappers

  const INDEX_SIZE: nat := 1024
  const WORD: nat := 0x1_0000_0000_0000_0000

  datatype Node = Node(name: string, slot: nat)

  // hash_filename: 64-bit arithmetic on the characters as signed bytes.
  function Hash(name: string): (h: nat)
    ensures h < WORD
  {
    if name == "" then 5381
    else
      var c := name[|name| - 1] as int;
      (Hash(name[..|name| - 1]) * 33 + (if c < 128 then c else c - 256)) % WORD
  }

  function Bucket(name: string): (b: nat)
    ensures b < INDEX_SIZE
  {
    Hash(name) % INDEX_SIZE
  }

  // The first node of a chain with the given name.
  function ChainFind(chain: seq<Node>, name: string): (r: Option<nat>)
    ensures r.Some? ==> r.value < |chain| && chain[r.value].name == name
    ensures forall i :: 0 <= i < (if r.Some? then r.value else |chain|) ==> chain[i].name != name
  {
    if chain == [] then None
    else if chain[0].name == name then Some(0)
    else match ChainFind(chain[1..], name)
      case None => None
      case Some(i) => Some(i + 1)
  }

  predicate Unique(chain: seq<Node>) {
    forall i, j :: 0 <= i < j < |chain| ==> chain[i].name != chain[j].name
  }

  // The chain says of this name what the map says.
  predicate Agrees(chain: seq<Node>, m: map<string, nat>, name: string) {
    match ChainFind(chain, name)
    case None => name !in m
    case Some(i) => name in m && m[name] == chain[i].slot
  }

  lemma ChainFindIs(chain: seq<Node>, i: nat)
    requires Unique(chain) && i < |chain|
    ensures ChainFind(chain, chain[i].name) == Some(i)
  {
    var r := ChainFind(chain, chain[i].name);
    assert r.Some?;
  }

  lemma UpdateNode(chain: seq<Node>, i: nat, slot: nat, m: map<string, nat>)
    requires Unique(chain) && i < |chain|
    ensures var c := chain[i := Node(chain[i].name, slot)];
            && Unique(c)
            && forall name :: Agrees(chain, m, name) ==> Agrees(c, m[chain[i].name := slot], name)
  {
    var c := chain[i := Node(chain[i].name, slot)];
    forall name | Agrees(chain, m, name)
      ensures Agrees(c, m[chain[i].name := slot], name)
    {
      SameNames(chain, c, name);
      ChainFindIs(chain, i);
    }
  }

  lemma SameNames(a: seq<Node>, b: seq<Node>, name: string)
    requires |a| == |b| && forall i :: 0 <= i < |a| ==> a[i].name == b[i].name
    ensures ChainFind(a, name) == ChainFind(b, name)
  {}

  lemma AddNode(chain: seq<Node>, node: Node, m: map<string, nat>)
    requires Unique(chain) && ChainFind(chain, node.name).None?
    ensures Unique([node] + chain)
    ensures forall name :: Agrees(chain, m, name) ==> Agrees([node] + chain, m[node.name := node.slot], name)
  {
    assert ([node] + chain)[1..] == chain;
  }

  lemma DropNode(chain: seq<Node>, i: nat, m: map<string, nat>)
    requires Unique(chain) && i < |chain|
    ensures Unique(Dropped(chain, i))
    ensures forall name :: Agrees(chain, m, name) ==> Agrees(Dropped(chain, i), m - {chain[i].name}, name)
  {
    forall name | Agrees(chain, m, name)
      ensures Agrees(Dropped(chain, i), m - {chain[i].name}, name)
    {
      if name == chain[i].name {
        DroppedGone(chain, i);
      } else {
        DroppedKeeps(chain, i, name);
      }
    }
  }

  function Dropped(chain: seq<Node>, i: nat): (c: seq<Node>)
    requires i < |chain|
    ensures |c| == |chain| - 1
    ensures forall j :: 0 <= j < |c| ==> c[j] == chain[if j < i then j else j + 1]
  {
    chain[..i] + chain[i + 1..]
  }

  // The dropped name is not found any more.
  lemma DroppedGone(chain: seq<Node>, i: nat)
    requires Unique(chain) && i < |chain|
    ensures ChainFind(Dropped(chain, i), chain[i].name).None?
  {
    var c := Dropped(chain, i);
    forall j | 0 <= j < |c|
      ensures c[j].name != chain[i].name
    {
      var k := if j < i then j else j + 1;
      assert if k < i then chain[k].name != chain[i].name else chain[i].name != chain[k].name;
    }
  }

  // Another name is found in the node that holds it, or not, as before.
  lemma DroppedKeeps(chain: seq<Node>, i: nat, name: string)
    requires Unique(chain) && i < |chain| && name != chain[i].name
    ensures match ChainFind(chain, name)
            case None => ChainFind(Dropped(chain, i), name).None?
            case Some(j) => ChainFind(Dropped(chain, i), name).Some?
                            && Dropped(chain, i)[ChainFind(Dropped(chain, i), name).value] == chain[j]
  {
    var c := Dropped(chain, i);
    match ChainFind(chain, name)
    case None =>
      forall k | 0 <= k < |c|
        ensures c[k].name != name
      {
        assert c[k] == chain[if k < i then k else k + 1];
      }
    case Some(j) =>
      assert c[if j < i then j else j - 1] == chain[j];
      assert ChainFind(c, name).Some?;
      var q := ChainFind(c, name).value;
      ChainFindIs(chain, if q < i then q else q + 1);
  }

  class Index {
    const buckets: array<seq<Node>>
    ghost var model: map<string, nat>

    ghost predicate Valid()
      reads this, buckets
    {
      && buckets.Length == INDEX_SIZE
      && (forall b :: 0 <= b < INDEX_SIZE ==> Unique(buckets[b]))
      && (forall name :: Agrees(buckets[Bucket(name)], model, name))
    }

    constructor ()
      ensures Valid() && model == map[] && fresh(buckets)
    {
      buckets := new seq<Node>[INDEX_SIZE](_ => []);
      model := map[];
    }

    // file_index_find
    method Find(name: string) returns (slot: Option<nat>)
      requires Valid()
      ensures slot == if name in model then Some(model[name]) else None
    {
      var chain := buckets[Bucket(name)];
      assert Agrees(chain, model, name);
      var i := 0;
      while i < |chain|
        invariant 0 <= i <= |chain| && forall j :: 0 <= j < i ==> chain[j].name != name
      {
        if chain[i].name == name {
          return Some(chain[i].slot);
        }
        i := i + 1;
      }
      return None;
    }

    // file_index_insert: an existing node is updated, a new one goes to the head of its chain.
    method Insert(name: string, slot: nat)
      requires Valid()
      modifies this, buckets
      ensures Valid() && model == old(model)[name := slot]
    {
      var b := Bucket(name);
      var chain := buckets[b];
      var i := 0;
      while i < |chain| && chain[i].name != name
        invariant 0 <= i <= |chain| && forall j :: 0 <= j < i ==> chain[j].name != name
      {
        i := i + 1;
      }
      if i < |chain| {
        UpdateNode(chain, i, slot, model);
        Store(b, chain[i := Node(name, slot)], model[name := slot], name);
      } else {
        AddNode(chain, Node(name, slot), model);
        Store(b, [Node(name, slot)] + chain, model[name := slot], name);
      }
    }

    // file_index_remove_entry
    method Remove(name: string) returns (removed: bool)
      requires Valid()
      modifies this, buckets
      ensures Valid() && model == old(model) - {name} && removed == (name in old(model))
    {
      var b := Bucket(name);
      var chain := buckets[b];
      assert Agrees(chain, model, name);
      var i := 0;
      while i < |chain| && chain[i].name != name
        invariant 0 <= i <= |chain| && forall j :: 0 <= j < i ==> chain[j].name != name
      {
        i := i + 1;
      }
      removed := i < |chain|;
      if removed {
        DropNode(chain, i, model);
        Store(b, Dropped(chain, i), model - {name}, name);
      } else {
        assert model - {name} == model;
      }
    }

    // Replaces one chain; the other chains must not depend on what the map now says of the name.
    method Store(b: nat, chain: seq<Node>, ghost m: map<string, nat>, ghost name: string)
      requires Valid() && b == Bucket(name) && Unique(chain)
      requires m - {name} == model - {name}
      requires forall other :: Agrees(buckets[b], model, other) ==> Agrees(chain, m, other)
      modifies this, buckets
      ensures Valid() && model == m
    {
      forall other | Bucket(other) != b
        ensures Agrees(buckets[Bucket(other)], m, other)
      {
        assert Agrees(buckets[Bucket(other)], model, other);
        assert other in m - {name} <==> other in model - {name};
        assert other in m ==> (m - {name})[other] == (model - {name})[other];
      }
      buckets[b] := chain;
      model := m;
    }
  }
}
