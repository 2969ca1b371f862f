/** The name server's index of data servers: a red-black tree, a list, and a free list of 1024 slots. */
module NetMap {
  import opened Sequences
  import opened RbShape
  import opened RbTree

  const SLOTS := 1024

  /** Every key once. */
  ghost predicate Increasing(s: seq<Entry>)
  {
    forall i, j :: 0 <= i < j < |s| ==> s[i].k < s[j].k
  }

  /** The entries are those of the map m, each with its node's data. */
  ghost predicate Shows(s: seq<Entry>, data: map<Node, int>, m: map<int, int>)
  {
    && (forall i :: 0 <= i < |s| ==> s[i].n in data && s[i].k in m && m[s[i].k] == data[s[i].n])
    && (forall k :: k in m ==> HasKey(s, k))
  }

  lemma AddedShows(a: seq<Entry>, b: seq<Entry>, e: Entry, data: map<Node, int>, m: map<int, int>, net: int)
    requires Increasing(a + b) && Shows(a + b, data, m) && !HasKey(a + b, e.k)
    requires (forall f :: f in a ==> f.k <= e.k) && (forall f :: f in b ==> e.k < f.k)
    requires forall i :: 0 <= i < |a + b| ==> (a + b)[i].n != e.n
    ensures Increasing(a + [e] + b) && Shows(a + [e] + b, data[e.n := net], m[e.k := net])
  {
    var o, s := a + b, a + [e] + b;
    InsertedAt(a, b, e);
    NoKey(o, e.k);
    Around(a, b, e);
    hide Shows, HasKey, Increasing;
    AddedHas(o, s, |a|, e, data, m, net);
    IncreasingInsert(o, s, |a|, e);
  }

  lemma InsertedAt(a: seq<Entry>, b: seq<Entry>, e: Entry)
    ensures var o, s := a + b, a + [e] + b;
            && |s| == |o| + 1 && s[|a|] == e
            && (forall i :: 0 <= i < |s| && i != |a| ==> s[i] == o[if i < |a| then i else i - 1])
            && (forall i :: 0 <= i < |o| ==> o[i] == s[if i < |a| then i else i + 1])
  {
  }

  lemma Around(a: seq<Entry>, b: seq<Entry>, e: Entry)
    requires (forall f :: f in a ==> f.k <= e.k) && (forall f :: f in b ==> e.k < f.k)
    requires forall i :: 0 <= i < |a + b| ==> (a + b)[i].k != e.k
    ensures var s := a + [e] + b; (forall i :: 0 <= i < |a| ==> s[i].k < e.k)
                                  && (forall i :: |a| < i < |s| ==> e.k < s[i].k)
  {
    var o, s := a + b, a + [e] + b;
    assert forall i :: 0 <= i < |a| ==> s[i] == a[i] == o[i] && a[i] in a;
    assert forall i :: |a| < i < |s| ==> s[i] == b[i - |a| - 1] && b[i - |a| - 1] in b;
  }

  lemma IncreasingInsert(o: seq<Entry>, s: seq<Entry>, p: nat, e: Entry)
    requires Increasing(o) && |s| == |o| + 1 && p < |s| && s[p] == e
    requires forall i :: 0 <= i < |s| && i != p ==> s[i] == o[if i < p then i else i - 1]
    requires (forall i :: 0 <= i < p ==> s[i].k < e.k) && (forall i :: p < i < |s| ==> e.k < s[i].k)
    ensures Increasing(s)
  {
  }

  lemma NoKey(o: seq<Entry>, k: int)
    requires !HasKey(o, k)
    ensures forall i :: 0 <= i < |o| ==> o[i].k != k
  {
  }

  lemma AddedHas(o: seq<Entry>, s: seq<Entry>, p: nat, e: Entry, data: map<Node, int>, m: map<int, int>, net: int)
    requires Shows(o, data, m) && |s| == |o| + 1 && p < |s| && s[p] == e && !HasKey(o, e.k)
    requires forall i :: 0 <= i < |s| && i != p ==> s[i] == o[if i < p then i else i - 1]
    requires forall i :: 0 <= i < |o| ==> o[i].n != e.n
    ensures Shows(s, data[e.n := net], m[e.k := net])
  {
    NoKey(o, e.k);
    forall k | k in m[e.k := net]
      ensures HasKey(s, k)
    {
      if k != e.k {
        var i :| 0 <= i < |o| && o[i].k == k;
        assert s[if i < p then i else i + 1].k == k;
      } else {
        assert s[p].k == k;
      }
    }
  }

  lemma RemovedShows(a: seq<Entry>, b: seq<Entry>, e: Entry, data: map<Node, int>, m: map<int, int>)
    requires Increasing(a + [e] + b) && Shows(a + [e] + b, data, m)
    ensures Increasing(a + b) && Shows(a + b, data, m - {e.k})
  {
    InsertedAt(a, b, e);
    RemovedHas(a + [e] + b, a + b, |a|, e, data, m);
  }

  lemma RemovedHas(o: seq<Entry>, s: seq<Entry>, p: nat, e: Entry, data: map<Node, int>, m: map<int, int>)
    requires Increasing(o) && Shows(o, data, m) && |o| == |s| + 1 && p < |o| && o[p] == e
    requires forall i :: 0 <= i < |s| ==> s[i] == o[if i < p then i else i + 1]
    ensures Increasing(s) && Shows(s, data, m - {e.k})
  {
    forall k | k in m - {e.k}
      ensures HasKey(s, k)
    {
      var i :| 0 <= i < |o| && o[i].k == k;
      assert s[if i < p then i else i - 1].k == k;
    }
  }

  lemma UpdatedShows(s: seq<Entry>, e: Entry, data: map<Node, int>, m: map<int, int>, net: int)
    requires Increasing(s) && Shows(s, data, m) && e in s
    requires forall i, j :: 0 <= i < j < |s| ==> s[i].n != s[j].n
    ensures Shows(s, data[e.n := net], m[e.k := net])
  {
    var i :| 0 <= i < |s| && s[i] == e;
  }

  /** A found entry's data is the map's value; a key without entry is not in the map. */
  lemma FoundShows(s: seq<Entry>, data: map<Node, int>, m: map<int, int>, key: int)
    requires Shows(s, data, m)
    ensures HasKey(s, key) <==> key in m
  {
  }

  lemma FoundData(s: seq<Entry>, data: map<Node, int>, m: map<int, int>, key: int, n: Node)
    requires Shows(s, data, m) && Entry(n, key) in s
    ensures n in data && key in m && m[key] == data[n]
  {
  }

  /** The free slots are different nodes outside the tree. */
  ghost predicate FreeSlots(free: seq<Node>, repr: set<Node>)
  {
    && NoDup(free) && (forall i :: 0 <= i < |free| ==> free[i] !in repr)
  }

  /** The list holds exactly these nodes, each once. */
  ghost predicate ListOf(s: seq<Node>, nodes: set<Node>)
  {
    && NoDup(s) && (forall i :: 0 <= i < |s| ==> s[i] in nodes) && (forall n :: n in nodes ==> n in s)
  }

  lemma SlotTaken(free: seq<Node>, repr: set<Node>)
    requires FreeSlots(free, repr) && free != []
    ensures free[0] !in repr && FreeSlots(free[1..], repr + {free[0]})
  {
  }

  lemma SlotsApart(free: seq<Node>, repr: set<Node>, n: Node)
    requires FreeSlots(free, repr)
    ensures FreeSlots(free, repr - {n})
  {
  }

  lemma ListAdd(s: seq<Node>, nodes: set<Node>, n: Node)
    requires ListOf(s, nodes) && n !in nodes
    ensures ListOf(s + [n], nodes + {n})
  {
  }

  lemma ListDrop(s: seq<Node>, nodes: set<Node>, n: Node)
    requires ListOf(s, nodes)
    ensures ListOf(Without(s, n), nodes - {n})
  {
    WithoutMembers(s, n);
    var r := Without(s, n);
    forall i | 0 <= i < |r|
      ensures r[i] in nodes - {n}
    {
      assert r[i] in r;
      WithoutMember(s, n, r[i]);
    }
    forall m | m in nodes - {n}
      ensures m in r
    {
      WithoutMember(s, n, m);
    }
  }

  /** The slots as they are linked: the last one made comes first. */
  method NewSlots() returns (free: seq<Node>)
    ensures |free| == SLOTS && NoDup(free) && fresh(set n | n in free)
  {
    free := [];
    while |free| < SLOTS
      invariant |free| <= SLOTS && NoDup(free) && fresh(set n | n in free)
      decreases SLOTS - |free|
    {
      var m := new Node(0);
      free := [m] + free;
    }
  }

  class NetMap {
    const tree: Tree
    // the free slots, the first one first, and the list of the nodes in use
    var maplist: seq<Node>
    var dslist: seq<Node>
    var data: map<Node, int>
    // what the index says, and how many slots were ever taken
    ghost var contents: map<int, int>
    ghost var taken: nat

    ghost predicate Valid()
      reads this, tree, tree.repr
    {
      && tree.Valid() && |maplist| + taken == SLOTS && FreeSlots(maplist, tree.repr)
         && ListOf(dslist, Nodes(tree.shape))
      && Increasing(Inorder(tree.shape)) && Shows(Inorder(tree.shape), data, contents)
    }

    /** gfs_net_map_get agrees with the map. */
    method Get(key: int) returns (found: bool, net: int)
      requires Valid()
      ensures found <==> key in contents
      ensures found ==> net == contents[key]
    {
      hide Shows, Increasing, Inorder, Nodes;
      FoundShows(Inorder(tree.shape), data, contents, key);
      var node, steps := tree.LookupValue(key);
      if node != null {
        FoundData(Inorder(tree.shape), data, contents, key, node);
        return true, data[node];
      }
      return false, 0;
    }

    /** gfs_net_map_init: all slots free; the last one made is the first one taken. */
    constructor ()
      ensures Valid() && contents == map[] && |maplist| == SLOTS && taken == 0
      ensures fresh(tree) && fresh(tree.repr) && fresh(set n | n in maplist)
    {
      var sentinel := new Node(0);
      var t := new Tree(sentinel);
      tree := t;
      maplist, dslist, data, contents, taken := [], [], map[], map[], 0;
      new;
      maplist := NewSlots();
    }

    /** gfs_net_map_add: an error, changing nothing, exactly when no slot is free, even for a key that
        needs none; otherwise the key is set, in a slot taken for good if it is new. */
    method Add(key: int, net: int) returns (ok: bool)
      requires Valid()
      modifies this`maplist, this`dslist, this`data, this`contents, this`taken, tree`root, tree`shape, tree`repr
      modifies tree.repr`left, tree.repr`right, tree.repr`parent, tree.repr`color, set n | n in maplist
      ensures Valid() && (ok <==> |old(maplist)| > 0)
      ensures !ok ==> unchanged(this) && tree.shape == old(tree.shape) && tree.repr == old(tree.repr)
      ensures ok ==> contents == old(contents)[key := net]
                     && taken == old(taken) + if key in old(contents) then 0 else 1
      ensures tree.repr <= old(tree.repr) + set n | n in old(maplist)
      ensures forall n :: n in maplist ==> n in old(maplist)
    {
      if maplist == [] {
        return false;
      }
      hide Shows, Increasing, Inorder, Nodes;
      FoundShows(Inorder(tree.shape), data, contents, key);
      var map_, steps := tree.LookupValue(key);
      if map_ != null {
        tree.EntriesUnique();
        UpdatedShows(Inorder(tree.shape), Entry(map_, key), data, contents, net);
        data, contents := data[map_ := net], contents[key := net];
      } else {
        AddNew(key, net);
      }
      ok := true;
    }

    method AddNew(key: int, net: int)
      requires Valid() && maplist != [] && !HasKey(Inorder(tree.shape), key) && key !in contents
      modifies this`maplist, this`dslist, this`data, this`contents, this`taken, tree`root, tree`shape, tree`repr
      modifies tree.repr`left, tree.repr`right, tree.repr`parent, tree.repr`color, set n | n in maplist
      ensures Valid() && contents == old(contents)[key := net] && taken == old(taken) + 1
      ensures tree.repr == old(tree.repr) + {old(maplist)[0]} && maplist == old(maplist)[1..]
    {
      hide Shows, Increasing, Inorder, Nodes, HasKey, FreeSlots, ListOf;
      SlotTaken(maplist, tree.repr);
      var node := maplist[0];
      maplist, taken := maplist[1..], taken + 1;
      data := data[node := net];
      node.key := key;
      ghost var s := Inorder(tree.shape);
      tree.NotThere(node);
      assert node !in Nodes(tree.shape);
      ListAdd(dslist, Nodes(tree.shape), node);
      ghost var before, after := tree.Insert(node);
      AddedShows(before, after, Entry(node, key), old(data), contents, net);
      contents := contents[key := net];
      dslist := dslist + [node];
    }

    /** gfs_net_map_remove: an error, changing nothing, when no slot is free; otherwise the key is gone.
        Its slot does not become free. */
    method Remove(key: int) returns (ok: bool)
      requires Valid()
      modifies this`dslist, this`contents, tree`root, tree`shape, tree`repr
      modifies tree.repr`left, tree.repr`right, tree.repr`parent, tree.repr`color, tree.repr`key
      ensures Valid() && (ok <==> |old(maplist)| > 0)
      ensures ok ==> contents == old(contents) - {key} && taken == old(taken)
      ensures tree.repr <= old(tree.repr)
      ensures !ok ==> unchanged(this) && tree.shape == old(tree.shape) && tree.repr == old(tree.repr)
    {
      if maplist == [] {
        return false;
      }
      hide Shows, Increasing, Inorder, Nodes;
      ok := true;
      FoundShows(Inorder(tree.shape), data, contents, key);
      var map_, steps := tree.LookupValue(key);
      if map_ != null {
        RemoveFound(key, map_);
      }
    }

    method RemoveFound(key: int, node: Node)
      requires Valid() && Entry(node, key) in Inorder(tree.shape)
      modifies this`dslist, this`contents, tree`root, tree`shape, tree`repr
      modifies tree.repr`left, tree.repr`right, tree.repr`parent, tree.repr`color, tree.repr`key
      ensures Valid() && contents == old(contents) - {key} && tree.repr == old(tree.repr) - {node}
    {
      EntryNode(tree.shape, Entry(node, key));
      tree.KeyIs(Entry(node, key));
      hide Shows, Increasing, Inorder, Nodes, FreeSlots, ListOf;
      ListDrop(dslist, Nodes(tree.shape), node);
      SlotsApart(maplist, tree.repr, node);
      ghost var before, after := tree.Delete(node);
      RemovedShows(before, after, Entry(node, key), data, contents);
      contents := contents - {key};
      dslist := Without(dslist, node);
    }
  }

  /** Takes every slot, for a different key each. */
  method TakeAll() returns (m: NetMap)
    ensures fresh(m) && fresh(m.tree) && fresh(m.tree.repr) && fresh(set n | n in m.maplist)
    ensures m.Valid() && m.taken == SLOTS && m.maplist == [] && 0 in m.contents && m.contents[0] == 0
  {
    hide Shows, Increasing, Inorder, Nodes, FreeSlots, ListOf, Tree.Valid;
    m := new NetMap();
    var i := 0;
    while i < SLOTS
      invariant 0 <= i <= SLOTS && fresh(m) && fresh(m.tree) && fresh(m.tree.repr) && fresh(set n | n in m.maplist)
      invariant m.Valid() && m.taken == i && |m.maplist| + i == SLOTS
      invariant forall k :: k in m.contents <==> 0 <= k < i
      invariant 0 in m.contents ==> m.contents[0] == 0
    {
      var ok := m.Add(i, i);
      i := i + 1;
    }
  }

  /** After 1024 different keys every call fails, even to set a key that has its slot, or to remove one. */
  method SlotsUsedUp() returns (m: NetMap, added: bool, removed: bool)
    ensures fresh(m) && m.Valid() && m.taken == SLOTS && 0 in m.contents && m.contents[0] == 0 && !added && !removed
  {
    hide NetMap.Valid;
    m := TakeAll();
    added := m.Add(0, 7);
    removed := m.Remove(0);
  }

  /** The slots of removed keys are used up as well: a map of at most one key ends up without a slot. */
  method SlotsNeverBack() returns (m: NetMap, added: bool)
    ensures fresh(m) && m.Valid() && m.contents.Keys == {SLOTS - 1} && !added
  {
    hide Shows, Increasing, Inorder, Nodes, FreeSlots, ListOf, Tree.Valid;
    m := new NetMap();
    var i := 0;
    while i < SLOTS
      invariant 0 <= i <= SLOTS && fresh(m) && fresh(m.tree) && fresh(m.tree.repr) && fresh(set n | n in m.maplist)
      invariant m.Valid() && m.taken == i && |m.maplist| + i == SLOTS
      invariant m.contents.Keys == if i == SLOTS then {SLOTS - 1} else {}
    {
      var ok := m.Add(i, i);
      if i < SLOTS - 1 {
        ok := m.Remove(i);
      }
      i := i + 1;
    }
    added := m.Add(SLOTS, 7);
  }
}
