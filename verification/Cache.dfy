/** The 256-way trie over reversed keys. */
module Cache {
  import opened Wrappers

  /** A C `char`, signed as on the platforms the program is built for. */
  type Char8 = c: int | -128 <= c < 128

  type Key = seq<Char8>

  /** The slots a walk from the root has visited, the last one outermost. */
  datatype Path = Root | Step(up: Path, c: int)

  /** `(unsigned int) c < 256 ? c : 255`. */
  function Slot(c: Char8): (r: int)
    ensures 0 <= r < 256
    ensures r == if c >= 0 then c else 255
  {
    var unsigned := if c < 0 then c + 0x1_0000_0000 else c;
    if unsigned < 256 then c else 255
  }

  /** A key with every char mapped to its slot: what the trie can tell apart. */
  function Folded(id: Key): (r: seq<int>)
    ensures |r| == |id| && forall i :: 0 <= i < |id| ==> r[i] == Slot(id[i])
  {
    seq(|id|, i requires 0 <= i < |id| => Slot(id[i]))
  }

  /** The first `k` steps of the walk of a key: from its last char towards its first. */
  function Walk(id: Key, k: nat): Path
    requires k <= |id|
  {
    if k == 0 then Root else Step(Walk(id, k - 1), Slot(id[|id| - k]))
  }

  function PathOf(id: Key): Path {
    Walk(id, |id|)
  }

  /** The value last added under a key that walks to `p`. */
  function LastValue<V>(added: seq<(Key, Option<V>)>, p: Path): Option<V> {
    if added == [] then None
    else
      var (id, value) := added[|added| - 1];
      if PathOf(id) == p then value else LastValue(added[..|added| - 1], p)
  }

  predicate OnWalkUpTo(id: Key, k: nat, p: Path)
    requires k <= |id|
  {
    exists j :: 0 < j <= k && p == Walk(id, j)
  }

  predicate OnWalk(id: Key, p: Path) {
    OnWalkUpTo(id, |id|, p)
  }

  /** `p` is on the walk of some added key. */
  predicate OnSomeWalk<V>(added: seq<(Key, Option<V>)>, p: Path) {
    exists i :: 0 <= i < |added| && OnWalk(added[i].0, p)
  }

  class Node<V> {
    var value: Option<V>
    const nodes: array<Node?<V>>

    constructor ()
      ensures fresh(nodes) && nodes.Length == 256 && value == None
      ensures forall i :: 0 <= i < 256 ==> nodes[i] == null
    {
      value := None;
      nodes := new Node?<V>[256](_ => null);
    }
  }

  /** A node and the value it holds. */
  datatype Entry<V> = Entry(node: Node<V>, value: Option<V>)

  /** The walks that end in a table: the empty one, in the root's, and those that end in a node. */
  predicate HasTable<V>(tree: map<Path, Entry<V>>, p: Path) {
    p == Root || p in tree
  }

  function Table<V>(root: array<Node?<V>>, tree: map<Path, Entry<V>>, p: Path): array<Node?<V>>
    requires HasTable(tree, p)
  {
    if p == Root then root else tree[p].node.nodes
  }

  function Values<V>(tree: map<Path, Entry<V>>): map<Path, Option<V>> {
    map p | p in tree :: tree[p].value
  }

  class Trie<V(!new)> {
    const nodes: array<Node?<V>>

    /** The node at the end of every walk that has one. */
    ghost var tree: map<Path, Entry<V>>
    /** The walk that each table stands at the end of. */
    ghost var home: map<array<Node?<V>>, Path>
    ghost var Repr: set<object>
    /** Every key and value added so far. */
    ghost var added: seq<(Key, Option<V>)>

    /** Each node has a table of its own, so distinct walks end in distinct nodes: the graph is a tree. */
    ghost predicate IsTree()
      reads this
    {
      && this in Repr && Root !in tree
      && (forall p {:trigger Table(nodes, tree, p)} :: HasTable(tree, p) ==>
            && Table(nodes, tree, p) in Repr && Table(nodes, tree, p).Length == 256
            && Table(nodes, tree, p) in home && home[Table(nodes, tree, p)] == p)
      && (forall p :: p in tree ==> tree[p].node in Repr)
      && (forall p, c {:trigger Step(p, c) in tree} :: Step(p, c) in tree ==> 0 <= c < 256 && HasTable(tree, p))
    }

    /** Every table entry is the node one step further, or null where there is none. */
    ghost predicate Linked()
      requires IsTree()
      reads this, Repr
    {
      && (forall p, c {:trigger Table(nodes, tree, p)[c]} :: HasTable(tree, p) && 0 <= c < 256 ==>
            Table(nodes, tree, p)[c] == if Step(p, c) in tree then tree[Step(p, c)].node else null)
      && (forall p :: p in tree ==> tree[p].node.value == tree[p].value)
    }

    /** The nodes are those on the walks of the added keys; each holds the value last added there. */
    ghost predicate Valid()
      reads this, Repr
    {
      IsTree() && Linked() && IsRecord(Values(tree), added)
    }

    constructor ()
      ensures Valid() && added == [] && fresh(Repr)
    {
      nodes := new Node?<V>[256](_ => null);
      tree := map[];
      added := [];
      new;
      home := map[nodes := Root];
      Repr := {this, nodes};
    }

    /** Store a node that is not in the trie yet in the empty entry `c` of the table at `p`. */
    method Attach(table: array<Node?<V>>, c: int, node: Node<V>, ghost p: Path)
      requires IsTree() && Linked()
      requires HasTable(tree, p) && table == Table(nodes, tree, p) && 0 <= c < 256 && table[c] == null
      requires node !in Repr && node.nodes !in Repr && node.nodes !in home && node.nodes.Length == 256
      requires node.value == None && forall d :: 0 <= d < 256 ==> node.nodes[d] == null
      modifies this`tree, this`home, this`Repr, table
      ensures IsTree() && Linked() && Repr == old(Repr) + {node, node.nodes} && added == old(added)
      ensures tree == old(tree)[Step(p, c) := Entry(node, None)] && Step(p, c) !in old(tree)
    {
      ghost var pc := Step(p, c);
      assert pc !in tree && forall d :: Step(pc, d) !in tree;
      table[c] := node;
      tree := tree[pc := Entry(node, None)];
      home := home[node.nodes := pc];
      Repr := Repr + {node, node.nodes};
      forall q | HasTable(tree, q)
        ensures Table(nodes, tree, q) in Repr && Table(nodes, tree, q).Length == 256
          && Table(nodes, tree, q) in home && home[Table(nodes, tree, q)] == q
      {
        if q != pc {
          assert old(HasTable(tree, q)) && Table(nodes, tree, q) == old(Table(nodes, tree, q));
        }
      }
      forall q, d | HasTable(tree, q) && 0 <= d < 256
        ensures Table(nodes, tree, q)[d] == if Step(q, d) in tree then tree[Step(q, d)].node else null
      {
        if q != pc {
          assert old(HasTable(tree, q)) && Table(nodes, tree, q) == old(Table(nodes, tree, q));
          assert old(Table(nodes, tree, q)[d] == if Step(q, d) in tree then tree[Step(q, d)].node else null);
        }
      }
    }

    /** Step to the child at slot `c`, creating it if there is none. */
    method Descend(table: array<Node?<V>>, c: int, ghost p: Path) returns (node: Node<V>)
      requires IsTree() && Linked()
      requires HasTable(tree, p) && table == Table(nodes, tree, p) && 0 <= c < 256
      modifies this`tree, this`home, this`Repr, table
      ensures IsTree() && Linked() && fresh(Repr - old(Repr)) && old(Repr) <= Repr && added == old(added)
      ensures Step(p, c) in tree && tree[Step(p, c)].node == node
      ensures Values(tree) ==
        if Step(p, c) in old(tree) then old(Values(tree)) else old(Values(tree))[Step(p, c) := None]
    {
      if table[c] == null {
        node := new Node();
        assert IsTree() && Linked();
        assert forall a :: a in home ==> a != node.nodes;
        Attach(table, c, node, p);
      } else {
        node := table[c];
      }
    }

    /** The trie has grown from the values `was` by the first `k` steps of the walk of `id`, and `node` is there. */
    ghost predicate Reached(was: map<Path, Option<V>>, keys: seq<(Key, Option<V>)>, id: Key, k: nat, node: Node<V>)
      requires k <= |id|
      reads this, Repr
    {
      && IsTree() && Linked() && added == keys
      && Grown(was, Values(tree), id, k)
      && Walk(id, k) in tree && tree[Walk(id, k)].node == node
    }

    /** Step `k + 1` of the walk of `id`. */
    method Advance(table: array<Node?<V>>, c: int, id: Key, ghost k: nat, ghost was: map<Path, Option<V>>)
        returns (node: Node<V>)
      requires IsTree() && Linked() && k < |id| && c == Slot(id[|id| - (k + 1)])
      requires HasTable(tree, Walk(id, k)) && table == Table(nodes, tree, Walk(id, k))
      requires if k == 0 then Values(tree) == was else Grown(was, Values(tree), id, k)
      modifies this`tree, this`home, this`Repr, table
      ensures fresh(Repr - old(Repr)) && old(Repr) <= Repr
      ensures Reached(was, old(added), id, k + 1, node)
    {
      GrownStep(was, Values(tree), id, k);
      ghost var w := Walk(id, k);
      assert Walk(id, k + 1) == Step(w, c);
      node := Descend(table, c, w);
    }

    lemma TableIsOwned(p: Path)
      requires IsTree() && HasTable(tree, p)
      ensures {this, Table(nodes, tree, p)} <= Repr
    {
    }

    /** The part of `cache_add` that walks down from the root, creating the nodes that are missing. */
    method WalkDown(id: Key) returns (node: Node<V>)
      requires IsTree() && Linked() && id != []
      modifies Repr
      ensures fresh(Repr - old(Repr)) && old(Repr) <= Repr
      ensures Reached(old(Values(tree)), old(added), id, |id|, node)
    {
      hide IsTree, Linked, Grown, Values;
      var len := |id|;
      ghost var was, keys := Values(tree), added;
      var asc := Slot(id[len - 1]);
      TableIsOwned(Root);
      node := Advance(nodes, asc, id, 0, was);
      var i := len - 1;
      while i > 0
        invariant 0 <= i < len
        invariant old(Repr) <= Repr && fresh(Repr - old(Repr))
        invariant Reached(was, keys, id, len - i, node)
      {
        i := i - 1;
        asc := Slot(id[i]);
        ghost var w := Walk(id, len - i - 1);
        TableIsOwned(w);
        node := Advance(node.nodes, asc, id, len - i - 1, was);
      }
    }

    /** `cache_add`. */
    method Add(id: Key, value: Option<V>) returns (node: Node<V>)
      requires Valid() && id != []
      modifies Repr
      ensures Valid() && fresh(Repr - old(Repr))
      ensures added == old(added) + [(id, value)]
      ensures PathOf(id) in tree && node == tree[PathOf(id)].node
    {
      ghost var was, keys := Values(tree), added;
      node := WalkDown(id);
      GrownValues(keys, was, Values(tree), id, value);
      Store(PathOf(id), node, value);
      added := added + [(id, value)];
    }

    method Store(ghost p: Path, node: Node<V>, value: Option<V>)
      requires IsTree() && Linked() && p in tree && node == tree[p].node
      modifies this`tree, node
      ensures IsTree() && Linked() && Values(tree) == old(Values(tree))[p := value]
      ensures p in tree && tree[p].node == node
    {
      forall q | q in tree && tree[q].node == node
        ensures q == p
      {
        assert home[Table(nodes, tree, q)] == q && home[Table(nodes, tree, p)] == p;
      }
      node.value := value;
      tree := tree[p := Entry(node, value)];
      assert forall q :: HasTable(tree, q) ==>
          old(HasTable(tree, q)) && Table(nodes, tree, q) == old(Table(nodes, tree, q));
    }

    // ---------- Looking keys up ----------

    /** The `k`-th step of the walk of `id`, taken in the table its first `k - 1` steps reach. */
    lemma NextStep(id: Key, k: nat)
      requires IsTree() && Linked() && 0 < k <= |id| && HasTable(tree, Walk(id, k - 1))
      ensures var table := Table(nodes, tree, Walk(id, k - 1)); var c := Slot(id[|id| - k]);
              table.Length == 256 &&
              table[c] == if Walk(id, k) in tree then tree[Walk(id, k)].node else null
    {
    }

    /** `cache_get_exists`: the value last added under a key with the same folded chars, or null. */
    method GetExists(id: Key) returns (r: Option<V>)
      requires Valid() && id != []
      ensures r == LastValue(added, PathOf(id))
    {
      NextStep(id, 1);
      var node := nodes[Slot(id[|id| - 1])];
      if node == null {
        Missing(id, 1);
        return None;
      }
      var i := |id| - 1;
      while i > 0
        invariant 0 <= i < |id|
        invariant node != null && Walk(id, |id| - i) in tree && tree[Walk(id, |id| - i)].node == node
      {
        i := i - 1;
        NextStep(id, |id| - i);
        node := node.nodes[Slot(id[i])];
        if node == null {
          Missing(id, |id| - i);
          return None;
        }
      }
      r := node.value;
    }

    /** A walk that meets a null entry has no value at its end. */
    lemma {:induction false} Missing(id: Key, k: nat)
      requires Valid() && 0 < k <= |id| && Walk(id, k) !in tree
      ensures PathOf(id) !in tree && LastValue(added, PathOf(id)) == None
    {
      MissingFrom(id, k, |id|);
      assert PathOf(id) !in Values(tree);
      NoValueOffWalks(added, PathOf(id));
    }

    lemma {:induction false} MissingFrom(id: Key, k: nat, n: nat)
      requires IsTree() && 0 < k <= n <= |id| && Walk(id, k) !in tree
      ensures Walk(id, n) !in tree
    {
      if k < n {
        MissingFrom(id, k, n - 1);
      }
    }

    /** `cache_get`: the same without the null tests, so that a key whose walk is not there is a fault. */
    method Get(id: Key) returns (r: Option<V>, fault: bool)
      requires Valid() && id != []
      ensures fault <==> !OnSomeWalk(added, PathOf(id))
      ensures !fault ==> r == LastValue(added, PathOf(id))
    {
      hide LastValue;
      assert OnSomeWalk(added, PathOf(id)) <==> PathOf(id) in Values(tree);
      r, fault := None, false;
      NextStep(id, 1);
      var node := nodes[Slot(id[|id| - 1])];
      var i := |id| - 1;
      while i > 0
        invariant 0 <= i < |id|
        invariant if node == null then Walk(id, |id| - i) !in tree
                  else Walk(id, |id| - i) in tree && tree[Walk(id, |id| - i)].node == node
      {
        if node == null {
          MissingFrom(id, |id| - i, |id|);
          return None, true;
        }
        i := i - 1;
        NextStep(id, |id| - i);
        node := node.nodes[Slot(id[i])];
      }
      if node == null {
        return None, true;
      }
      r := node.value;
    }

    /** `cache_exists`: 0 exactly when the key is, up to folding, a suffix of an added key. */
    method Exists(id: Key) returns (r: int)
      requires Valid() && id != []
      ensures r == 0 || r == 1
      ensures r == 0 <==> IsSuffixOfSome(added, id)
    {
      hide IsSuffixOfSome, LastValue;
      SomeWalkIsSuffix(added, id);
      assert OnSomeWalk(added, PathOf(id)) <==> PathOf(id) in Values(tree);
      NextStep(id, 1);
      var node := nodes[Slot(id[|id| - 1])];
      if node == null {
        Missing(id, 1);
        return 1;
      }
      var i := |id| - 1;
      while i > 0
        invariant 0 <= i < |id|
        invariant node != null && Walk(id, |id| - i) in tree && tree[Walk(id, |id| - i)].node == node
      {
        i := i - 1;
        NextStep(id, |id| - i);
        node := node.nodes[Slot(id[i])];
        if node == null {
          Missing(id, |id| - i);
          return 1;
        }
      }
      r := 0;
    }

    // ---------- Freeing ----------

    /** Free the subtrees below the entries of the table at `p`, in order. */
    method FreeEntries(table: array<Node?<V>>, ghost p: Path) returns (freed: seq<Freed<V>>, ghost paths: seq<Path>)
      requires IsTree() && Linked() && HasTable(tree, p) && table == Table(nodes, tree, p)
      ensures Frees(tree, freed, paths)
      ensures forall q :: q in paths <==> q in tree && Extends(q, p) && q != p
      ensures BottomUp(paths)
      decreases Below(tree, p) + {p}, 0
    {
      freed, paths := [], [];
      for i := 0 to 256
        invariant Frees(tree, freed, paths)
        invariant forall q :: q in paths <==> q in tree && BelowFirst(q, p, i)
        invariant BottomUp(paths)
      {
        ghost var child := Step(p, i);
        forall q
          ensures BelowFirst(q, p, i + 1) <==> BelowFirst(q, p, i) || Extends(q, child)
        {
        }
        if table[i] != null {
          SubtreeShrinks(p, i);
          var more;
          ghost var paths';
          more, paths' := FreeNodes(table[i], child);
          BranchesApart(paths, paths', p, i);
          FreesBoth(tree, freed, paths, more, paths');
          freed, paths := freed + more, paths + paths';
        } else {
          NothingBelow(p, i);
        }
      }
      forall q | q in tree
        ensures BelowFirst(q, p, 256) <==> Extends(q, p) && q != p
      {
        if Extends(q, p) && q != p {
          BelowAChild(tree, q, p);
        }
        if BelowFirst(q, p, 256) {
          var c :| 0 <= c < 256 && Extends(q, Step(p, c));
          ChildExtends(q, p, c);
        }
      }
    }

    lemma SubtreeShrinks(p: Path, c: int)
      requires IsTree() && Step(p, c) in tree
      ensures Below(tree, Step(p, c)) + {Step(p, c)} < Below(tree, p) + {p}
    {
      var child := Step(p, c);
      forall q | q in Below(tree, child) + {child}
        ensures q in Below(tree, p) && q != p
      {
        ChildExtends(q, p, c);
      }
      assert p in Below(tree, p) + {p} && p !in Below(tree, child) + {child};
    }

    lemma {:induction false} NothingBelow(p: Path, c: int)
      requires IsTree() && Step(p, c) !in tree
      ensures forall q :: q in tree ==> !Extends(q, Step(p, c))
    {
      forall q | q in tree && Extends(q, Step(p, c))
        ensures false
      {
        UpwardClosed(q, Step(p, c));
      }
    }

    lemma {:induction false} UpwardClosed(q: Path, p: Path)
      requires IsTree() && q in tree && Extends(q, p) && p != Root
      ensures p in tree
    {
      if q != p {
        OneUp(q, p);
        UpwardClosed(q.up, p);
      }
    }

    /** `cache_free_nodes`: the subtrees first, then the node itself. */
    method FreeNodes(n: Node<V>, ghost p: Path) returns (freed: seq<Freed<V>>, ghost paths: seq<Path>)
      requires IsTree() && Linked() && p in tree && n == tree[p].node
      ensures Frees(tree, freed, paths)
      ensures forall q :: q in paths <==> q in tree && Extends(q, p)
      ensures |paths| > 0 && paths[|paths| - 1] == p && BottomUp(paths)
      decreases Below(tree, p) + {p}, 1
    {
      freed, paths := FreeEntries(n.nodes, p);
      var last := Freed(n.value, n.nodes, n);
      FreesBoth(tree, freed, paths, [last], [p]);
      NodeIsLast(paths, p);
      freed, paths := freed + [last], paths + [p];
    }

    /** `cache_free`: every node on a walk of an added key is freed, and none of them twice; it
        terminates because the graph is a tree. */
    method Free() returns (freed: seq<Freed<V>>, ghost paths: seq<Path>)
      requires Valid()
      ensures Frees(tree, freed, paths)
      ensures forall q :: q in paths <==> OnSomeWalk(added, q)
      ensures forall j, k :: 0 <= j < k < |freed| ==> freed[j].node != freed[k].node && freed[j].table != freed[k].table
      ensures forall k :: 0 <= k < |freed| ==> freed[k].table != nodes
      // whatever is below a node is freed before it
      ensures forall j, k :: 0 <= j < |paths| && 0 <= k < |paths| && j != k && Extends(paths[j], paths[k]) ==> j < k
      ensures forall v :: ValueFreed(freed, v) <==> Current(added, v)
      ensures forall v :: ValueFreedTwice(freed, v) <==> CurrentTwice(added, v)
    {
      freed, paths := FreeEntries(nodes, Root);
      forall q | q in tree
        ensures Extends(q, Root)
      {
        AllExtendRoot(q);
      }
      assert forall q :: q in tree <==> q in Values(tree);
      assert forall q :: q in tree ==> tree[q].value == Values(tree)[q];
      forall v
        ensures ValueFreed(freed, v) <==> Current(added, v)
        ensures ValueFreedTwice(freed, v) <==> CurrentTwice(added, v)
      {
        LogIsCurrent(tree, freed, paths, added, v);
        FreedIffCurrent(freed, paths, added, v);
        FreedTwiceIffCurrentTwice(freed, paths, added, v);
      }
      assert forall k :: 0 <= k < |paths| ==> Table(nodes, tree, paths[k]) == freed[k].table;
      assert Table(nodes, tree, Root) == nodes;
    }
  }

  /** `vals` has exactly the walks of the added keys, each with the value last added there. */
  ghost predicate IsRecord<V>(vals: map<Path, Option<V>>, added: seq<(Key, Option<V>)>) {
    && (forall p :: p in vals <==> OnSomeWalk(added, p))
    && (forall p :: p in vals ==> vals[p] == LastValue(added, p))
  }

  /** What the first `k` steps of a walk add: the missing nodes on it, without a value. */
  ghost predicate Grown<V>(was: map<Path, Option<V>>, vals: map<Path, Option<V>>, id: Key, k: nat)
    requires k <= |id|
  {
    && (forall p :: p in vals <==> p in was || OnWalkUpTo(id, k, p))
    && (forall p :: p in vals ==> vals[p] == if p in was then was[p] else None)
  }

  lemma {:induction false} GrownStep<V>(was: map<Path, Option<V>>, vals: map<Path, Option<V>>, id: Key, k: nat)
    requires k < |id|
    requires if k == 0 then vals == was else Grown(was, vals, id, k)
    ensures var p := Walk(id, k + 1);
            Grown(was, if p in vals then vals else vals[p := None], id, k + 1)
  {
    var q := Walk(id, k + 1);
    forall p
      ensures OnWalkUpTo(id, k + 1, p) <==> OnWalkUpTo(id, k, p) || p == q
    {
    }
  }

  /** After the walk and the store, the values are again the last ones added. */
  lemma GrownValues<V>(added: seq<(Key, Option<V>)>, was: map<Path, Option<V>>, vals: map<Path, Option<V>>,
                       id: Key, value: Option<V>)
    requires id != [] && Grown(was, vals, id, |id|) && IsRecord(was, added) && Root !in was
    ensures IsRecord(vals[PathOf(id) := value], added + [(id, value)])
  {
    var added' := added + [(id, value)];
    assert added'[..|added'| - 1] == added;
    assert OnWalkUpTo(id, |id|, PathOf(id));
    forall p
      ensures OnSomeWalk(added', p) <==> OnSomeWalk(added, p) || OnWalk(id, p)
      ensures OnWalk(id, p) && p !in was ==> LastValue(added, p) == None
    {
      OnSomeWalkSnoc(added, (id, value), p);
      if OnWalk(id, p) && p !in was {
        NoValueOffWalks(added, p);
      }
    }
  }

  lemma OnSomeWalkSnoc<V>(added: seq<(Key, Option<V>)>, last: (Key, Option<V>), p: Path)
    ensures OnSomeWalk(added + [last], p) <==> OnSomeWalk(added, p) || OnWalk(last.0, p)
  {
    var all := added + [last];
    if OnSomeWalk(added, p) {
      var i :| 0 <= i < |added| && OnWalk(added[i].0, p);
      assert OnWalk(all[i].0, p);
    }
    if OnWalk(last.0, p) {
      assert OnWalk(all[|added|].0, p);
    }
  }

  lemma {:induction false} NoValueOffWalks<V>(added: seq<(Key, Option<V>)>, p: Path)
    requires p != Root && !OnSomeWalk(added, p)
    ensures LastValue(added, p) == None
  {
    if added != [] {
      var init, last := added[..|added| - 1], added[|added| - 1];
      assert added == init + [last];
      OnSomeWalkSnoc(init, last, p);
      NoValueOffWalks(init, p);
      assert PathOf(last.0) == p ==> last.0 != [] && OnWalk(last.0, p);
    }
  }

  // ---------- Subtrees ----------

  /** `q` is `p` or lies below it. */
  predicate Extends(q: Path, p: Path) {
    q == p || (q.Step? && Extends(q.up, p))
  }

  function Below<V>(tree: map<Path, Entry<V>>, p: Path): set<Path> {
    set q | q in tree && Extends(q, p)
  }

  /** What lies below the entries `0..n` of the table at `p`. */
  ghost predicate BelowFirst(q: Path, p: Path, n: int) {
    exists c :: 0 <= c < n && Extends(q, Step(p, c))
  }

  lemma {:induction false} OneUp(q: Path, p: Path)
    requires Extends(q, p) && q != p
    ensures q == Step(q.up, q.c) && Extends(q.up, p) && (q.up == Root ==> p == Root)
  {
  }

  lemma {:induction false} AllExtendRoot(q: Path)
    ensures Extends(q, Root)
  {
    if q != Root {
      AllExtendRoot(q.up);
    }
  }

  lemma {:induction false} ExtendsDepth(q: Path, p: Path)
    requires Extends(q, p)
    ensures Depth(q) >= Depth(p) && (Depth(q) == Depth(p) ==> q == p)
  {
    if q != p {
      ExtendsDepth(q.up, p);
    }
  }

  lemma {:induction false} BranchesAreDisjoint(q: Path, a: Path, b: Path)
    requires Extends(q, a) && Extends(q, b) && Depth(a) == Depth(b)
    ensures a == b
  {
    ExtendsDepth(q, a);
    ExtendsDepth(q, b);
    if q != a && q != b {
      BranchesAreDisjoint(q.up, a, b);
    }
  }

  /** What lies strictly below `p` lies below one of its children. */
  lemma {:induction false} BelowAChild<V>(tree: map<Path, Entry<V>>, q: Path, p: Path)
    requires forall r, c {:trigger Step(r, c) in tree} :: Step(r, c) in tree ==> 0 <= c < 256 && HasTable(tree, r)
    requires q in tree && Extends(q, p) && q != p
    ensures exists c :: 0 <= c < 256 && Step(p, c) in tree && Extends(q, Step(p, c))
  {
    OneUp(q, p);
    if q.up == p {
      assert Extends(q, Step(p, q.c));
    } else {
      BelowAChild(tree, q.up, p);
      var c :| 0 <= c < 256 && Step(p, c) in tree && Extends(q.up, Step(p, c));
      assert Extends(q, Step(p, c));
    }
  }

  lemma {:induction false} ChildExtends(q: Path, p: Path, c: int)
    requires Extends(q, Step(p, c))
    ensures Extends(q, p) && q != p
    decreases q
  {
    ExtendsDepth(q, Step(p, c));
    if q != Step(p, c) {
      ChildExtends(q.up, p, c);
    }
  }

  /** What `free` is called on for one node: its value unless null, its table, the node. */
  datatype Freed<V> = Freed(value: Option<V>, table: array<Node?<V>>, node: Node<V>)

  /** The log frees the nodes at `paths`, one entry for each. */
  ghost predicate Frees<V>(tree: map<Path, Entry<V>>, freed: seq<Freed<V>>, paths: seq<Path>) {
    && |freed| == |paths|
    && (forall k :: 0 <= k < |paths| ==>
          && paths[k] in tree
          && freed[k] == Freed(tree[paths[k]].value, tree[paths[k]].node.nodes, tree[paths[k]].node))
    && (forall j, k :: 0 <= j < k < |paths| ==> paths[j] != paths[k])
  }

  /** No node is freed after one above it. */
  predicate BottomUp(paths: seq<Path>) {
    forall j, k :: 0 <= j < k < |paths| ==> !Extends(paths[k], paths[j])
  }

  lemma BottomUpBoth(paths: seq<Path>, paths': seq<Path>)
    requires BottomUp(paths) && BottomUp(paths')
    requires forall q, q' :: q in paths && q' in paths' ==> !Extends(q', q)
    ensures BottomUp(paths + paths')
  {
    var all := paths + paths';
    forall j, k | 0 <= j < k < |all|
      ensures !Extends(all[k], all[j])
    {
      assert k < |paths| ==> all[j] == paths[j] && all[k] == paths[k];
      assert k >= |paths| ==> all[k] == paths'[k - |paths|] && all[k] in paths';
      assert if j < |paths| then all[j] in paths else all[j] == paths'[j - |paths|];
    }
  }

  lemma {:induction false} ExtendsOn(q: Path, r: Path, p: Path)
    requires Extends(q, r) && Extends(r, p)
    ensures Extends(q, p)
  {
    if q != r {
      ExtendsOn(q.up, r, p);
    }
  }

  /** Subtrees below different entries share no node, and none of one lies below one of the other. */
  lemma {:induction false} BranchesApart(paths: seq<Path>, paths': seq<Path>, p: Path, i: int)
    requires BottomUp(paths) && BottomUp(paths')
    requires (forall q :: q in paths ==> BelowFirst(q, p, i)) && forall q :: q in paths' ==> Extends(q, Step(p, i))
    ensures (forall q :: q in paths ==> q !in paths') && BottomUp(paths + paths')
  {
    forall q, q' | q in paths && q' in paths'
      ensures !Extends(q', q)
    {
      var c :| 0 <= c < i && Extends(q, Step(p, c));
      if Extends(q', q) {
        ExtendsOn(q', q, Step(p, c));
        BranchesAreDisjoint(q', Step(p, c), Step(p, i));
      }
    }
    assert forall q :: Extends(q, q);
    BottomUpBoth(paths, paths');
  }

  lemma {:induction false} NodeIsLast(paths: seq<Path>, p: Path)
    requires BottomUp(paths) && forall q :: q in paths ==> Extends(q, p) && q != p
    ensures BottomUp(paths + [p])
  {
    forall q | q in paths
      ensures !Extends(p, q)
    {
      ExtendsDepth(q, p);
      if Extends(p, q) {
        ExtendsDepth(p, q);
      }
    }
    BottomUpBoth(paths, [p]);
  }

  // Which values are freed: those that are some key's current value, once for each walk.

  ghost predicate ValueFreed<V>(freed: seq<Freed<V>>, v: V) {
    exists k :: 0 <= k < |freed| && freed[k].value == Some(v)
  }

  ghost predicate ValueFreedTwice<V>(freed: seq<Freed<V>>, v: V) {
    exists j, k :: 0 <= j < k < |freed| && freed[j].value == Some(v) && freed[k].value == Some(v)
  }

  ghost predicate IsCurrentAt<V>(added: seq<(Key, Option<V>)>, q: Path, v: V) {
    OnSomeWalk(added, q) && LastValue(added, q) == Some(v)
  }

  /** `v` is the value last added under some key; one that was overwritten everywhere is not. */
  ghost predicate Current<V>(added: seq<(Key, Option<V>)>, v: V) {
    exists q :: IsCurrentAt(added, q, v)
  }

  /** The same under two keys that the trie tells apart. */
  ghost predicate CurrentTwice<V>(added: seq<(Key, Option<V>)>, v: V) {
    exists q, q' :: q != q' && IsCurrentAt(added, q, v) && IsCurrentAt(added, q', v)
  }

  /** The entries of the log stand for the walks, each with its current value. */
  ghost predicate LogsCurrent<V>(freed: seq<Freed<V>>, paths: seq<Path>, added: seq<(Key, Option<V>)>, v: V) {
    && |freed| == |paths|
    && (forall k :: 0 <= k < |paths| ==> (freed[k].value == Some(v) <==> IsCurrentAt(added, paths[k], v)))
    && (forall q :: IsCurrentAt(added, q, v) ==> q in paths)
    && (forall j, k :: 0 <= j < k < |paths| ==> paths[j] != paths[k])
  }

  lemma {:induction false} LogIsCurrent<V>(tree: map<Path, Entry<V>>, freed: seq<Freed<V>>, paths: seq<Path>,
        added: seq<(Key, Option<V>)>, v: V)
    requires Frees(tree, freed, paths)
    requires forall q :: q in paths <==> OnSomeWalk(added, q)
    requires forall q :: q in tree ==> tree[q].value == LastValue(added, q)
    ensures LogsCurrent(freed, paths, added, v)
  {
    hide OnSomeWalk, LastValue;
    assert forall k :: 0 <= k < |paths| ==> paths[k] in paths && freed[k].value == LastValue(added, paths[k]);
  }

  lemma FreedIffCurrent<V>(freed: seq<Freed<V>>, paths: seq<Path>, added: seq<(Key, Option<V>)>, v: V)
    requires LogsCurrent(freed, paths, added, v)
    ensures ValueFreed(freed, v) <==> Current(added, v)
  {
    hide IsCurrentAt;
    if Current(added, v) {
      var q :| IsCurrentAt(added, q, v);
      var k :| 0 <= k < |paths| && paths[k] == q;
      assert freed[k].value == Some(v);
    }
  }

  lemma FreedTwiceIffCurrentTwice<V>(freed: seq<Freed<V>>, paths: seq<Path>, added: seq<(Key, Option<V>)>, v: V)
    requires LogsCurrent(freed, paths, added, v)
    ensures ValueFreedTwice(freed, v) <==> CurrentTwice(added, v)
  {
    hide IsCurrentAt;
    if CurrentTwice(added, v) {
      var q, q' :| q != q' && IsCurrentAt(added, q, v) && IsCurrentAt(added, q', v);
      var j :| 0 <= j < |paths| && paths[j] == q;
      var k :| 0 <= k < |paths| && paths[k] == q';
      assert freed[j].value == Some(v) && freed[k].value == Some(v) && j != k;
    }
    if ValueFreedTwice(freed, v) {
      var j, k :| 0 <= j < k < |freed| && freed[j].value == Some(v) && freed[k].value == Some(v);
      assert IsCurrentAt(added, paths[j], v) && IsCurrentAt(added, paths[k], v);
    }
  }

  lemma FreesBoth<V>(tree: map<Path, Entry<V>>, freed: seq<Freed<V>>, paths: seq<Path>,
        freed': seq<Freed<V>>, paths': seq<Path>)
    requires Frees(tree, freed, paths) && Frees(tree, freed', paths')
    requires forall q :: q in paths ==> q !in paths'
    ensures Frees(tree, freed + freed', paths + paths')
  {
    var all := paths + paths';
    forall j, k | 0 <= j < k < |all|
      ensures all[j] != all[k]
    {
      assert k < |paths| ==> all[j] == paths[j] && all[k] == paths[k];
      assert k >= |paths| ==> all[k] == paths'[k - |paths|] && all[k] in paths';
      assert if j < |paths| then all[j] in paths else all[j] == paths'[j - |paths|];
    }
  }

  // ---------- Walks and suffixes ----------

  predicate IsSuffix(s: seq<int>, t: seq<int>) {
    |s| <= |t| && t[|t| - |s|..] == s
  }

  /** Up to folding, `id` is a suffix of an added key. */
  predicate IsSuffixOfSome<V>(added: seq<(Key, Option<V>)>, id: Key) {
    exists k :: 0 <= k < |added| && IsSuffix(Folded(id), Folded(added[k].0))
  }

  lemma FoldedTail(id: Key, k: nat)
    requires 0 < k <= |id|
    ensures var t := Folded(id)[|id| - k..];
            t[0] == Slot(id[|id| - k]) && t[1..] == Folded(id)[|id| - (k - 1)..]
            && t == [t[0]] + t[1..]
  {
  }

  /** Two walks of the same length meet exactly when the keys fold alike that far back. */
  lemma {:induction false} SameWalk(a: Key, b: Key, k: nat)
    requires k <= |a| && k <= |b|
    ensures Walk(a, k) == Walk(b, k) <==> Folded(a)[|a| - k..] == Folded(b)[|b| - k..]
  {
    if k > 0 {
      SameWalk(a, b, k - 1);
      FoldedTail(a, k);
      FoldedTail(b, k);
    }
  }

  function Depth(p: Path): nat {
    if p == Root then 0 else 1 + Depth(p.up)
  }

  lemma {:induction false} WalkDepth(id: Key, k: nat)
    requires k <= |id|
    ensures Depth(Walk(id, k)) == k
  {
    if k > 0 {
      WalkDepth(id, k - 1);
    }
  }

  /** The walk of `id` lies on that of `key` exactly when `id`, folded, is a non-empty suffix of it. */
  lemma OnWalkIsSuffix(key: Key, id: Key)
    requires id != []
    ensures OnWalk(key, PathOf(id)) <==> IsSuffix(Folded(id), Folded(key))
  {
    WalkDepth(id, |id|);
    if |id| <= |key| {
      SameWalk(id, key, |id|);
      assert Folded(id)[0..] == Folded(id);
      if IsSuffix(Folded(id), Folded(key)) {
        assert OnWalkUpTo(key, |key|, Walk(key, |id|));
      }
    }
    if OnWalk(key, PathOf(id)) {
      var j :| 0 < j <= |key| && PathOf(id) == Walk(key, j);
      WalkDepth(key, j);
    }
  }

  lemma SomeWalkIsSuffix<V>(added: seq<(Key, Option<V>)>, id: Key)
    requires id != []
    ensures OnSomeWalk(added, PathOf(id)) <==>
            IsSuffixOfSome(added, id)
  {
    forall k | 0 <= k < |added|
      ensures OnWalk(added[k].0, PathOf(id)) <==> IsSuffix(Folded(id), Folded(added[k].0))
    {
      OnWalkIsSuffix(added[k].0, id);
    }
  }

  // ---------- The trie as a map ----------

  /** The trie tells two keys apart exactly as far as folding does. */
  lemma SamePathIffSameFold(a: Key, b: Key)
    ensures PathOf(a) == PathOf(b) <==> Folded(a) == Folded(b)
  {
    WalkDepth(a, |a|);
    WalkDepth(b, |b|);
    if |a| == |b| {
      SameWalk(a, b, |a|);
      assert Folded(a)[0..] == Folded(a) && Folded(b)[0..] == Folded(b);
    }
  }

  predicate IsAscii(id: Key) {
    forall i :: 0 <= i < |id| ==> id[i] >= 0
  }

  /** The finite map that the same additions would make. */
  function AsMap<V>(added: seq<(Key, Option<V>)>): map<Key, Option<V>> {
    if added == [] then map[]
    else
      var (id, value) := added[|added| - 1];
      AsMap(added[..|added| - 1])[id := value]
  }

  /** On ASCII keys the trie is that map: a lookup gives the mapped value, or null for no key. */
  lemma {:induction false} AsciiTrieIsMap<V>(added: seq<(Key, Option<V>)>, id: Key)
    requires IsAscii(id) && forall k :: 0 <= k < |added| ==> IsAscii(added[k].0)
    ensures var m := AsMap(added); LastValue(added, PathOf(id)) == if id in m then m[id] else None
  {
    if added != [] {
      var init, key := added[..|added| - 1], added[|added| - 1].0;
      AsciiTrieIsMap(init, id);
      SamePathIffSameFold(key, id);
      if Folded(key) == Folded(id) {
        assert forall i :: 0 <= i < |id| ==> key[i] == Folded(key)[i] == Folded(id)[i] == id[i];
        assert key == id;
      }
    }
  }

  /** Chars from 128 up all fold to slot 255, so keys that differ only there are one key to the trie. */
  lemma HighCharsCollide(a: Char8, b: Char8)
    requires a < 0 && b < 0
    ensures PathOf([a]) == PathOf([b])
  {
    SamePathIffSameFold([a], [b]);
  }

  /** One value under two keys that fold differently is freed twice ... */
  lemma SharedValueIsCurrentTwice<V>(a: Key, b: Key, v: V)
    requires a != [] && b != [] && Folded(a) != Folded(b)
    ensures CurrentTwice([(a, Some(v)), (b, Some(v))], v)
  {
    var added: seq<(Key, Option<V>)> := [(a, Some(v)), (b, Some(v))];
    SamePathIffSameFold(a, b);
    assert added[..1] == [(a, Some(v))] && |added[..1][..0]| == 0;
    assert OnWalkUpTo(a, |a|, PathOf(a)) && OnWalkUpTo(b, |b|, PathOf(b));
    assert OnWalk(added[0].0, PathOf(a)) && OnWalk(added[1].0, PathOf(b));
    assert LastValue(added[..1], PathOf(a)) == Some(v);
    assert IsCurrentAt(added, PathOf(a), v) && IsCurrentAt(added, PathOf(b), v);
  }

  /** ... and one that was overwritten is never freed. */
  lemma OverwrittenValueIsNotCurrent<V>(a: Key, v: V, w: V)
    requires v != w
    ensures !Current([(a, Some(v)), (a, Some(w))], v)
  {
    var added: seq<(Key, Option<V>)> := [(a, Some(v)), (a, Some(w))];
    assert added[..1] == [(a, Some(v))] && |added[..1][..0]| == 0;
    forall q
      ensures LastValue(added, q) != Some(v)
    {
      assert PathOf(a) != q ==> LastValue(added, q) == LastValue(added[..1], q) == None;
    }
  }
}
