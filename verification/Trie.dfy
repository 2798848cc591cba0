/**
 The dictionary of Trie.hpp: heap nodes with an optional child table and an optional value.
 Its abstract value is a finite map from words to dictionary units.
 */
module Trie {
  import opened Wrappers
  import opened Unicode

  const MAX_WORD_LENGTH: nat := 512

  datatype DictUnit = DictUnit(word: seq<Rune>, weight: real, tag: string)

  /** The abstract value of a trie. */
  type Dictionary = map<seq<Rune>, DictUnit>

  function Lookup(dict: Dictionary, key: seq<Rune>): Option<DictUnit> {
    if key in dict then Some(dict[key]) else None
  }

  /** What one insertion does to the map: the empty key is ignored, a NULL value hides the key. */
  function Inserted(dict: Dictionary, key: seq<Rune>, value: Option<DictUnit>): Dictionary {
    if key == [] then dict
    else match value
      case Some(unit) => dict[key := unit]
      case None => dict - {key}
  }

  /** The map after inserting the pairs in order. */
  function InsertedAll(keys: seq<seq<Rune>>, values: seq<Option<DictUnit>>): Dictionary
    requires |keys| == |values|
  {
    if keys == [] then map[]
    else
      var n := |keys| - 1;
      Inserted(InsertedAll(keys[..n], values[..n]), keys[n], values[n])
  }

  /** k is the last position that holds the key. */
  ghost predicate LastAt(keys: seq<seq<Rune>>, key: seq<Rune>, k: nat) {
    k < |keys| && keys[k] == key && forall m :: k < m < |keys| ==> keys[m] != key
  }

  /** After creation a lookup returns the value of the last equal key, and NULL when there is none. */
  lemma {:induction false} LastKeyWins(keys: seq<seq<Rune>>, values: seq<Option<DictUnit>>, key: seq<Rune>)
    requires |keys| == |values|
    ensures forall k: nat :: LastAt(keys, key, k) && key != [] ==> Lookup(InsertedAll(keys, values), key) == values[k]
    ensures key !in keys || key == [] ==> Lookup(InsertedAll(keys, values), key) == None
  {
    if keys != [] {
      var n := |keys| - 1;
      LastKeyWins(keys[..n], values[..n], key);
      forall k: nat | LastAt(keys, key, k) && key != []
        ensures Lookup(InsertedAll(keys, values), key) == values[k]
      {
        if k < n {
          assert LastAt(keys[..n], key, k);
        }
      }
    }
  }

  // ----- the directed acyclic graph of words over a text

  /** The dictionary word starting at i and ending at j, if there is one; for j == i the single rune. */
  function WordAt(dict: Dictionary, text: seq<Rune>, i: nat, j: nat): Option<DictUnit>
    requires i <= j < |text|
  {
    Lookup(dict, text[i..j + 1])
  }

  datatype Edge = Edge(last: nat, unit: Option<DictUnit>)

  datatype Dag = Dag(runestr: RuneStr, nexts: seq<Edge>, pInfo: Option<DictUnit>, weight: real)

  /** Independent point lookups of every longer word starting at i whose last rune is at j or later. */
  function LongerEdges(dict: Dictionary, text: seq<Rune>, i: nat, j: nat, maxWordLen: nat): seq<Edge>
    requires i < j
    decreases |text| - j
  {
    if j >= |text| || j - i + 1 > maxWordLen then []
    else
      var unit := WordAt(dict, text, i, j);
      (if unit.Some? then [Edge(j, unit)] else []) + LongerEdges(dict, text, i, j + 1, maxWordLen)
  }

  lemma LongerEdgesEnd(dict: Dictionary, text: seq<Rune>, i: nat, j: nat, maxWordLen: nat, nexts: seq<Edge>)
    requires i < j && (j >= |text| || j - i + 1 > maxWordLen)
    ensures WalkTotal(dict, text, i, j, maxWordLen, nexts) == nexts
  {}

  function Edges(dict: Dictionary, text: seq<Rune>, i: nat, maxWordLen: nat): seq<Edge>
    requires i < |text|
  {
    [Edge(i, WordAt(dict, text, i, i))] + LongerEdges(dict, text, i, i + 1, maxWordLen)
  }

  lemma EdgesHead(dict: Dictionary, text: seq<Rune>, i: nat, maxWordLen: nat)
    requires i < |text|
    ensures Edges(dict, text, i, maxWordLen)
         == WalkTotal(dict, text, i, i + 1, maxWordLen, [Edge(i, WordAt(dict, text, i, i))])
  {}

  /** The edges found so far, followed by those that the walk can still find from j on. */
  ghost function WalkTotal(dict: Dictionary, text: seq<Rune>, i: nat, j: nat, maxWordLen: nat,
                           nexts: seq<Edge>): seq<Edge>
    requires i < j
  {
    nexts + LongerEdges(dict, text, i, j, maxWordLen)
  }

  /** The edges are exactly the dictionary words from i whose last rune is at j or later, within the limit, in order. */
  ghost predicate ExactEdges(es: seq<Edge>, dict: Dictionary, text: seq<Rune>, i: nat, j: nat, maxWordLen: nat)
    requires i < j
  {
    && (forall k :: 0 <= k < |es| ==> IsLongerEdge(es[k], dict, text, i, j, maxWordLen))
    && (forall k, m :: 0 <= k < m < |es| ==> es[k].last < es[m].last)
    && (forall e :: IsLongerEdge(e, dict, text, i, j, maxWordLen) ==> e in es)
  }

  ghost predicate IsLongerEdge(e: Edge, dict: Dictionary, text: seq<Rune>, i: nat, j: nat, maxWordLen: nat)
    requires i < j
  {
    && j <= e.last < |text| && e.last - i + 1 <= maxWordLen
    && e.unit.Some? && e.unit == WordAt(dict, text, i, e.last)
  }

  lemma {:induction false} LongerEdgesExact(dict: Dictionary, text: seq<Rune>, i: nat, j: nat, maxWordLen: nat)
    requires i < j
    ensures ExactEdges(LongerEdges(dict, text, i, j, maxWordLen), dict, text, i, j, maxWordLen)
    decreases |text| - j
  {
    if j < |text| && j - i + 1 <= maxWordLen {
      var rest := LongerEdges(dict, text, i, j + 1, maxWordLen);
      var es := LongerEdges(dict, text, i, j, maxWordLen);
      LongerEdgesExact(dict, text, i, j + 1, maxWordLen);
      assert forall e :: IsLongerEdge(e, dict, text, i, j, maxWordLen) <==>
        IsLongerEdge(e, dict, text, i, j + 1, maxWordLen) || (e == Edge(j, WordAt(dict, text, i, j)) && e.unit.Some?);
      assert forall k :: 0 <= k < |rest| ==> IsLongerEdge(rest[k], dict, text, i, j + 1, maxWordLen);
    }
  }

  // ----- the heap structure

  class TrieNode {
    var next: Option<map<Rune, TrieNode>>
    var ptValue: Option<DictUnit>

    constructor ()
      ensures next == None && ptValue == None
    {
      next, ptValue := None, None;
    }

    ghost predicate HasChild(r: Rune)
      reads this`next
    {
      next.Some? && r in next.value
    }

    ghost function Child(r: Rune): TrieNode
      requires HasChild(r)
      reads this`next
    {
      next.value[r]
    }
  }

  /** The path of runes from the root to a node, last rune outermost. */
  datatype Path = Root | Step(parent: Path, rune: Rune)

  ghost function PathOf(key: seq<Rune>): Path {
    if key == [] then Root else Step(PathOf(key[..|key| - 1]), key[|key| - 1])
  }

  ghost function KeyOf(p: Path): seq<Rune> {
    match p
    case Root => []
    case Step(q, r) => KeyOf(q) + [r]
  }

  lemma {:induction false} KeyOfPath(key: seq<Rune>)
    ensures KeyOf(PathOf(key)) == key
  {
    if key != [] {
      KeyOfPath(key[..|key| - 1]);
    }
  }

  lemma PathsDiffer(key: seq<Rune>)
    ensures forall k :: PathOf(k) == PathOf(key) <==> k == key
  {
    forall k | PathOf(k) == PathOf(key)
      ensures k == key
    {
      KeyOfPath(k);
      KeyOfPath(key);
    }
  }

  lemma PathPrefix(key: seq<Rune>, k: nat)
    requires k < |key|
    ensures PathOf(key[..k + 1]) == Step(PathOf(key[..k]), key[k])
  {
    assert key[..k + 1][..k] == key[..k];
  }

  lemma PathSlice(text: seq<Rune>, i: nat, j: nat)
    requires i <= j < |text|
    ensures PathOf(text[i..j + 1]) == Step(PathOf(text[i..j]), text[j])
  {
    var key := text[i..j + 1];
    assert key[..|key| - 1] == text[i..j];
  }

  class Trie {
    const root: TrieNode
    /** Every node under the path of runes that leads to it. */
    ghost var nodes: map<Path, TrieNode>
    /** The abstract value. */
    ghost var dict: Dictionary

    /** The nodes form a tree: one node per path, no node on two paths, child tables agree with the paths. */
    ghost predicate Tree()
      reads this`nodes, nodes.Values`next
    {
      && Root in nodes && nodes[Root] == root
      && (forall p, q :: p in nodes && q in nodes && nodes[p] == nodes[q] ==> p == q)
      && (forall p, r :: Step(p, r) in nodes ==> p in nodes)
      && (forall p, r :: p in nodes ==> (nodes[p].HasChild(r) <==> Step(p, r) in nodes))
      && (forall p, r :: p in nodes && nodes[p].HasChild(r) ==> nodes[p].Child(r) == nodes[Step(p, r)])
    }

    ghost function ValueAt(p: Path): Option<DictUnit>
      reads this`nodes, nodes.Values`ptValue
    {
      if p in nodes then nodes[p].ptValue else None
    }

    ghost predicate Valid()
      reads this, nodes.Values
    {
      && Tree()
      && ValueAt(Root) == None
      && forall key :: Lookup(dict, key) == ValueAt(PathOf(key))
    }

    constructor (keys: seq<seq<Rune>>, valuePointers: seq<Option<DictUnit>>)
      requires keys == [] || valuePointers == [] || |keys| == |valuePointers|
      ensures Valid() && fresh(nodes.Values)
      ensures dict == if valuePointers == [] || keys == [] then map[] else InsertedAll(keys, valuePointers)
    {
      var node := new TrieNode();
      root := node;
      nodes := map[Root := node];
      dict := map[];
      new;
      assert Valid();
      CreateTrie(keys, valuePointers);
    }

    method CreateTrie(keys: seq<seq<Rune>>, valuePointers: seq<Option<DictUnit>>)
      requires Valid() && dict == map[]
      requires keys == [] || valuePointers == [] || |keys| == |valuePointers|
      modifies this, nodes.Values
      ensures Valid() && fresh(nodes.Values - old(nodes.Values))
      ensures dict == if valuePointers == [] || keys == [] then map[] else InsertedAll(keys, valuePointers)
    {
      hide Valid;
      if valuePointers == [] || keys == [] {
        return;
      }
      for i := 0 to |keys|
        invariant Valid() && fresh(nodes.Values - old(nodes.Values))
        invariant dict == InsertedAll(keys[..i], valuePointers[..i])
      {
        InsertNode(keys[i], valuePointers[i]);
        assert keys[..i + 1][..i] == keys[..i];
        assert valuePointers[..i + 1][..i] == valuePointers[..i];
      }
      assert keys[..|keys|] == keys && valuePointers[..|keys|] == valuePointers;
    }

    method InsertNode(key: seq<Rune>, ptValue: Option<DictUnit>)
      requires Valid()
      modifies this, nodes.Values
      ensures Valid() && fresh(nodes.Values - old(nodes.Values))
      ensures dict == Inserted(old(dict), key, ptValue)
    {
      if key == [] {
        return;
      }
      var ptNode := root;
      for k := 0 to |key|
        invariant Valid() && fresh(nodes.Values - old(nodes.Values))
        invariant PathOf(key[..k]) in nodes && ptNode == nodes[PathOf(key[..k])]
        invariant dict == old(dict)
      {
        PathPrefix(key, k);
        assert ptNode in nodes.Values;
        ptNode := Descend(ptNode, key[k], PathOf(key[..k]));
      }
      assert key[..|key|] == key;
      StoreValue(ptNode, key, ptValue);
    }

    /** One step of the insertion loop: the child for rune r, created if it is missing. */
    method Descend(ptNode: TrieNode, r: Rune, ghost path: Path) returns (child: TrieNode)
      requires Tree() && path in nodes && nodes[path] == ptNode
      modifies this`nodes, ptNode`next
      ensures Tree() && fresh(nodes.Values - old(nodes.Values))
      ensures Step(path, r) in nodes && child == nodes[Step(path, r)]
      ensures forall p :: ValueAt(p) == old(ValueAt(p))
    {
      if ptNode.next.Some? && r in ptNode.next.value {
        assert ptNode.HasChild(r);
        child := ptNode.next.value[r];
      } else {
        assert !ptNode.HasChild(r);
        child := new TrieNode();
        AttachChild(ptNode, r, child, path);
      }
    }

    method AttachChild(ptNode: TrieNode, r: Rune, child: TrieNode, ghost path: Path)
      requires Tree() && path in nodes && nodes[path] == ptNode && !ptNode.HasChild(r)
      requires child !in nodes.Values && child.next == None
      modifies this`nodes, ptNode`next
      ensures Tree()
      ensures nodes == old(nodes)[Step(path, r) := child]
    {
      ghost var before := nodes;
      assert Step(path, r) !in nodes;
      assert forall q | q in nodes :: nodes[q] in nodes.Values && nodes[q] != child;
      assert forall q | q in nodes && q != path :: nodes[q] != ptNode;
      var table := if ptNode.next.Some? then ptNode.next.value else map[];
      ptNode.next := Some(table[r := child]);
      nodes := nodes[Step(path, r) := child];
      forall p, x | p in nodes
        ensures nodes[p].HasChild(x) <==> Step(p, x) in nodes
        ensures nodes[p].HasChild(x) ==> nodes[p].Child(x) == nodes[Step(p, x)]
      {
        if p == Step(path, r) {
          assert Step(p, x) !in before;
        } else if p != path {
          assert before[p].next == old(before[p].next);
          if before[p].HasChild(x) {
            assert before[p].Child(x) == before[Step(p, x)];
          }
        } else if x != r {
          assert ptNode.HasChild(x) == old(ptNode.HasChild(x));
          if ptNode.HasChild(x) {
            assert old(ptNode.HasChild(x));
            assert x in table && ptNode.next.value[x] == table[x];
            assert old(ptNode.Child(x)) == table[x];
            assert old(before[p].Child(x)) == before[Step(p, x)];
          }
        }
      }
    }

    /** The last assignment of the insertion. */
    method StoreValue(ptNode: TrieNode, key: seq<Rune>, ptValue: Option<DictUnit>)
      requires Valid() && key != [] && PathOf(key) in nodes && nodes[PathOf(key)] == ptNode
      modifies this`dict, ptNode`ptValue
      ensures Valid()
      ensures dict == Inserted(old(dict), key, ptValue)
    {
      ghost var target := PathOf(key);
      assert forall p :: p in nodes && nodes[p] == ptNode ==> p == target;
      ptNode.ptValue := ptValue;
      dict := Inserted(dict, key, ptValue);
      assert forall p :: ValueAt(p) == if p == target then ptValue else old(ValueAt(p));
      PathsDiffer(key);
    }

    lemma {:induction false} MissingPrefix(key: seq<Rune>, k: nat)
      requires Tree() && k <= |key| && PathOf(key[..k]) !in nodes
      ensures PathOf(key) !in nodes
      decreases |key| - k
    {
      if k == |key| {
        assert key[..k] == key;
      } else {
        PathPrefix(key, k);
        MissingPrefix(key, k + 1);
      }
    }

    /** The node below ptNode for a rune, or NULL. */
    function Follow(ptNode: TrieNode?, rune: Rune): TrieNode?
      reads if ptNode == null then {} else {ptNode}
    {
      if ptNode == null || ptNode.next == None || rune !in ptNode.next.value then null
      else ptNode.next.value[rune]
    }

    lemma FollowPath(path: Path, rune: Rune)
      requires Tree()
      ensures Follow(NodeAt(path), rune) == NodeAt(Step(path, rune))
    {
      if path in nodes {
        assert nodes[path].HasChild(rune) <==> Step(path, rune) in nodes;
      }
    }

    ghost function NodeAt(p: Path): TrieNode?
      reads this`nodes
    {
      if p in nodes then nodes[p] else null
    }

    /** The walk along a key has reached a node after k runes, or fallen off the tree. */
    ghost predicate Reached(key: seq<Rune>, k: nat, ptNode: TrieNode?)
      reads this`nodes
    {
      k <= |key| && ptNode == NodeAt(PathOf(key[..k]))
    }

    lemma ReachedStart(key: seq<Rune>)
      requires Valid()
      ensures Reached(key, 0, root)
    {
      assert key[..0] == [];
    }

    /** One step of a lookup: a missing node means that the key is missing. */
    lemma ReachedStep(key: seq<Rune>, k: nat, ptNode: TrieNode?)
      requires Valid() && k < |key| && Reached(key, k, ptNode)
      ensures Reached(key, k + 1, Follow(ptNode, key[k]))
      ensures Follow(ptNode, key[k]) == null ==> Lookup(dict, key) == None
    {
      PathPrefix(key, k);
      FollowPath(PathOf(key[..k]), key[k]);
      assert Lookup(dict, key) == ValueAt(PathOf(key));
      if NodeAt(PathOf(key[..k + 1])) == null {
        MissingPrefix(key, k + 1);
      }
    }

    lemma ReachedEnd(key: seq<Rune>, ptNode: TrieNode)
      requires Valid() && Reached(key, |key|, ptNode)
      ensures ptNode.ptValue == Lookup(dict, key)
    {
      assert key[..|key|] == key;
      assert Lookup(dict, key) == ValueAt(PathOf(key));
    }

    lemma NoEmptyKey()
      requires Valid()
      ensures Lookup(dict, []) == None
    {
      assert Lookup(dict, []) == ValueAt(PathOf([]));
    }

    /** The point lookup of a range of runes. */
    method Find(runes: seq<RuneStr>, begin: nat, end: nat) returns (r: Option<DictUnit>)
      requires Valid() && begin <= end <= |runes|
      ensures r == Lookup(dict, Text(runes, begin, end))
    {
      hide Valid, Reached, Lookup;
      ghost var key := Text(runes, begin, end);
      if begin == end {
        NoEmptyKey();
        return None;
      }
      ReachedStart(key);
      var ptNode := root;
      var it := begin;
      while it != end
        invariant begin <= it <= end && Reached(key, it - begin, ptNode)
        decreases end - it
      {
        ReachedStep(key, it - begin, ptNode);
        var rune := runes[it].rune;
        if ptNode.next == None || rune !in ptNode.next.value {
          return None;
        }
        ptNode := ptNode.next.value[rune];
        it := it + 1;
      }
      ReachedEnd(key, ptNode);
      return ptNode.ptValue;
    }

    lemma {:induction false} NoLongerEdges(text: seq<Rune>, i: nat, j: nat, maxWordLen: nat)
      requires Valid() && i < j
      requires j < |text| ==> NodeAt(PathOf(text[i..j + 1])) == null
      ensures LongerEdges(dict, text, i, j, maxWordLen) == []
      decreases |text| - j
    {
      if j < |text| && j - i + 1 <= maxWordLen {
        assert Lookup(dict, text[i..j + 1]) == ValueAt(PathOf(text[i..j + 1]));
        if j + 1 < |text| {
          assert text[i..j + 2][..j + 1 - i] == text[i..j + 1];
          MissingPrefix(text[i..j + 2], j + 1 - i);
        }
        NoLongerEdges(text, i, j + 1, maxWordLen);
      }
    }

    /** The walk that builds the word graph: its early exits lose no word. */
    method FindDag(runes: seq<RuneStr>, begin: nat, end: nat, maxWordLen: nat) returns (res: array<Dag>)
      requires Valid() && begin <= end <= |runes|
      ensures fresh(res) && res.Length == end - begin
      ensures forall i :: 0 <= i < res.Length ==>
                res[i] == Dag(runes[begin + i], Edges(dict, Text(runes, begin, end), i, maxWordLen), None, 0.0)
    {
      hide Edges, Valid, RunesOf;
      ghost var text := Text(runes, begin, end);
      res := new Dag[end - begin](i requires 0 <= i < end - begin => Dag(runes[begin + i], [], None, 0.0));
      for i := 0 to end - begin
        invariant forall k :: 0 <= k < i ==>
                    res[k] == Dag(runes[begin + k], Edges(dict, text, k, maxWordLen), None, 0.0)
        invariant forall k :: i <= k < res.Length ==> res[k] == Dag(runes[begin + k], [], None, 0.0)
      {
        var nexts := EdgesFrom(runes, begin, end, i, maxWordLen);
        res[i] := res[i].(nexts := nexts);
      }
    }

    /** The word at [i, j] is the value of the node that the walk reaches. */
    lemma WordAtNode(text: seq<Rune>, i: nat, j: nat)
      requires Valid() && i <= j < |text|
      ensures PathOf(text[i..j + 1]) == Step(PathOf(text[i..j]), text[j])
      ensures var node := NodeAt(PathOf(text[i..j + 1]));
              WordAt(dict, text, i, j) == if node == null then None else node.ptValue
    {
      PathSlice(text, i, j);
      assert Lookup(dict, text[i..j + 1]) == ValueAt(PathOf(text[i..j + 1]));
    }

    /** What one step of the walk contributes: a NULL node ends it, a node without a value adds nothing. */
    lemma WalkStep(text: seq<Rune>, i: nat, j: nat, maxWordLen: nat, nexts: seq<Edge>)
      requires Valid() && i < j < |text| && j - i + 1 <= maxWordLen
      ensures Follow(NodeAt(PathOf(text[i..j])), text[j]) == NodeAt(PathOf(text[i..j + 1]))
      ensures var node := NodeAt(PathOf(text[i..j + 1]));
              WalkTotal(dict, text, i, j, maxWordLen, nexts)
              == if node == null then nexts
                 else WalkTotal(dict, text, i, j + 1, maxWordLen,
                                if node.ptValue.Some? then nexts + [Edge(j, node.ptValue)] else nexts)
    {
      WordAtNode(text, i, j);
      FollowPath(PathOf(text[i..j]), text[j]);
      var node := NodeAt(PathOf(text[i..j + 1]));
      var rest := LongerEdges(dict, text, i, j + 1, maxWordLen);
      if node == null {
        NoLongerEdges(text, i, j, maxWordLen);
      } else if node.ptValue.Some? {
        assert nexts + ([Edge(j, node.ptValue)] + rest) == (nexts + [Edge(j, node.ptValue)]) + rest;
      } else {
        assert [] + rest == rest;
      }
    }

    /** The walk from i has come to j, and what it has found and can still find are the edges. */
    ghost predicate Walking(text: seq<Rune>, i: nat, j: nat, maxWordLen: nat, ptNode: TrieNode?, nexts: seq<Edge>,
                            edges: seq<Edge>)
      reads this`nodes, this`dict
    {
      && i < j <= |text| && ptNode == NodeAt(PathOf(text[i..j]))
      && edges == WalkTotal(dict, text, i, j, maxWordLen, nexts)
    }

    /** The first step of the walk: the single rune is an edge even if it is no word. */
    method SingleRune(runes: seq<RuneStr>, begin: nat, end: nat, i: nat, ghost maxWordLen: nat)
      returns (ptNode: TrieNode?, nexts: seq<Edge>)
      requires Valid() && begin <= end <= |runes| && i < end - begin
      ensures var text := Text(runes, begin, end);
              && nexts == [Edge(i, WordAt(dict, text, i, i))]
              && Walking(text, i, i + 1, maxWordLen, ptNode, nexts, Edges(dict, text, i, maxWordLen))
    {
      hide WordAt, RunesOf, Edges, WalkTotal;
      ghost var text := Text(runes, begin, end);
      WordAtNode(text, i, i);
      FollowPath(Root, text[i]);
      assert Tree() && root == NodeAt(Root) && PathOf(text[i..i]) == Root;
      EdgesHead(dict, text, i, maxWordLen);
      ptNode := Follow(root, runes[begin + i].rune);
      if ptNode != null {
        nexts := [Edge(i, ptNode.ptValue)];
      } else {
        nexts := [Edge(i, None)];
      }
    }

    /** One step of the walk: a missing child ends it, a node with a value is an edge. */
    method OneStep(ghost text: seq<Rune>, ghost i: nat, j: nat, ghost maxWordLen: nat, ptNode: TrieNode?, rune: Rune,
                   nexts: seq<Edge>, ghost edges: seq<Edge>)
      returns (node: TrieNode?, more: seq<Edge>)
      requires Valid() && Walking(text, i, j, maxWordLen, ptNode, nexts, edges)
      requires j < |text| && j - i + 1 <= maxWordLen && rune == text[j]
      ensures node == NodeAt(PathOf(text[i..j + 1]))
      ensures if node == null then more == edges else Walking(text, i, j + 1, maxWordLen, node, more, edges)
    {
      hide Valid, Tree, NodeAt, PathOf, WalkTotal;
      WalkStep(text, i, j, maxWordLen, nexts);
      more := nexts;
      node := Follow(ptNode, rune);
      if node != null && node.ptValue != None {
        more := more + [Edge(j, node.ptValue)];
      }
    }

    lemma WalkEnd(text: seq<Rune>, i: nat, j: nat, maxWordLen: nat, ptNode: TrieNode?, nexts: seq<Edge>,
                  edges: seq<Edge>)
      requires Walking(text, i, j, maxWordLen, ptNode, nexts, edges) && (j == |text| || j - i + 1 > maxWordLen)
      ensures nexts == edges
    {
      LongerEdgesEnd(dict, text, i, j, maxWordLen, nexts);
    }

    /** The walk from one start position. */
    method EdgesFrom(runes: seq<RuneStr>, begin: nat, end: nat, i: nat, maxWordLen: nat) returns (nexts: seq<Edge>)
      requires Valid() && begin <= end <= |runes| && i < end - begin
      ensures nexts == Edges(dict, Text(runes, begin, end), i, maxWordLen)
    {
      hide Valid, Walking, NodeAt, PathOf, RunesOf, Edges;
      ghost var text := Text(runes, begin, end);
      ghost var edges := Edges(dict, text, i, maxWordLen);
      var ptNode;
      ptNode, nexts := SingleRune(runes, begin, end, i, maxWordLen);
      var j := i + 1;
      while j < end - begin && j - i + 1 <= maxWordLen
        invariant i < j <= end - begin && Walking(text, i, j, maxWordLen, ptNode, nexts, edges)
      {
        ptNode, nexts := OneStep(text, i, j, maxWordLen, ptNode, runes[begin + j].rune, nexts, edges);
        if ptNode == null {
          return;
        }
        j := j + 1;
      }
      WalkEnd(text, i, j, maxWordLen, ptNode, nexts, edges);
    }
  }

  /** The runes of the range [begin, end). */
  ghost function Text(runes: seq<RuneStr>, begin: nat, end: nat): (text: seq<Rune>)
    requires begin <= end <= |runes|
    ensures |text| == end - begin
    ensures forall k :: 0 <= k < |text| ==> text[k] == runes[begin + k].rune
  {
    RunesOf(runes)[begin..end]
  }
}
