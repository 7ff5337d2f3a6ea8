/** The packed byte tries: built by format/trie.rb, checked by `parse_trie` and walked by
    `se_trie_longest_match` in se_format.c.
  */
module ByteTrie {
  import opened Utf8
  import opened Words

  datatype Node = Node(terminal: nat, children: map<byte, nat>)

  // ----- the linked form the builder works on -----

  function Snoc(p: seq<byte>, b: byte): seq<byte> { p + [b] }

  lemma SnocInjective(p: seq<byte>, b: byte, q: seq<byte>, c: byte)
    requires Snoc(p, b) == Snoc(q, c)
    ensures p == q && b == c
  {
    assert p == Snoc(p, b)[..|p|] && q == Snoc(q, c)[..|q|];
    assert b == Snoc(p, b)[|p|] && c == Snoc(q, c)[|q|];
  }

  lemma SnocShape(p: seq<byte>, b: byte)
    ensures |Snoc(p, b)| == |p| + 1 && Snoc(p, b)[..|p|] == p
  {
  }

  /** Node j has a child for byte b exactly when the path one byte longer has a node. */
  ghost predicate ChildLink(nodes: seq<Node>, paths: seq<seq<byte>>, index: map<seq<byte>, nat>, j: nat, b: byte)
    requires j < |nodes| == |paths|
  {
    if b in nodes[j].children
    then Snoc(paths[j], b) in index && nodes[j].children[b] == index[Snoc(paths[j], b)]
    else Snoc(paths[j], b) !in index
  }

  /** `paths[j]` spells the way to node j and `index` is its inverse; paths are closed under prefixes. */
  ghost predicate Paths(paths: seq<seq<byte>>, index: map<seq<byte>, nat>) {
    && |paths| > 0 && paths[0] == []
    && (forall j | 0 <= j < |paths| :: paths[j] in index && index[paths[j]] == j)
    && (forall p | p in index :: index[p] < |paths| && paths[index[p]] == p)
    && (forall p | p in index && p != [] :: p[..|p| - 1] in index)
  }

  ghost predicate Linked(nodes: seq<Node>, paths: seq<seq<byte>>, index: map<seq<byte>, nat>) {
    && |paths| == |nodes| && Paths(paths, index)
    && forall j, b: byte | 0 <= j < |nodes| :: ChildLink(nodes, paths, index, j, b)
  }

  /** The terminals are exactly the keys. */
  ghost predicate Holds(nodes: seq<Node>, paths: seq<seq<byte>>, index: map<seq<byte>, nat>, keys: map<seq<byte>, nat>)
  {
    && |paths| == |nodes| && [] !in keys
    && (forall k | k in keys :: k in index && keys[k] != SLOT_EMPTY)
    && (forall j | 0 <= j < |nodes| :: nodes[j].terminal == if paths[j] in keys then keys[paths[j]] else SLOT_EMPTY)
  }

  function WithChild(nodes: seq<Node>, at: nat, b: byte): seq<Node>
    requires at < |nodes|
  {
    nodes[at := Node(nodes[at].terminal, nodes[at].children[b := |nodes|])] + [Node(SLOT_EMPTY, map[])]
  }

  lemma AppendPath(paths: seq<seq<byte>>, index: map<seq<byte>, nat>, at: nat, b: byte)
    requires Paths(paths, index) && at < |paths| && Snoc(paths[at], b) !in index
    ensures Paths(paths + [Snoc(paths[at], b)], index[Snoc(paths[at], b) := |paths|])
  {
    SnocShape(paths[at], b);
    hide Snoc;
    var longer := Snoc(paths[at], b);
    var paths', index' := paths + [longer], index[longer := |paths|];
    forall j | 0 <= j < |paths'|
      ensures paths'[j] in index' && index'[paths'[j]] == j
    {
    }
    forall p | p in index'
      ensures index'[p] < |paths'| && paths'[index'[p]] == p
      ensures p != [] ==> p[..|p| - 1] in index'
    {
    }
  }

  lemma AppendNode(nodes: seq<Node>, paths: seq<seq<byte>>, index: map<seq<byte>, nat>, keys: map<seq<byte>, nat>,
                   at: nat,
                   b: byte)
    requires Linked(nodes, paths, index) && Holds(nodes, paths, index, keys)
    requires at < |nodes| && b !in nodes[at].children
    ensures var paths', index' := paths + [Snoc(paths[at], b)], index[Snoc(paths[at], b) := |nodes|];
            Linked(WithChild(nodes, at, b), paths', index') && Holds(WithChild(nodes, at, b), paths', index', keys)
  {
    var longer := Snoc(paths[at], b);
    var nodes', paths', index' := WithChild(nodes, at, b), paths + [longer], index[longer := |nodes|];
    assert ChildLink(nodes, paths, index, at, b);
    hide Snoc, Paths, Holds;
    AppendPath(paths, index, at, b);
    forall j, c: byte | 0 <= j < |nodes'|
      ensures ChildLink(nodes', paths', index', j, c)
    {
      ChildLinkAfter(nodes, paths, index, at, b, j, c);
    }
    HoldsAfter(nodes, paths, index, keys, at, b);
  }

  lemma HoldsAfter(nodes: seq<Node>, paths: seq<seq<byte>>, index: map<seq<byte>, nat>, keys: map<seq<byte>, nat>,
                   at: nat,
                   b: byte)
    requires Holds(nodes, paths, index, keys) && at < |nodes| && Snoc(paths[at], b) !in index
    ensures Holds(WithChild(nodes, at, b), paths + [Snoc(paths[at], b)], index[Snoc(paths[at], b) := |nodes|], keys)
  {
    hide Snoc;
    assert Snoc(paths[at], b) !in keys;
  }

  lemma ChildLinkAfter(nodes: seq<Node>, paths: seq<seq<byte>>, index: map<seq<byte>, nat>, at: nat, b: byte, j: nat,
                       c: byte)
    requires Linked(nodes, paths, index) && at < |nodes| && b !in nodes[at].children && j <= |nodes|
    ensures ChildLink(WithChild(nodes, at, b), paths + [Snoc(paths[at], b)], index[Snoc(paths[at], b) := |nodes|], j, c)
  {
    hide Snoc;
    var longer := Snoc(paths[at], b);
    assert ChildLink(nodes, paths, index, at, b);
    if j < |nodes| {
      assert ChildLink(nodes, paths, index, j, c);
      if Snoc(paths[j], c) == longer {
        SnocInjective(paths[j], c, paths[at], b);
        assert index[paths[j]] == j && index[paths[at]] == at;
      }
    } else {
      NothingBehind(paths, index, at, b, c);
    }
  }

  lemma NothingBehind(paths: seq<seq<byte>>, index: map<seq<byte>, nat>, at: nat, b: byte, c: byte)
    requires Paths(paths, index) && at < |paths| && Snoc(paths[at], b) !in index
    ensures Snoc(Snoc(paths[at], b), c) !in index && Snoc(Snoc(paths[at], b), c) != Snoc(paths[at], b)
  {
    SnocShape(Snoc(paths[at], b), c);
    hide Snoc;
  }

  lemma LinkedBasics(nodes: seq<Node>, paths: seq<seq<byte>>, index: map<seq<byte>, nat>)
    requires Linked(nodes, paths, index)
    ensures |paths| == |nodes| > 0 && paths[0] == []
    ensures forall p | p in index :: index[p] < |nodes| && paths[index[p]] == p
    ensures forall j | 0 <= j < |paths| :: paths[j] in index && index[paths[j]] == j
  {
  }

  lemma ChildOf(nodes: seq<Node>, paths: seq<seq<byte>>, index: map<seq<byte>, nat>, at: nat, b: byte)
    requires Linked(nodes, paths, index) && at < |nodes|
    ensures b in nodes[at].children ==>
        nodes[at].children[b] < |nodes| && paths[nodes[at].children[b]] == Snoc(paths[at], b)
  {
    assert ChildLink(nodes, paths, index, at, b);
  }

  lemma TerminalOf(nodes: seq<Node>, paths: seq<seq<byte>>, index: map<seq<byte>, nat>, keys: map<seq<byte>, nat>,
                   at: nat)
    requires at < |nodes| == |paths| && Holds(nodes, paths, index, keys)
    ensures nodes[at].terminal != SLOT_EMPTY <==> paths[at] in keys
    ensures paths[at] in keys ==> nodes[at].terminal == keys[paths[at]]
    ensures [] !in keys && forall k | k in keys :: k in index
  {
  }

  lemma SetTerminal(nodes: seq<Node>, paths: seq<seq<byte>>, index: map<seq<byte>, nat>, keys: map<seq<byte>, nat>,
                    at: nat, id: nat)
    requires Linked(nodes, paths, index) && Holds(nodes, paths, index, keys)
    requires at < |nodes| && paths[at] != [] && id != SLOT_EMPTY
    ensures Linked(nodes[at := Node(id, nodes[at].children)], paths, index)
    ensures Holds(nodes[at := Node(id, nodes[at].children)], paths, index, keys[paths[at] := id])
  {
    var nodes' := nodes[at := Node(id, nodes[at].children)];
    hide Snoc, Paths;
    LinkedBasics(nodes, paths, index);
    forall j, b: byte | 0 <= j < |nodes'|
      ensures ChildLink(nodes', paths, index, j, b)
    {
      assert ChildLink(nodes, paths, index, j, b);
    }
  }

  /** The edges of all nodes together. */
  ghost function EdgeCount(nodes: seq<Node>): nat {
    if nodes == [] then 0
    else EdgeCount(nodes[..|nodes| - 1]) + |SortedEdges(nodes[|nodes| - 1].children, 0)|
  }

  lemma NothingCounted(nodes: seq<Node>)
    ensures EdgeCount(nodes[..0]) == 0
  {
  }

  lemma NoEdges(nodes: seq<Node>)
    requires nodes == [Node(SLOT_EMPTY, map[])]
    ensures EdgeCount(nodes) == 0
  {
    NoChildren(0);
    hide SortedEdges;
    assert nodes[..0] == [];
  }

  lemma {:induction false} NoChildren(from: nat)
    requires from <= 256
    ensures SortedEdges(map[], from) == []
    decreases 256 - from
  {
    if from < 256 { NoChildren(from + 1); }
  }

  lemma EdgesNext(nodes: seq<Node>, j: nat)
    requires j < |nodes|
    ensures EdgeCount(nodes[..j + 1]) == EdgeCount(nodes[..j]) + |SortedEdges(nodes[j].children, 0)|
  {
    hide SortedEdges;
    assert nodes[..j + 1][..j] == nodes[..j];
  }

  lemma {:induction false} EdgeUpdate(nodes: seq<Node>, at: nat, node: Node)
    requires at < |nodes|
    ensures EdgeCount(nodes[at := node]) ==
            EdgeCount(nodes) - |SortedEdges(nodes[at].children, 0)| + |SortedEdges(node.children, 0)|
  {
    hide SortedEdges;
    var n := |nodes| - 1;
    if at < n {
      assert nodes[at := node][..n] == nodes[..n][at := node];
      EdgeUpdate(nodes[..n], at, node);
    } else {
      assert nodes[at := node][..n] == nodes[..n];
    }
  }

  lemma {:induction false} OneMoreEdge(children: map<byte, nat>, from: nat, b: byte, child: nat)
    requires b !in children && from <= 256
    ensures |SortedEdges(children[b := child], from)| == |SortedEdges(children, from)| + if from <= b then 1 else 0
    decreases 256 - from
  {
    if from < 256 { OneMoreEdge(children, from + 1, b, child); }
  }

  lemma EdgeAdded(nodes: seq<Node>, at: nat, b: byte)
    requires at < |nodes| && b !in nodes[at].children
    ensures EdgeCount(WithChild(nodes, at, b)) == EdgeCount(nodes) + 1
  {
    var node := Node(nodes[at].terminal, nodes[at].children[b := |nodes|]);
    OneMoreEdge(nodes[at].children, 0, b, |nodes|);
    NoChildren(0);
    EdgeUpdate(nodes, at, node);
    hide SortedEdges;
    assert WithChild(nodes, at, b)[..|nodes|] == nodes[at := node];
  }

  lemma SameEdges(nodes: seq<Node>, at: nat, id: nat)
    requires at < |nodes|
    ensures EdgeCount(nodes[at := Node(id, nodes[at].children)]) == EdgeCount(nodes)
  {
    EdgeUpdate(nodes, at, Node(id, nodes[at].children));
    hide SortedEdges, EdgeCount;
  }

  predicate EdgesInside(edges: seq<Edge>, nodeCount: nat) {
    forall k | 0 <= k < |edges| :: edges[k].key < 256 && edges[k].child < nodeCount
  }

  lemma ChildrenInside(nodes: seq<Node>, paths: seq<seq<byte>>, index: map<seq<byte>, nat>, at: nat)
    requires Linked(nodes, paths, index) && at < |nodes|
    ensures EdgesInside(SortedEdges(nodes[at].children, 0), |nodes|)
  {
    hide Linked;
    var edges := SortedEdges(nodes[at].children, 0);
    forall k | 0 <= k < |edges|
      ensures edges[k].key < 256 && edges[k].child < |nodes|
    {
      ChildOf(nodes, paths, index, at, edges[k].key);
    }
  }

  class Trie {
    var nodes: seq<Node>
    ghost var paths: seq<seq<byte>>
    ghost var index: map<seq<byte>, nat>
    ghost var keys: map<seq<byte>, nat>

    ghost predicate Valid()
      reads this
    {
      && Linked(nodes, paths, index) && Holds(nodes, paths, index, keys)
      && EdgeCount(nodes) + 1 == |nodes|
    }

    constructor ()
      ensures Valid() && keys == map[] && |nodes| == 1
    {
      nodes, paths, index, keys := [Node(SLOT_EMPTY, map[])], [[]], map[[] := 0], map[];
      new;
      NoEdges(nodes);
    }

    /** `node.children[byte] ||= append_node` */
    method ChildFor(at: nat, b: byte) returns (child: nat)
      requires Valid() && at < |nodes|
      modifies this
      ensures Valid() && keys == old(keys)
      ensures child < |paths| && paths[child] == Snoc(old(paths[at]), b)
      ensures |nodes| <= old(|nodes|) + 1
    {
      hide EdgeCount, Linked, Holds, Snoc, ChildLink;
      LinkedBasics(nodes, paths, index);
      ChildOf(nodes, paths, index, at, b);
      if b in nodes[at].children {
        return nodes[at].children[b];
      }
      AppendNode(nodes, paths, index, keys, at, b);
      EdgeAdded(nodes, at, b);
      child := |nodes|;
      paths, index := paths + [Snoc(paths[at], b)], index[Snoc(paths[at], b) := child];
      nodes := WithChild(nodes, at, b);
    }

    /** `insert`: false exactly for a repeated key; an empty key is silently ignored. */
    method Insert(bytes: seq<byte>, id: nat) returns (ok: bool)
      requires Valid() && id != SLOT_EMPTY
      modifies this
      ensures Valid()
      ensures ok <==> bytes !in old(keys)
      ensures keys == if bytes == [] || !ok then old(keys) else old(keys)[bytes := id]
      ensures |nodes| <= old(|nodes|) + |bytes|
    {
      hide EdgeCount, Linked, Holds, Snoc;
      LinkedBasics(nodes, paths, index);
      TerminalOf(nodes, paths, index, keys, 0);
      if bytes == [] {
        return true;
      }
      var at: nat := 0;
      var i := 0;
      while i < |bytes|
        invariant 0 <= i <= |bytes| && Valid() && keys == old(keys)
        invariant at < |paths| && paths[at] == bytes[..i] && |nodes| <= old(|nodes|) + i
      {
        LinkedBasics(nodes, paths, index);
        SnocSlice(bytes, i);
        at := ChildFor(at, bytes[i]);
        i := i + 1;
      }
      LinkedBasics(nodes, paths, index);
      TerminalOf(nodes, paths, index, keys, at);
      assert bytes[..i] == bytes;
      if nodes[at].terminal != SLOT_EMPTY {
        return false;
      }
      SetTerminal(nodes, paths, index, keys, at, id);
      SameEdges(nodes, at, id);
      nodes := nodes[at := Node(id, nodes[at].children)];
      keys := keys[bytes := id];
      ok := true;
    }

    /** `pack`: all nodes in order, and behind them each node's edges sorted by byte. */
    method Pack() returns (packed: Packed)
      requires Valid()
      ensures PackedFrom(packed, nodes)
      ensures Represents(packed, keys)
      ensures |packed.nodes| == |nodes| == |packed.edges| + 1 && EdgesInside(packed.edges, |nodes|)
    {
      hide SortedEdges, Linked, Holds, EdgeCount;
      var records: seq<NodeRecord> := [];
      var edges: seq<Edge> := [];
      var j := 0;
      assert EdgeCount(nodes[..0]) == 0 by { NothingCounted(nodes); }
      while j < |nodes|
        invariant 0 <= j <= |nodes| && |records| == j && |edges| == EdgeCount(nodes[..j])
        invariant EdgesInside(edges, |nodes|)
        invariant forall i | 0 <= i < j :: RecordFor(records[i], edges, nodes[i])
      {
        var sorted := SortedEdges(nodes[j].children, 0);
        EdgesNext(nodes, j);
        ChildrenInside(nodes, paths, index, j);
        forall i | 0 <= i < j
          ensures RecordFor(records[i], edges + sorted, nodes[i])
        {
          RecordStays(records[i], edges, sorted, nodes[i]);
        }
        records := records + [NodeRecord(|edges|, |sorted|, nodes[j].terminal)];
        edges := edges + sorted;
        assert edges[|edges| - |sorted|..] == sorted;
        j := j + 1;
      }
      assert nodes[..j] == nodes;
      packed := Packed(records, edges);
    }
  }

  // ----- the packed form -----

  datatype NodeRecord = NodeRecord(start: nat, count: nat, tokenId: nat)
  datatype Edge = Edge(key: nat, child: nat)
  datatype Packed = Packed(nodes: seq<NodeRecord>, edges: seq<Edge>)

  /** `children.sort`: ascending by byte. */
  function SortedEdges(children: map<byte, nat>, from: nat): (r: seq<Edge>)
    requires from <= 256
    ensures forall i | 0 <= i < |r| ::
        from <= r[i].key < 256 && r[i].key in children && children[r[i].key] == r[i].child
    ensures forall i, j | 0 <= i < j < |r| :: r[i].key < r[j].key
    decreases 256 - from
  {
    if from == 256 then []
    else if from in children then [Edge(from, children[from])] + SortedEdges(children, from + 1)
    else SortedEdges(children, from + 1)
  }

  lemma {:induction false} SortedEdgesComplete(children: map<byte, nat>, from: nat, b: byte) returns (i: nat)
    requires b in children && from <= b
    ensures i < |SortedEdges(children, from)| && SortedEdges(children, from)[i] == Edge(b, children[b])
    decreases 256 - from
  {
    if from == b {
      i := 0;
    } else {
      i := SortedEdgesComplete(children, from + 1, b);
      if from in children { i := i + 1; }
    }
  }

  predicate RecordFor(r: NodeRecord, edges: seq<Edge>, node: Node) {
    && r.start + r.count <= |edges| && r.tokenId == node.terminal
    && edges[r.start..r.start + r.count] == SortedEdges(node.children, 0)
  }

  lemma RecordStays(r: NodeRecord, edges: seq<Edge>, more: seq<Edge>, node: Node)
    requires RecordFor(r, edges, node)
    ensures RecordFor(r, edges + more, node)
  {
    hide SortedEdges;
    assert (edges + more)[r.start..r.start + r.count] == edges[r.start..r.start + r.count];
  }

  /** The edges of a record are the node's children, strictly ascending. */
  lemma RecordEdges(r: NodeRecord, edges: seq<Edge>, node: Node)
    requires RecordFor(r, edges, node)
    ensures forall k | r.start <= k < r.start + r.count ::
              edges[k].key < 256 && edges[k].key in node.children && node.children[edges[k].key] == edges[k].child
    ensures forall k, l | r.start <= k < l < r.start + r.count :: edges[k].key < edges[l].key
    ensures forall b: byte | b in node.children :: exists k :: r.start <= k < r.start + r.count && edges[k].key == b
  {
    hide SortedEdges;
    var sorted := SortedEdges(node.children, 0);
    var own := edges[r.start..r.start + r.count];
    forall k | r.start <= k < r.start + r.count
      ensures edges[k] == own[k - r.start]
    {
    }
    forall b: byte | b in node.children
      ensures exists k :: r.start <= k < r.start + r.count && edges[k].key == b
    {
      var i := SortedEdgesComplete(node.children, 0, b);
      assert edges[r.start + i] == own[i];
    }
  }

  ghost predicate PackedFrom(t: Packed, nodes: seq<Node>) {
    |t.nodes| == |nodes| && forall j | 0 <= j < |nodes| :: RecordFor(t.nodes[j], t.edges, nodes[j])
  }

  /** t is the packed trie of exactly these keys. */
  ghost predicate Represents(t: Packed, keys: map<seq<byte>, nat>) {
    exists nodes: seq<Node>, paths: seq<seq<byte>>, index: map<seq<byte>, nat> ::
      Linked(nodes, paths, index) && Holds(nodes, paths, index, keys) && PackedFrom(t, nodes)
  }

  // ----- the loader -----

  /** What `parse_trie` insists on before the runtime may walk the arrays. */
  predicate WellFormed(t: Packed, vocabSize: nat) {
    && t.nodes != []
    && forall j | 0 <= j < |t.nodes| :: NodeOk(t, j, vocabSize)
  }

  predicate NodeOk(t: Packed, j: nat, vocabSize: nat)
    requires j < |t.nodes|
  {
    var r := t.nodes[j];
    && (r.tokenId == SLOT_EMPTY || r.tokenId < vocabSize)
    && r.start + r.count <= |t.edges|
    && (forall k | r.start <= k < r.start + r.count :: t.edges[k].key < 256 && t.edges[k].child < |t.nodes|)
    && (forall k, l | r.start <= k < l < r.start + r.count :: t.edges[k].key < t.edges[l].key)
  }

  /** The section as 32-bit words: counts, node records, edges. */
  function NodeWords(nodes: seq<NodeRecord>): (r: seq<nat>)
    ensures |r| == 4 * |nodes|
    ensures forall j | 0 <= j < |nodes| ::
        r[4 * j] == nodes[j].start && r[4 * j + 1] == nodes[j].count && r[4 * j + 2] == nodes[j].tokenId
  {
    if nodes == [] then []
    else
      var n := |nodes| - 1;
      NodeWords(nodes[..n]) + [nodes[n].start, nodes[n].count, nodes[n].tokenId, 0]
  }

  function EdgeWords(edges: seq<Edge>): (r: seq<nat>)
    ensures |r| == 2 * |edges|
    ensures forall k | 0 <= k < |edges| :: r[2 * k] == edges[k].key && r[2 * k + 1] == edges[k].child
  {
    if edges == [] then []
    else
      var n := |edges| - 1;
      EdgeWords(edges[..n]) + [edges[n].key, edges[n].child]
  }

  function SectionWords(t: Packed): seq<nat> {
    [|t.nodes|, |t.edges|, 0, 0] + NodeWords(t.nodes) + EdgeWords(t.edges)
  }

  /** `parse_trie` on the words of a section. */
  method ParseTrie(words: seq<nat>, vocabSize: nat) returns (r: Option<Packed>)
    ensures r.Some? ==> WellFormed(r.value, vocabSize)
    ensures forall t: Packed :: WellFormed(t, vocabSize) && words == SectionWords(t) ==> r == Some(t)
    ensures forall t: Packed :: !WellFormed(t, vocabSize) && words == SectionWords(t) ==> r == None
  {
    if |words| < 4 {
      return None;
    }
    var nodeCount, edgeCount := words[0], words[1];
    if nodeCount == 0 || |words| != 4 + 4 * nodeCount + 2 * edgeCount {
      return None;
    }
    var nodes := seq(nodeCount, j requires 0 <= j < nodeCount =>
      NodeRecord(words[4 + 4 * j], words[5 + 4 * j], words[6 + 4 * j]));
    var edges := seq(edgeCount, k requires 0 <= k < edgeCount =>
      Edge(words[4 + 4 * nodeCount + 2 * k], words[5 + 4 * nodeCount + 2 * k]));
    var t := Packed(nodes, edges);
    forall s: Packed | words == SectionWords(s)
      ensures s == t
    {
      SectionDetermines(s, words, t);
    }
    var i := 0;
    while i < nodeCount
      invariant 0 <= i <= nodeCount
      invariant forall j | 0 <= j < i :: NodeOk(t, j, vocabSize)
    {
      hide NodeOk;
      var ok := CheckNode(t, i, vocabSize);
      if !ok {
        return None;
      }
      i := i + 1;
    }
    r := Some(t);
  }

  /** The checks `parse_trie` makes on one node and its edges. */
  method CheckNode(t: Packed, i: nat, vocabSize: nat) returns (ok: bool)
    requires i < |t.nodes|
    ensures ok <==> NodeOk(t, i, vocabSize)
  {
    var node := t.nodes[i];
    var edgeCount := |t.edges|;
    if node.tokenId != SLOT_EMPTY && node.tokenId >= vocabSize {
      return false;
    }
    if node.start > edgeCount || node.count > edgeCount - node.start {
      return false;
    }
    var prev := 0;
    var k := 0;
    while k < node.count
      invariant 0 <= k <= node.count
      invariant k > 0 ==> prev == t.edges[node.start + k - 1].key
      invariant forall l | node.start <= l < node.start + k ::
          t.edges[l].key < 256 && t.edges[l].child < |t.nodes| && t.edges[l].key <= prev
      invariant forall l, m | node.start <= l < m < node.start + k :: t.edges[l].key < t.edges[m].key
    {
      var edge := t.edges[node.start + k];
      if edge.key > 255 || edge.child >= |t.nodes| {
        return false;
      }
      if k > 0 && edge.key <= prev {
        assert t.edges[node.start + k - 1].key >= t.edges[node.start + k].key;
        return false;
      }
      prev := edge.key;
      k := k + 1;
    }
    ok := true;
  }

  lemma SectionDetermines(s: Packed, words: seq<nat>, t: Packed)
    requires words == SectionWords(s)
    requires |t.nodes| == |s.nodes| && |t.edges| == |s.edges|
    requires forall j | 0 <= j < |t.nodes| ::
        t.nodes[j] == NodeRecord(words[4 + 4 * j], words[5 + 4 * j], words[6 + 4 * j])
    requires forall k | 0 <= k < |t.edges| ::
               t.edges[k] == Edge(words[4 + 4 * |t.nodes| + 2 * k], words[5 + 4 * |t.nodes| + 2 * k])
    ensures s == t
  {
    var n, e := NodeWords(s.nodes), EdgeWords(s.edges);
    forall j | 0 <= j < |s.nodes|
      ensures s.nodes[j] == t.nodes[j]
    {
      assert words[4 + 4 * j] == n[4 * j] && words[5 + 4 * j] == n[4 * j + 1] && words[6 + 4 * j] == n[4 * j + 2];
    }
    forall k | 0 <= k < |s.edges|
      ensures s.edges[k] == t.edges[k]
    {
      assert words[4 + 4 * |s.nodes| + 2 * k] == e[2 * k] && words[5 + 4 * |s.nodes| + 2 * k] == e[2 * k + 1];
    }
    assert s.nodes == t.nodes && s.edges == t.edges;
  }

  lemma PackedNodeOk(t: Packed, nodes: seq<Node>, paths: seq<seq<byte>>, index: map<seq<byte>, nat>,
                     keys: map<seq<byte>, nat>, vocabSize: nat, j: nat)
    requires Linked(nodes, paths, index) && Holds(nodes, paths, index, keys) && PackedFrom(t, nodes)
    requires j < |t.nodes| && forall k | k in keys :: keys[k] < vocabSize
    ensures NodeOk(t, j, vocabSize)
  {
    var r := t.nodes[j];
    assert r.start + r.count <= |t.edges| by { assert RecordFor(r, t.edges, nodes[j]); }
    RecordEdges(r, t.edges, nodes[j]);
    PackedNode(t, nodes, j);
    TerminalOf(nodes, paths, index, keys, j);
    hide SortedEdges, Snoc, Linked, Holds, PackedFrom, RecordFor;
    forall k | r.start <= k < r.start + r.count
      ensures t.edges[k].child < |t.nodes|
    {
      ChildOf(nodes, paths, index, j, t.edges[k].key);
    }
  }

  /** A packed trie whose ids are in range passes `parse_trie`. */
  lemma PackedIsWellFormed(t: Packed, keys: map<seq<byte>, nat>, vocabSize: nat)
    requires Represents(t, keys) && forall k | k in keys :: keys[k] < vocabSize
    ensures WellFormed(t, vocabSize)
  {
    hide Linked, Holds, PackedFrom, NodeOk;
    var nodes: seq<Node>, paths: seq<seq<byte>>, index: map<seq<byte>, nat> :|
      Linked(nodes, paths, index) && Holds(nodes, paths, index, keys) && PackedFrom(t, nodes);
    LinkedBasics(nodes, paths, index);
    assert |t.nodes| == |nodes| by { PackedNode(t, nodes, 0); }
    forall j | 0 <= j < |t.nodes|
      ensures NodeOk(t, j, vocabSize)
    {
      PackedNodeOk(t, nodes, paths, index, keys, vocabSize, j);
    }
  }

  // ----- walking -----

  predicate EdgesSorted(t: Packed, r: NodeRecord) {
    r.start + r.count <= |t.edges| &&
    forall k, l | r.start <= k < l < r.start + r.count :: t.edges[k].key < t.edges[l].key
  }

  /** `trie_find_child`: whichever of the four strategies the fan-out selects, the child on that
      edge, or nothing when the node has no such edge. */
  method FindChild(t: Packed, node: NodeRecord, key: nat) returns (child: Option<nat>)
    requires EdgesSorted(t, node)
    ensures child.Some? ==>
        exists k :: node.start <= k < node.start + node.count && t.edges[k] == Edge(key, child.value)
    ensures child.None? ==> forall k | node.start <= k < node.start + node.count :: t.edges[k].key != key
  {
    var start, count := node.start, node.count;
    if count == 0 {
      return None;
    }
    if count == 1 {
      return if t.edges[start].key == key then Some(t.edges[start].child) else None;
    }
    if count == 2 {
      if t.edges[start].key == key {
        return Some(t.edges[start].child);
      }
      if t.edges[start + 1].key == key {
        return Some(t.edges[start + 1].child);
      }
      return None;
    }
    if count <= 8 {
      var i := 0;
      while i < count
        invariant 0 <= i <= count
        invariant forall k | start <= k < start + i :: t.edges[k].key < key
      {
        var edge := t.edges[start + i];
        if edge.key == key {
          return Some(edge.child);
        }
        if edge.key > key {
          break;
        }
        i := i + 1;
      }
      return None;
    }
    var lo, hi := start, start + count;
    while lo < hi
      invariant start <= lo <= hi <= start + count
      invariant forall k | start <= k < lo :: t.edges[k].key < key
      invariant forall k | hi <= k < start + count :: key <= t.edges[k].key
    {
      var mid := lo + (hi - lo) / 2;
      if t.edges[mid].key < key {
        lo := mid + 1;
      } else {
        hi := mid;
      }
    }
    if lo < start + count && t.edges[lo].key == key {
      return Some(t.edges[lo].child);
    }
    child := None;
  }

  datatype Match = Match(id: nat, len: nat)

  /** r is the longest non-empty key among the prefixes of `bytes` of length at most n. */
  ghost predicate LongestUpTo(keys: map<seq<byte>, nat>, bytes: seq<byte>, n: nat, r: Option<Match>)
    requires n <= |bytes|
  {
    match r
    case None => forall l | 1 <= l <= n :: bytes[..l] !in keys
    case Some(m) =>
      && 1 <= m.len <= n && bytes[..m.len] in keys && keys[bytes[..m.len]] == m.id
      && forall l | m.len < l <= n :: bytes[..l] !in keys
  }

  ghost predicate IsLongest(keys: map<seq<byte>, nat>, bytes: seq<byte>, r: Option<Match>) {
    LongestUpTo(keys, bytes, |bytes|, r)
  }

  lemma PackedNode(t: Packed, nodes: seq<Node>, j: nat)
    requires PackedFrom(t, nodes) && j < |nodes|
    ensures |t.nodes| == |nodes| && t.nodes[j].tokenId == nodes[j].terminal
  {
    assert RecordFor(t.nodes[j], t.edges, nodes[j]);
  }

  /** What the packed arrays say about the node for path p and byte b. */
  lemma EdgeMeansPath(t: Packed, nodes: seq<Node>, paths: seq<seq<byte>>, index: map<seq<byte>, nat>, j: nat, b: byte)
    requires Linked(nodes, paths, index) && PackedFrom(t, nodes) && j < |nodes|
    ensures EdgesSorted(t, t.nodes[j])
    ensures forall k | t.nodes[j].start <= k < t.nodes[j].start + t.nodes[j].count && t.edges[k].key == b ::
              Snoc(paths[j], b) in index && index[Snoc(paths[j], b)] == t.edges[k].child
    ensures (forall k | t.nodes[j].start <= k < t.nodes[j].start + t.nodes[j].count :: t.edges[k].key != b) ==>
              Snoc(paths[j], b) !in index
  {
    RecordEdges(t.nodes[j], t.edges, nodes[j]);
    assert ChildLink(nodes, paths, index, j, b);
    hide SortedEdges, Snoc;
  }

  /** No node for a path means no key at or below it. */
  lemma {:induction false} NoNodeNoKey(nodes: seq<Node>, paths: seq<seq<byte>>, index: map<seq<byte>, nat>,
                                       bytes: seq<byte>, i: nat, n: nat)
    requires Linked(nodes, paths, index) && i <= n <= |bytes| && bytes[..i] !in index
    ensures bytes[..n] !in index
  {
    if n > i {
      NoNodeNoKey(nodes, paths, index, bytes, i, n - 1);
      assert bytes[..n][..n - 1] == bytes[..n - 1];
    }
  }

  lemma BestNext(keys: map<seq<byte>, nat>, bytes: seq<byte>, i: nat, best: Option<Match>)
    requires i < |bytes| && LongestUpTo(keys, bytes, i, best)
    ensures LongestUpTo(keys, bytes, i + 1,
                        if bytes[..i + 1] in keys then Some(Match(keys[bytes[..i + 1]], i + 1)) else best)
  {
  }

  lemma BestFinal(keys: map<seq<byte>, nat>, bytes: seq<byte>, i: nat, best: Option<Match>)
    requires i <= |bytes| && LongestUpTo(keys, bytes, i, best)
    requires forall n | i < n <= |bytes| :: bytes[..n] !in keys
    ensures IsLongest(keys, bytes, best)
  {
  }

  lemma NothingBelow(nodes: seq<Node>, paths: seq<seq<byte>>, index: map<seq<byte>, nat>, keys: map<seq<byte>, nat>,
                     bytes: seq<byte>, i: nat)
    requires Linked(nodes, paths, index) && Holds(nodes, paths, index, keys)
    requires i < |bytes| && bytes[..i + 1] !in index
    ensures forall n | i < n <= |bytes| :: bytes[..n] !in keys
  {
    forall n | i < n <= |bytes|
      ensures bytes[..n] !in keys
    {
      NoNodeNoKey(nodes, paths, index, bytes, i + 1, n);
    }
  }

  /** One step down: where FindChild's answer leads, in terms of paths and keys. */
  method Step(t: Packed, at: nat, b: byte, ghost nodes: seq<Node>, ghost paths: seq<seq<byte>>,
              ghost index: map<seq<byte>, nat>, ghost keys: map<seq<byte>, nat>)
    returns (next: Option<nat>)
    requires Linked(nodes, paths, index) && Holds(nodes, paths, index, keys) && PackedFrom(t, nodes) && at < |paths|
    ensures next.None? ==> Snoc(paths[at], b) !in index
    ensures next.Some? ==> next.value < |paths| && paths[next.value] == Snoc(paths[at], b)
    ensures next.Some? ==> next.value < |t.nodes| && t.nodes[next.value].tokenId ==
                             if Snoc(paths[at], b) in keys then keys[Snoc(paths[at], b)] else SLOT_EMPTY
  {
    hide SortedEdges, Linked, Holds, Snoc, PackedFrom, RecordFor;
    LinkedBasics(nodes, paths, index);
    PackedNode(t, nodes, at);
    EdgeMeansPath(t, nodes, paths, index, at, b);
    next := FindChild(t, t.nodes[at], b);
    if next.Some? {
      PackedNode(t, nodes, next.value);
      TerminalOf(nodes, paths, index, keys, next.value);
    }
  }

  /** `se_trie_longest_match` */
  method LongestMatch(t: Packed, ghost keys: map<seq<byte>, nat>, bytes: seq<byte>) returns (r: Option<Match>)
    requires Represents(t, keys)
    ensures IsLongest(keys, bytes, r)
  {
    hide SortedEdges, Linked, Holds, Snoc, PackedFrom, IsLongest, LongestUpTo;
    ghost var nodes: seq<Node>, paths: seq<seq<byte>>, index: map<seq<byte>, nat> :|
      Linked(nodes, paths, index) && Holds(nodes, paths, index, keys) && PackedFrom(t, nodes);
    LinkedBasics(nodes, paths, index);
    TerminalOf(nodes, paths, index, keys, 0);
    var at: nat := 0;
    var best: Option<Match> := None;
    BestFromNothing(keys, bytes);
    var i := 0;
    while i < |bytes|
      invariant 0 <= i <= |bytes| && at < |paths| && paths[at] == bytes[..i]
      invariant LongestUpTo(keys, bytes, i, best)
    {
      SnocSlice(bytes, i);
      BestNext(keys, bytes, i, best);
      var next := Step(t, at, bytes[i], nodes, paths, index, keys);
      if next.None? {
        NothingBelow(nodes, paths, index, keys, bytes, i);
        break;
      }
      at := next.value;
      var tokenId := t.nodes[at].tokenId;
      TerminalOf(nodes, paths, index, keys, at);
      if tokenId != SLOT_EMPTY {
        best := Some(Match(tokenId, i + 1));
      }
      i := i + 1;
    }
    BestFinal(keys, bytes, i, best);
    r := best;
  }

  lemma BestFromNothing(keys: map<seq<byte>, nat>, bytes: seq<byte>)
    ensures LongestUpTo(keys, bytes, 0, None)
  {
  }

  lemma SnocSlice(bytes: seq<byte>, i: nat)
    requires i < |bytes|
    ensures Snoc(bytes[..i], bytes[i]) == bytes[..i + 1]
  {
  }

  // ----- WordPieceTrie.build -----

  predicate IsContinuationToken(token: seq<byte>, prefix: seq<byte>) {
    prefix != [] && prefix <= token && |token| > |prefix|
  }

  /** The keys of the root trie: the non-empty tokens that do not continue a word. */
  ghost predicate RootKeys(keys: map<seq<byte>, nat>, tokens: seq<seq<byte>>, prefix: seq<byte>) {
    && (forall k | k in keys ::
          keys[k] < |tokens| && tokens[keys[k]] == k && k != [] && !IsContinuationToken(k, prefix))
    && (forall i | 0 <= i < |tokens| && tokens[i] != [] && !IsContinuationToken(tokens[i], prefix) :: tokens[i] in keys)
  }

  /** The keys of the continuation trie: the bodies behind the prefix. */
  ghost predicate BodyKeys(keys: map<seq<byte>, nat>, tokens: seq<seq<byte>>, prefix: seq<byte>) {
    && (forall k | k in keys ::
          keys[k] < |tokens| && tokens[keys[k]] == prefix + k && IsContinuationToken(prefix + k, prefix))
    && (forall i | 0 <= i < |tokens| && IsContinuationToken(tokens[i], prefix) :: tokens[i][|prefix|..] in keys)
  }

  lemma KeysNext(root: map<seq<byte>, nat>, bodies: map<seq<byte>, nat>, tokens: seq<seq<byte>>, prefix: seq<byte>,
                 id: nat)
    requires id < |tokens| && forall i, j | 0 <= i < j < |tokens| :: tokens[i] != tokens[j]
    requires RootKeys(root, tokens[..id], prefix) && BodyKeys(bodies, tokens[..id], prefix)
    ensures var token := tokens[id];
            if IsContinuationToken(token, prefix) then
              && Body(token, prefix) !in bodies && Body(token, prefix) != []
              && RootKeys(root, tokens[..id + 1], prefix)
              && BodyKeys(bodies[Body(token, prefix) := id], tokens[..id + 1], prefix)
            else
              && token !in root && BodyKeys(bodies, tokens[..id + 1], prefix)
              && RootKeys(if token == [] then root else root[token := id], tokens[..id + 1], prefix)
  {
    var token := tokens[id];
    var now, next := tokens[..id], tokens[..id + 1];
    assert forall i | 0 <= i < id :: next[i] == now[i] && now[i] != token;
    assert next[id] == token;
    if IsContinuationToken(token, prefix) {
      var body := token[|prefix|..];
      assert token == prefix + body;
      assert body !in bodies;
    } else {
      assert token !in root;
    }
  }

  function TotalBytes(tokens: seq<seq<byte>>): nat {
    if tokens == [] then 0 else TotalBytes(tokens[..|tokens| - 1]) + |tokens[|tokens| - 1]|
  }

  lemma BytesNext(tokens: seq<seq<byte>>, id: nat)
    requires id < |tokens|
    ensures TotalBytes(tokens[..id + 1]) == TotalBytes(tokens[..id]) + |tokens[id]|
  {
    assert tokens[..id + 1][..id] == tokens[..id];
  }

  /** No more nodes than the root and one for every byte, and one edge less than nodes. */
  predicate Sized(t: Packed, tokens: seq<seq<byte>>) {
    |t.edges| + 1 == |t.nodes| <= 1 + TotalBytes(tokens) && EdgesInside(t.edges, |t.nodes|)
  }

  method BuildTries(tokens: seq<seq<byte>>, prefix: seq<byte>)
    returns (root: Packed, continuation: Packed,
             ghost rootKeys: map<seq<byte>, nat>, ghost bodyKeys: map<seq<byte>, nat>)
    requires forall i, j | 0 <= i < j < |tokens| :: tokens[i] != tokens[j]
    requires |tokens| < SLOT_EMPTY
    ensures Represents(root, rootKeys) && RootKeys(rootKeys, tokens, prefix)
    ensures Represents(continuation, bodyKeys) && BodyKeys(bodyKeys, tokens, prefix)
    ensures Sized(root, tokens) && Sized(continuation, tokens)
  {
    hide RootKeys, BodyKeys, Represents, Linked, Holds, EdgeCount, TotalBytes;
    var r := new Trie();
    var c := new Trie();
    NoKeys(tokens, prefix);
    var id := 0;
    while id < |tokens|
      invariant 0 <= id <= |tokens| && r.Valid() && c.Valid() && fresh(r) && fresh(c) && r != c
      invariant RootKeys(r.keys, tokens[..id], prefix) && BodyKeys(c.keys, tokens[..id], prefix)
      invariant |r.nodes| <= 1 + TotalBytes(tokens[..id]) && |c.nodes| <= 1 + TotalBytes(tokens[..id])
    {
      BytesNext(tokens, id);
      Place(r, c, tokens, prefix, id);
      id := id + 1;
    }
    assert tokens[..id] == tokens;
    root := r.Pack();
    continuation := c.Pack();
    rootKeys, bodyKeys := r.keys, c.keys;
  }

  /** Token `id` goes into one of the two tries. */
  method Place(r: Trie, c: Trie, tokens: seq<seq<byte>>, prefix: seq<byte>, id: nat)
    requires r != c && r.Valid() && c.Valid()
    requires forall i, j | 0 <= i < j < |tokens| :: tokens[i] != tokens[j]
    requires id < |tokens| < SLOT_EMPTY
    requires RootKeys(r.keys, tokens[..id], prefix) && BodyKeys(c.keys, tokens[..id], prefix)
    modifies r, c
    ensures r.Valid() && c.Valid()
    ensures RootKeys(r.keys, tokens[..id + 1], prefix) && BodyKeys(c.keys, tokens[..id + 1], prefix)
    ensures |r.nodes| <= old(|r.nodes|) + |tokens[id]| && |c.nodes| <= old(|c.nodes|) + |tokens[id]|
  {
    KeysNext(r.keys, c.keys, tokens, prefix, id);
    hide RootKeys, BodyKeys, Linked, Holds, EdgeCount;
    if IsContinuationToken(tokens[id], prefix) {
      var ok := c.Insert(Body(tokens[id], prefix), id);
    } else {
      var ok := r.Insert(tokens[id], id);
    }
  }

  function Body(token: seq<byte>, prefix: seq<byte>): seq<byte>
    requires IsContinuationToken(token, prefix)
  {
    token[|prefix|..]
  }

  lemma NoKeys(tokens: seq<seq<byte>>, prefix: seq<byte>)
    ensures RootKeys(map[], tokens[..0], prefix) && BodyKeys(map[], tokens[..0], prefix)
  {
  }

  /** Both packed tries of a vocabulary pass `parse_trie`. */
  lemma BuiltTriesAreAccepted(root: Packed, continuation: Packed, rootKeys: map<seq<byte>, nat>,
                              bodyKeys: map<seq<byte>, nat>,
                              tokens: seq<seq<byte>>, prefix: seq<byte>)
    requires Represents(root, rootKeys) && RootKeys(rootKeys, tokens, prefix)
    requires Represents(continuation, bodyKeys) && BodyKeys(bodyKeys, tokens, prefix)
    ensures WellFormed(root, |tokens|) && WellFormed(continuation, |tokens|)
  {
    PackedIsWellFormed(root, rootKeys, |tokens|);
    PackedIsWellFormed(continuation, bodyKeys, |tokens|);
  }

  lemma {:induction false} NodeWordsFit(nodes: seq<NodeRecord>)
    requires forall j | 0 <= j < |nodes| :: nodes[j].start < 0x1_0000_0000 && nodes[j].count < 0x1_0000_0000
    requires forall j | 0 <= j < |nodes| :: nodes[j].tokenId < 0x1_0000_0000
    ensures Fit32(NodeWords(nodes))
  {
    if nodes != [] { NodeWordsFit(nodes[..|nodes| - 1]); }
  }

  lemma {:induction false} EdgeWordsFit(edges: seq<Edge>)
    requires forall k | 0 <= k < |edges| :: edges[k].key < 0x1_0000_0000 && edges[k].child < 0x1_0000_0000
    ensures Fit32(EdgeWords(edges))
  {
    if edges != [] { EdgeWordsFit(edges[..|edges| - 1]); }
  }

  lemma NodesFit(t: Packed, vocabSize: nat)
    requires WellFormed(t, vocabSize) && vocabSize < SLOT_EMPTY && |t.edges| < 0x1_0000_0000
    ensures Fit32(NodeWords(t.nodes))
  {
    forall j | 0 <= j < |t.nodes|
      ensures t.nodes[j].start < 0x1_0000_0000 && t.nodes[j].count < 0x1_0000_0000 && t.nodes[j].tokenId < 0x1_0000_0000
    {
      assert NodeOk(t, j, vocabSize);
    }
    hide WellFormed, NodeWords;
    NodeWordsFit(t.nodes);
  }

  /** The section of a trie that passes the loader's check and is no larger than its vocabulary. */
  lemma SectionFits(t: Packed, tokens: seq<seq<byte>>)
    requires WellFormed(t, |tokens|) && Sized(t, tokens) && |tokens| < SLOT_EMPTY && TotalBytes(tokens) < SLOT_EMPTY
    ensures Fit32(SectionWords(t))
  {
    hide WellFormed, NodeWords, EdgeWords, TotalBytes;
    NodesFit(t, |tokens|);
    EdgeWordsFit(t.edges);
    Fit32Joined([|t.nodes|, |t.edges|, 0, 0], NodeWords(t.nodes));
    Fit32Joined([|t.nodes|, |t.edges|, 0, 0] + NodeWords(t.nodes), EdgeWords(t.edges));
  }

  lemma Fit32Joined(a: seq<nat>, b: seq<nat>)
    requires Fit32(a) && Fit32(b)
    ensures Fit32(a + b)
  {
  }
}
