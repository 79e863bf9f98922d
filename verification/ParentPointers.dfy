/**
 * The pointers to parents that the nodes of the json store hold. A node lies in the buffer of a vector;
 * where siblings are moved, the pointers of their children stay behind until Init sets them again.
 */
module ParentPointers {
  import opened Bytes
  import opened DomainNames
  import opened Zones
  import opened ZoneTrees
  import opened ZoneMaps
  import opened ZoneSections

  /** An address: the buffer of a vector, and an index into it. */
  datatype Slot = Slot(buf: nat, index: nat)

  datatype Vector = Vector(buf: nat, nodes: seq<Node>)

  datatype Node = Node(parent: Option<Slot>, zone: ZoneData, children: Option<Vector>)

  /** The tree without its pointers. */
  function Unlinked(v: Vector): (r: seq<ZoneNode>)
    ensures |r| == |v.nodes| && forall k :: 0 <= k < |r| ==> r[k] == UnlinkedNode(v.nodes[k])
  {
    seq(|v.nodes|, k requires 0 <= k < |v.nodes| => UnlinkedNode(v.nodes[k]))
  }

  function UnlinkedNode(n: Node): ZoneNode {
    ZoneNode(n.zone, if n.children.Some? then Engaged(Unlinked(n.children.value)) else Children.Absent)
  }

  // ---- Init ----

  function InitNode(n: Node, here: Slot, parent: Option<Slot>): Node {
    Node(parent, n.zone, if n.children.Some? then Some(InitAll(n.children.value, Some(here))) else None)
  }

  /** Init of every node of a vector: the pointer to the parent, and then the children with this node as theirs. */
  function InitAll(v: Vector, parent: Option<Slot>): (r: Vector)
    ensures r.buf == v.buf && |r.nodes| == |v.nodes|
    ensures forall k :: 0 <= k < |r.nodes| ==> r.nodes[k] == InitNode(v.nodes[k], Slot(v.buf, k), parent)
  {
    Vector(v.buf, seq(|v.nodes|, k requires 0 <= k < |v.nodes| => InitNode(v.nodes[k], Slot(v.buf, k), parent)))
  }

  /** Every node points to where its parent lies. */
  predicate Coherent(v: Vector, parent: Option<Slot>) {
    forall k :: 0 <= k < |v.nodes| ==>
      v.nodes[k].parent == parent &&
      (v.nodes[k].children.Some? ==> Coherent(v.nodes[k].children.value, Some(Slot(v.buf, k))))
  }

  /** Whatever the pointers were, as in a copy of a tree: after Init all are right, and nothing else has changed. */
  lemma {:induction false} InitIsCoherent(v: Vector, parent: Option<Slot>)
    ensures Coherent(InitAll(v, parent), parent) && Unlinked(InitAll(v, parent)) == Unlinked(v)
  {
    var r := InitAll(v, parent);
    forall k | 0 <= k < |v.nodes|
      ensures r.nodes[k].children.Some? ==> Coherent(r.nodes[k].children.value, Some(Slot(v.buf, k)))
      ensures UnlinkedNode(r.nodes[k]) == UnlinkedNode(v.nodes[k])
    {
      if v.nodes[k].children.Some? { InitIsCoherent(v.nodes[k].children.value, Some(Slot(v.buf, k))); }
    }
  }

  // ---- Levels and nodes ----

  /** The vector that a cursor opens exists. */
  predicate HasLevel(v: Vector, c: Cursor)
    decreases |c|
  {
    c == [] || (c[0] < |v.nodes| && v.nodes[c[0]].children.Some? && HasLevel(v.nodes[c[0]].children.value, c[1..]))
  }

  function VecAt(v: Vector, c: Cursor): Vector
    requires HasLevel(v, c)
    decreases |c|
  {
    if c == [] then v else VecAt(v.nodes[c[0]].children.value, c[1..])
  }

  /** The cursor leads to a node. */
  predicate HasNode(v: Vector, c: Cursor) {
    c != [] && HasLevel(v, c[..|c| - 1]) && c[|c| - 1] < |VecAt(v, c[..|c| - 1]).nodes|
  }

  function NodeAt(v: Vector, c: Cursor): Node
    requires HasNode(v, c)
  {
    VecAt(v, c[..|c| - 1]).nodes[c[|c| - 1]]
  }

  /** Where that node lies. */
  function Here(v: Vector, c: Cursor): Slot
    requires HasNode(v, c)
  {
    Slot(VecAt(v, c[..|c| - 1]).buf, c[|c| - 1])
  }

  lemma NodeDown(v: Vector, c: Cursor)
    requires |c| > 1
    ensures HasNode(v, c) <==>
              c[0] < |v.nodes| && v.nodes[c[0]].children.Some? && HasNode(v.nodes[c[0]].children.value, c[1..])
    ensures HasNode(v, c) ==>
              NodeAt(v, c) == NodeAt(v.nodes[c[0]].children.value, c[1..]) &&
              Here(v, c) == Here(v.nodes[c[0]].children.value, c[1..])
  {
    FrontTail(c, |c| - 1);
  }

  /** The same cursors lead to the same nodes with and without pointers. */
  lemma {:induction false} SameCursors(v: Vector, c: Cursor)
    ensures HasNode(v, c) <==> ValidCursor(Unlinked(v), c)
    ensures HasNode(v, c) ==> UnlinkedNode(NodeAt(v, c)) == At(Unlinked(v), c)
    decreases |c|
  {
    if |c| > 1 {
      NodeDown(v, c);
      if c[0] < |v.nodes| && v.nodes[c[0]].children.Some? { SameCursors(v.nodes[c[0]].children.value, c[1..]); }
    } else if |c| == 1 {
      assert c[..0] == [];
    }
  }

  /** And so do the levels that are not empty. */
  lemma {:induction false} SameLevels(v: Vector, c: Cursor)
    requires HasLevel(v, c)
    ensures (c == [] || ValidCursor(Unlinked(v), c)) && Level(Unlinked(v), c) == Unlinked(VecAt(v, c))
    decreases |c|
  {
    if c != [] {
      SameLevels(v.nodes[c[0]].children.value, c[1..]);
      LevelIs(Unlinked(v), c);
    }
  }

  lemma LevelIs(nodes: seq<ZoneNode>, c: Cursor)
    requires c != [] && c[0] < |nodes| && (|c| == 1 || ValidCursor(nodes[c[0]].Kids(), c[1..]))
    ensures ValidCursor(nodes, c) && Level(nodes, c) == Level(nodes[c[0]].Kids(), c[1..])
  {
  }

  // ---- Addresses ----

  /** The node that lies at an address, if the buffer is in use. */
  predicate Holds(v: Vector, s: Slot, n: Node) {
    (s.buf == v.buf && s.index < |v.nodes| && v.nodes[s.index] == n) ||
    exists k :: 0 <= k < |v.nodes| && v.nodes[k].children.Some? && Holds(v.nodes[k].children.value, s, n)
  }

  predicate Uses(v: Vector, buf: nat) {
    buf == v.buf || exists k :: 0 <= k < |v.nodes| && v.nodes[k].children.Some? && Uses(v.nodes[k].children.value, buf)
  }

  /** No two vectors share a buffer. */
  ghost predicate Separate(v: Vector) {
    (forall k :: 0 <= k < |v.nodes| && v.nodes[k].children.Some? ==>
       Separate(v.nodes[k].children.value) && !Uses(v.nodes[k].children.value, v.buf)) &&
    forall j, k, buf: nat :: 0 <= j < k < |v.nodes| && v.nodes[j].children.Some? && v.nodes[k].children.Some? ==>
      !(Uses(v.nodes[j].children.value, buf) && Uses(v.nodes[k].children.value, buf))
  }

  lemma {:induction false} HeldIsUsed(v: Vector, s: Slot, n: Node)
    requires Holds(v, s, n)
    ensures Uses(v, s.buf)
  {
    if s.buf != v.buf {
      var k :| 0 <= k < |v.nodes| && v.nodes[k].children.Some? && Holds(v.nodes[k].children.value, s, n);
      HeldIsUsed(v.nodes[k].children.value, s, n);
    }
  }

  lemma {:induction false} LevelIsUsed(v: Vector, c: Cursor)
    requires HasLevel(v, c)
    ensures Uses(v, VecAt(v, c).buf)
    decreases |c|
  {
    if c != [] { LevelIsUsed(v.nodes[c[0]].children.value, c[1..]); }
  }

  /** An address in the buffer of a level holds the node of that index, and no other. */
  lemma {:induction false} HeldAtLevel(v: Vector, c: Cursor, index: nat, n: Node)
    requires Separate(v) && HasLevel(v, c)
    ensures Holds(v, Slot(VecAt(v, c).buf, index), n) <==> index < |VecAt(v, c).nodes| && n == VecAt(v, c).nodes[index]
    decreases |c|
  {
    var s := Slot(VecAt(v, c).buf, index);
    if c == [] {
      forall k | 0 <= k < |v.nodes| && v.nodes[k].children.Some?
        ensures !Holds(v.nodes[k].children.value, s, n)
      {
        if Holds(v.nodes[k].children.value, s, n) { HeldIsUsed(v.nodes[k].children.value, s, n); }
      }
    } else {
      var child := v.nodes[c[0]].children.value;
      LevelIsUsed(child, c[1..]);
      HeldAtLevel(child, c[1..], index, n);
      forall k | 0 <= k < |v.nodes| && k != c[0] && v.nodes[k].children.Some?
        ensures !Holds(v.nodes[k].children.value, s, n)
      {
        if Holds(v.nodes[k].children.value, s, n) { HeldIsUsed(v.nodes[k].children.value, s, n); }
      }
    }
  }

  // ---- Siblings that move ----

  /**
   * Coherent but for one level, whose nodes have moved: their children still point to where each of them
   * was.
   */
  predicate Stale(v: Vector, parent: Option<Slot>, c: Cursor, was: seq<Slot>) {
    (c == [] ==> |was| == |v.nodes|) &&
    forall k :: 0 <= k < |v.nodes| ==>
      v.nodes[k].parent == parent &&
      (v.nodes[k].children.Some? ==>
         if c == [] then Coherent(v.nodes[k].children.value, Some(was[k]))
         else if k == c[0] then Stale(v.nodes[k].children.value, Some(Slot(v.buf, k)), c[1..], was)
         else Coherent(v.nodes[k].children.value, Some(Slot(v.buf, k))))
  }

  /** Where the nodes of a vector lie. */
  function Slots(v: Vector): (r: seq<Slot>)
    ensures |r| == |v.nodes| && forall k :: 0 <= k < |r| ==> r[k] == Slot(v.buf, k)
  {
    seq(|v.nodes|, k requires 0 <= k < |v.nodes| => Slot(v.buf, k))
  }

  function LessOne<T>(s: seq<T>, i: nat): (r: seq<T>)
    requires i < |s|
    ensures |r| == |s| - 1 && forall k :: 0 <= k < |r| ==> r[k] == s[if k < i then k else k + 1]
  {
    s[..i] + s[i + 1..]
  }

  /** erase: the nodes behind the one removed move up by one, and take their vectors of children with them. */
  function EraseAt(v: Vector, c: Cursor): Vector
    requires HasNode(v, c)
    decreases |c|
  {
    if |c| == 1 then Vector(v.buf, LessOne(v.nodes, c[0]))
    else
      NodeDown(v, c);
      var n := v.nodes[c[0]];
      Vector(v.buf, v.nodes[c[0] := n.(children := Some(EraseAt(n.children.value, c[1..])))])
  }

  lemma {:induction false} ErasedIsStale(v: Vector, parent: Option<Slot>, c: Cursor)
    requires Coherent(v, parent) && HasNode(v, c)
    ensures var up, r := c[..|c| - 1], EraseAt(v, c);
            HasLevel(r, up) && VecAt(r, up) == Vector(VecAt(v, up).buf, LessOne(VecAt(v, up).nodes, c[|c| - 1])) &&
            Stale(r, parent, up, LessOne(Slots(VecAt(v, up)), c[|c| - 1]))
    decreases |c|
  {
    if |c| > 1 {
      NodeDown(v, c);
      FrontTail(c, |c| - 1);
      ErasedIsStale(v.nodes[c[0]].children.value, Some(Slot(v.buf, c[0])), c[1..]);
    }
  }

  /** children.emplace: a leaf gets an empty vector. */
  function EmplaceAt(v: Vector, c: Cursor, buf: nat): Vector
    requires HasNode(v, c) && NodeAt(v, c).children.None?
    decreases |c|
  {
    if |c| == 1 then Vector(v.buf, v.nodes[c[0] := v.nodes[c[0]].(children := Some(Vector(buf, [])))])
    else
      NodeDown(v, c);
      var n := v.nodes[c[0]];
      Vector(v.buf, v.nodes[c[0] := n.(children := Some(EmplaceAt(n.children.value, c[1..], buf)))])
  }

  /** No node moves by that, and the new level has no siblings that could. */
  lemma {:induction false} EmplacedIsCoherent(v: Vector, parent: Option<Slot>, c: Cursor, buf: nat)
    requires Coherent(v, parent) && HasNode(v, c) && NodeAt(v, c).children.None?
    ensures var r := EmplaceAt(v, c, buf);
            Coherent(r, parent) && HasLevel(r, c) && VecAt(r, c) == Vector(buf, [])
    decreases |c|
  {
    if |c| > 1 {
      NodeDown(v, c);
      EmplacedIsCoherent(v.nodes[c[0]].children.value, Some(Slot(v.buf, c[0])), c[1..], buf);
    }
  }

  /** Where the node lies whose children are this level; the roots have none. */
  function Above(v: Vector, parent: Option<Slot>, c: Cursor): Option<Slot>
    requires HasLevel(v, c)
    decreases |c|
  {
    if c == [] then parent else Above(v.nodes[c[0]].children.value, Some(Slot(v.buf, c[0])), c[1..])
  }

  /**
   * emplace_back, and what is then put under the new node: the other nodes of the level move if the vector
   * gets another buffer.
   */
  function AppendAt(v: Vector, c: Cursor, n: Node, buf: nat): Vector
    requires HasLevel(v, c)
    decreases |c|
  {
    if c == [] then Vector(buf, v.nodes + [n])
    else
      var m := v.nodes[c[0]];
      Vector(v.buf, v.nodes[c[0] := m.(children := Some(AppendAt(m.children.value, c[1..], n, buf)))])
  }

  /** The new node knows its parent, and its children know where it lies. */
  predicate Placed(v: Vector, parent: Option<Slot>, c: Cursor, n: Node, buf: nat)
    requires HasLevel(v, c)
  {
    n.parent == Above(v, parent, c) &&
    (n.children.Some? ==> Coherent(n.children.value, Some(Slot(buf, |VecAt(v, c).nodes|))))
  }

  lemma {:induction false} AppendedIsStale(v: Vector, parent: Option<Slot>, c: Cursor, n: Node, buf: nat)
    requires Coherent(v, parent) && HasLevel(v, c) && Placed(v, parent, c, n, buf)
    ensures var r, level := AppendAt(v, c, n, buf), VecAt(v, c);
            HasLevel(r, c) && VecAt(r, c) == Vector(buf, level.nodes + [n]) &&
            Stale(r, parent, c, Slots(level) + [Slot(buf, |level.nodes|)])
    decreases |c|
  {
    if c != [] {
      AppendedIsStale(v.nodes[c[0]].children.value, Some(Slot(v.buf, c[0])), c[1..], n, buf);
    }
  }

  predicate HasChildren(n: Node) {
    n.children.Some? && n.children.value.nodes != []
  }

  lemma OneParent(v: Vector, p: Option<Slot>, q: Option<Slot>)
    requires Coherent(v, p)
    ensures Coherent(v, q) <==> v.nodes == [] || p == q
  {
    if v.nodes != [] { assert v.nodes[0].parent == p; }
  }

  /** Such a tree is coherent exactly when no node that lies elsewhere than it did has children. */
  lemma {:induction false} StaleOrCoherent(v: Vector, parent: Option<Slot>, c: Cursor, was: seq<Slot>)
    requires Stale(v, parent, c, was) && HasLevel(v, c)
    ensures |was| == |VecAt(v, c).nodes|
    ensures Coherent(v, parent) <==>
              forall k :: 0 <= k < |was| && was[k] != Slot(VecAt(v, c).buf, k) ==> !HasChildren(VecAt(v, c).nodes[k])
    decreases |c|
  {
    if c == [] {
      assert VecAt(v, c) == v;
      forall k | 0 <= k < |v.nodes|
        ensures (v.nodes[k].children.Some? ==> Coherent(v.nodes[k].children.value, Some(Slot(v.buf, k)))) <==>
                  (was[k] != Slot(v.buf, k) ==> !HasChildren(v.nodes[k]))
      {
        if v.nodes[k].children.Some? { OneParent(v.nodes[k].children.value, Some(was[k]), Some(Slot(v.buf, k))); }
      }
    } else {
      var child, here := v.nodes[c[0]].children.value, Some(Slot(v.buf, c[0]));
      StaleOrCoherent(child, here, c[1..], was);
      assert VecAt(v, c) == VecAt(child, c[1..]);
      if Coherent(child, here) {
        assert forall k :: 0 <= k < |v.nodes| && v.nodes[k].children.Some? ==>
            Coherent(v.nodes[k].children.value, Some(Slot(v.buf, k)));
      }
    }
  }

  /** After a delete the tree is coherent exactly when no sibling behind the node removed has children. */
  lemma CoherentAfterErase(v: Vector, c: Cursor)
    requires Coherent(v, None) && HasNode(v, c)
    ensures var kids := VecAt(v, c[..|c| - 1]).nodes;
            Coherent(EraseAt(v, c), None) <==> forall k :: c[|c| - 1] < k < |kids| ==> !HasChildren(kids[k])
  {
    var up, i, r := c[..|c| - 1], c[|c| - 1], EraseAt(v, c);
    var was := LessOne(Slots(VecAt(v, up)), i);
    ErasedIsStale(v, None, c);
    StaleOrCoherent(r, None, up, was);
    hide Stale, Coherent, HasChildren, EraseAt, VecAt;
    assert forall k :: 0 <= k < |was| ==> (was[k] != Slot(VecAt(r, up).buf, k) <==> k >= i);
    Behind(VecAt(v, up).nodes, i);
  }

  lemma Behind(kids: seq<Node>, i: nat)
    requires i < |kids|
    ensures (forall k :: i <= k < |kids| - 1 ==> !HasChildren(LessOne(kids, i)[k])) <==>
            forall k :: i < k < |kids| ==> !HasChildren(kids[k])
  {
    hide HasChildren;
    var less := LessOne(kids, i);
    assert forall k :: i < k < |kids| ==> kids[k] == less[k - 1];
    assert forall k :: i <= k < |less| ==> less[k] == kids[k + 1];
  }

  /**
   * After a create it is coherent exactly when the vector kept its buffer or no sibling of the new node
   * has children.
   */
  lemma CoherentAfterAppend(v: Vector, c: Cursor, n: Node, buf: nat)
    requires Coherent(v, None) && HasLevel(v, c) && Placed(v, None, c, n, buf)
    ensures var level := VecAt(v, c);
            Coherent(AppendAt(v, c, n, buf), None) <==>
              buf == level.buf || forall k :: 0 <= k < |level.nodes| ==> !HasChildren(level.nodes[k])
  {
    var r, level := AppendAt(v, c, n, buf), VecAt(v, c);
    var was := Slots(level) + [Slot(buf, |level.nodes|)];
    AppendedIsStale(v, None, c, n, buf);
    StaleOrCoherent(r, None, c, was);
    hide Stale, Coherent, HasChildren, AppendAt, VecAt;
    assert forall k :: 0 <= k < |level.nodes| ==>
        level.nodes[k] == VecAt(r, c).nodes[k] && was[k] == Slot(level.buf, k);
    assert was[|level.nodes|] == Slot(buf, |level.nodes|);
  }

  // ---- The walk through the parents ----

  /** What the loop over the parents reads from a pointer on, until it finds none. */
  ghost predicate Names(v: Vector, at: Option<Slot>, labels: seq<bytes>)
    decreases |labels|
  {
    match at
    case None => labels == []
    case Some(s) =>
      labels != [] && exists n: Node :: Holds(v, s, n) && n.zone.name == labels[0] && Names(v, n.parent, labels[1..])
  }

  lemma NamesStep(v: Vector, e: Cursor, labels: seq<bytes>)
    requires Separate(v) && HasNode(v, e)
    ensures var n := NodeAt(v, e);
            Names(v, Some(Here(v, e)), labels) <==>
              labels != [] && labels[0] == n.zone.name && Names(v, n.parent, labels[1..])
  {
    var up, i := e[..|e| - 1], e[|e| - 1];
    HeldAtLevel(v, up, i, NodeAt(v, e));
    forall n | Holds(v, Here(v, e), n)
      ensures n == NodeAt(v, e)
    {
      HeldAtLevel(v, up, i, n);
    }
  }

  lemma {:induction false} CoherentParent(v: Vector, parent: Option<Slot>, d: Cursor)
    requires Coherent(v, parent) && HasNode(v, d)
    ensures |d| > 1 ==> HasNode(v, d[..|d| - 1])
    ensures NodeAt(v, d).parent == if |d| == 1 then parent else Some(Here(v, d[..|d| - 1]))
    decreases |d|
  {
    if |d| > 1 {
      var up := d[..|d| - 1];
      NodeDown(v, d);
      FrontTail(d, |d| - 1);
      CoherentParent(v.nodes[d[0]].children.value, Some(Slot(v.buf, d[0])), d[1..]);
      if |d| > 2 { NodeDown(v, up); }
    }
  }

  /** The node lies below a node of this level. */
  predicate Beneath(c: Cursor, d: Cursor) {
    |d| >= |c| + 2 && d[..|c|] == c
  }

  /** The children of the level point to where their parents were; every other node points to its parent. */
  lemma {:induction false} StaleParent(v: Vector, parent: Option<Slot>, c: Cursor, was: seq<Slot>, d: Cursor)
    requires Stale(v, parent, c, was) && HasLevel(v, c) && HasNode(v, d)
    ensures |d| > 1 ==> HasNode(v, d[..|d| - 1])
    ensures Beneath(c, d) ==> d[|c|] < |was|
    ensures NodeAt(v, d).parent ==
              if |d| == 1 then parent
              else if Beneath(c, d) && |d| == |c| + 2 then Some(was[d[|c|]])
              else Some(Here(v, d[..|d| - 1]))
    decreases |d|
  {
    if |d| > 1 {
      var up := d[..|d| - 1];
      var child := v.nodes[d[0]].children.value;
      NodeDown(v, d);
      FrontTail(d, |d| - 1);
      if |d| > 2 { NodeDown(v, up); }
      if c == [] {
        CoherentParent(child, Some(was[d[0]]), d[1..]);
      } else if d[0] == c[0] {
        StaleParent(child, Some(Slot(v.buf, d[0])), c[1..], was, d[1..]);
        BeneathTail(c, d);
      } else {
        CoherentParent(child, Some(Slot(v.buf, d[0])), d[1..]);
      }
    }
  }

  lemma BeneathTail(c: Cursor, d: Cursor)
    requires c != [] && d != [] && d[0] == c[0]
    ensures Beneath(c, d) <==> Beneath(c[1..], d[1..])
  {
    if |d| >= |c| + 2 { FrontTail(d, |c|); assert c == [c[0]] + c[1..]; }
  }

  ghost function Labels(v: Vector, d: Cursor): (p: Path)
    requires HasNode(v, d)
    ensures |p| == |d|
  {
    SameCursors(v, d);
    PathOf(Unlinked(v), d)
  }

  lemma LastLabel(v: Vector, d: Cursor)
    requires HasNode(v, d)
    ensures Labels(v, d)[|d| - 1] == NodeAt(v, d).zone.name
  {
    SameCursors(v, d);
    LastOfPath(Unlinked(v), d);
  }

  lemma LabelsSnoc(v: Vector, d: Cursor)
    requires HasNode(v, d) && (|d| > 1 ==> HasNode(v, d[..|d| - 1]))
    ensures Labels(v, d) == (if |d| == 1 then [] else Labels(v, d[..|d| - 1])) + [NodeAt(v, d).zone.name]
  {
    LastLabel(v, d);
    if |d| > 1 {
      SameCursors(v, d);
      SameCursors(v, d[..|d| - 1]);
      hide HasNode, NodeAt, Unlinked, UnlinkedNode, ValidCursor, At;
      PathOfSnoc(Unlinked(v), d);
    } else {
      hide *;
      assert |Labels(v, d)| == 1;
    }
  }

  lemma FirstRead(v: Vector, d: Cursor)
    requires HasNode(v, d)
    ensures |Labels(v, d)| == |d| && |Reverse(Labels(v, d))| == |d| &&
            Reverse(Labels(v, d))[0] == NodeAt(v, d).zone.name
  {
    LastLabel(v, d);
  }

  lemma UpdateFront(p: Path, x: bytes, i: nat, y: bytes)
    requires i < |p|
    ensures (p + [x])[i := y] == p[i := y] + [x]
  {
  }

  lemma ReverseSnoc(p: Path, l: bytes)
    ensures Reverse(p + [l]) == [l] + Reverse(p)
  {
  }

  /** From a node that is not below the level, the walk reads the labels of its path. */
  lemma {:induction false} NamesAsPath(v: Vector, c: Cursor, was: seq<Slot>, d: Cursor, labels: seq<bytes>)
    requires Stale(v, None, c, was) && Separate(v) && HasLevel(v, c) && HasNode(v, d) && !Beneath(c, d)
    ensures Names(v, NodeAt(v, d).parent, labels) <==> [NodeAt(v, d).zone.name] + labels == Reverse(Labels(v, d))
    decreases |d|
  {
    StaleParent(v, None, c, was, d);
    LabelsSnoc(v, d);
    var l := NodeAt(v, d).zone.name;
    if |d| == 1 {
      ReverseSnoc([], l);
      assert Reverse([]) == [];
    } else {
      var up := d[..|d| - 1];
      NotBeneath(c, d);
      NamesStep(v, up, labels);
      if labels != [] { NamesAsPath(v, c, was, up, labels[1..]); }
      FirstRead(v, up);
      hide *;
      ReverseSnoc(Labels(v, up), l);
      Cons(l, labels, Reverse(Labels(v, up)), NodeAt(v, up).zone.name);
    }
  }

  lemma NotBeneath(c: Cursor, d: Cursor)
    requires |d| > 1 && !Beneath(c, d)
    ensures !Beneath(c, d[..|d| - 1])
  {
    var up := d[..|d| - 1];
    if |up| >= |c| { assert up[..|c|] == d[..|c|]; }
  }

  lemma Cons<T>(x: T, s: seq<T>, t: seq<T>, y: T)
    requires t != [] && t[0] == y
    ensures [x] + s == [x] + t <==> s != [] && s[0] == y && [y] + s[1..] == t
  {
    assert ([x] + s)[1..] == s && ([x] + t)[1..] == t;
    if s != [] { assert s == [s[0]] + s[1..]; }
  }

  /** The label of the node that now lies at an address in the buffer of the level. */
  ghost function LabelAt(v: Vector, c: Cursor, s: Slot): Option<bytes>
    requires HasLevel(v, c)
  {
    var level := VecAt(v, c);
    if s.buf == level.buf && s.index < |level.nodes| then Some(level.nodes[s.index].zone.name) else None
  }

  lemma NothingHeld(v: Vector, c: Cursor, s: Slot, labels: seq<bytes>)
    requires Separate(v) && HasLevel(v, c) && LabelAt(v, c, s).None? && (s.buf == VecAt(v, c).buf || !Uses(v, s.buf))
    ensures !Names(v, Some(s), labels)
  {
    forall n | Holds(v, s, n)
      ensures false
    {
      HeldIsUsed(v, s, n);
      HeldAtLevel(v, c, s.index, n);
    }
  }

  lemma LevelNode(v: Vector, c: Cursor, k: nat)
    requires HasLevel(v, c) && k < |VecAt(v, c).nodes|
    ensures HasNode(v, c + [k]) && NodeAt(v, c + [k]) == VecAt(v, c).nodes[k] &&
            Here(v, c + [k]) == Slot(VecAt(v, c).buf, k)
  {
    assert (c + [k])[..|c|] == c;
  }

  lemma {:induction false} LevelAbove(v: Vector, c: Cursor)
    requires HasLevel(v, c) && c != []
    ensures HasNode(v, c)
    decreases |c|
  {
    if |c| > 1 {
      LevelAbove(v.nodes[c[0]].children.value, c[1..]);
      NodeDown(v, c);
    } else {
      assert c[..0] == [];
    }
  }

  /** Siblings have the same path but for their own labels. */
  lemma LabelsOfSibling(v: Vector, c: Cursor, j: nat, k: nat)
    requires HasLevel(v, c) && j < |VecAt(v, c).nodes| && k < |VecAt(v, c).nodes|
    ensures HasNode(v, c + [j]) && HasNode(v, c + [k])
    ensures Labels(v, c + [j]) == Labels(v, c + [k])[|c| := VecAt(v, c).nodes[j].zone.name]
  {
    LevelNode(v, c, j);
    LevelNode(v, c, k);
    assert (c + [j])[..|c|] == c == (c + [k])[..|c|];
    if c != [] { LevelAbove(v, c); }
    LabelsSnoc(v, c + [j]);
    LabelsSnoc(v, c + [k]);
  }

  lemma OldPlace(v: Vector, c: Cursor, was: seq<Slot>, d: Cursor)
    requires Stale(v, None, c, was) && HasLevel(v, c) && HasNode(v, d) && Beneath(c, d) && |d| == |c| + 2
    requires d[|c|] < |was| && LabelAt(v, c, was[d[|c|]]).Some?
    ensures var s := was[d[|c|]];
            var e, l := c + [s.index], LabelAt(v, c, s).value;
            HasNode(v, e) && Here(v, e) == s && NodeAt(v, d).parent == Some(s) && NodeAt(v, e).zone.name == l &&
            !Beneath(c, e) && |Labels(v, d)| > |c| && Labels(v, d)[|c| := l] == Labels(v, e) + [NodeAt(v, d).zone.name]
  {
    hide Stale, HasLevel, Labels;
    var k, j := d[|c|], was[d[|c|]].index;
    assert d[..|d| - 1] == c + [k];
    StaleParent(v, None, c, was, d);
    LabelsSnoc(v, d);
    StaleLevel(v, None, c, was);
    LabelsOfSibling(v, c, j, k);
    LevelNode(v, c, j);
    UpdateFront(Labels(v, c + [k]), NodeAt(v, d).zone.name, |c|, LabelAt(v, c, was[k]).value);
  }

  /** A child of a node that has moved: the walk goes on from whatever node now lies where the parent was. */
  lemma NamesOfChild(v: Vector, c: Cursor, was: seq<Slot>, d: Cursor, labels: seq<bytes>)
    requires Stale(v, None, c, was) && Separate(v) && HasLevel(v, c) && HasNode(v, d) && Beneath(c, d) && |d| == |c| + 2
    requires d[|c|] < |was| && LabelAt(v, c, was[d[|c|]]).Some?
    ensures Names(v, NodeAt(v, d).parent, labels) <==>
              [NodeAt(v, d).zone.name] + labels == Reverse(Labels(v, d)[|c| := LabelAt(v, c, was[d[|c|]]).value])
  {
    hide *;
    OldPlace(v, c, was, d);
    var e, name := c + [was[d[|c|]].index], NodeAt(v, d).zone.name;
    NamesStep(v, e, labels);
    if labels != [] { NamesAsPath(v, c, was, e, labels[1..]); }
    FirstRead(v, e);
    ReverseSnoc(Labels(v, e), name);
    Cons(name, labels, Reverse(Labels(v, e)), NodeAt(v, e).zone.name);
  }

  /** From a node below the level, the walk reads the label of whatever node now lies where the parent was. */
  lemma {:induction false} NamesAsMoved(v: Vector, c: Cursor, was: seq<Slot>, d: Cursor, labels: seq<bytes>)
    requires Stale(v, None, c, was) && Separate(v) && HasLevel(v, c) && HasNode(v, d) && Beneath(c, d)
    requires forall k :: 0 <= k < |was| ==> was[k].buf == VecAt(v, c).buf || !Uses(v, was[k].buf)
    ensures d[|c|] < |was|
    ensures var l := LabelAt(v, c, was[d[|c|]]);
            Names(v, NodeAt(v, d).parent, labels) <==>
              l.Some? && [NodeAt(v, d).zone.name] + labels == Reverse(Labels(v, d)[|c| := l.value])
    decreases |d|
  {
    var up, name := d[..|d| - 1], NodeAt(v, d).zone.name;
    StaleParent(v, None, c, was, d);
    var l := LabelAt(v, c, was[d[|c|]]);
    if |d| == |c| + 2 {
      if l.Some? { NamesOfChild(v, c, was, d, labels); } else { NothingHeld(v, c, was[d[|c|]], labels); }
    } else {
      LabelsSnoc(v, d);
      assert Beneath(c, up) && up[|c|] == d[|c|];
      NamesStep(v, up, labels);
      if labels != [] { NamesAsMoved(v, c, was, up, labels[1..]); }
      FirstRead(v, up);
      hide Names, Stale, Separate, HasLevel, HasNode, NodeAt, Here, Labels;
      if l.Some? {
        var p := Labels(v, up)[|c| := l.value];
        UpdateFront(Labels(v, up), name, |c|, l.value);
        ReverseSnoc(p, name);
        Cons(name, labels, Reverse(p), NodeAt(v, up).zone.name);
      }
    }
  }

  lemma {:induction false} StaleLevel(v: Vector, parent: Option<Slot>, c: Cursor, was: seq<Slot>)
    requires Stale(v, parent, c, was) && HasLevel(v, c)
    ensures |was| == |VecAt(v, c).nodes|
    decreases |c|
  {
    if c != [] { StaleLevel(v.nodes[c[0]].children.value, Some(Slot(v.buf, c[0])), c[1..], was); }
  }

  // ---- What LookupName finds ----

  /** LookupName with the name that the walk through the parents reads. */
  ghost predicate FoundByName(v: Vector, domain: bytes) {
    var c := SearchFrom(Unlinked(v), Hosts(domain));
    c.Some? &&
    (SameCursors(v, c.value);
     var n := NodeAt(v, c.value);
     exists labels: Path :: Names(v, n.parent, labels) && IEquals(domain, Join([n.zone.name] + labels)))
  }

  /** The path leads below a node that has moved, and where that was lies no node with the same label now. */
  ghost predicate Misled(v: Vector, c: Cursor, was: seq<Slot>, q: Path)
    requires HasLevel(v, c)
  {
    var d := Locate(Unlinked(v), q);
    d.Some? && Beneath(c, d.value) && d.value[|c|] < |was| &&
    var l := LabelAt(v, c, was[d.value[|c|]]);
    l.None? || !IEquals(q[|c|], l.value)
  }

  /** The path that the walk from a node spells, if it comes to an end. */
  ghost function Spelled(v: Vector, c: Cursor, was: seq<Slot>, d: Cursor): Option<Path>
    requires HasLevel(v, c) && HasNode(v, d) && (Beneath(c, d) ==> d[|c|] < |was|)
  {
    if !Beneath(c, d) then Some(Labels(v, d))
    else
      var l := LabelAt(v, c, was[d[|c|]]);
      if l.None? then None else Some(Labels(v, d)[|c| := l.value])
  }

  /** The places from which nodes have moved are in the same buffer, or in one no longer in use. */
  ghost predicate Traced(v: Vector, c: Cursor, was: seq<Slot>)
    requires HasLevel(v, c)
  {
    forall k :: 0 <= k < |was| ==> was[k].buf == VecAt(v, c).buf || !Uses(v, was[k].buf)
  }

  lemma NamesAreSpelled(v: Vector, c: Cursor, was: seq<Slot>, d: Cursor, labels: seq<bytes>)
    requires Stale(v, None, c, was) && Separate(v) && HasLevel(v, c) && HasNode(v, d) && Traced(v, c, was)
    ensures Beneath(c, d) ==> d[|c|] < |was|
    ensures var p := Spelled(v, c, was, d);
            Names(v, NodeAt(v, d).parent, labels) <==> p.Some? && [NodeAt(v, d).zone.name] + labels == Reverse(p.value)
  {
    if Beneath(c, d) { NamesAsMoved(v, c, was, d, labels); } else { NamesAsPath(v, c, was, d, labels); }
  }

  predicate SameLabels(p: seq<bytes>, q: seq<bytes>) {
    |p| == |q| && forall k :: 0 <= k < |p| ==> IEquals(p[k], q[k])
  }

  lemma SameReversed(p: Path, q: Path)
    ensures SameLabels(Reverse(p), Reverse(q)) <==> SameLabels(p, q)
  {
    hide IEquals;
    if |p| == |q| {
      forall k | 0 <= k < |p|
        ensures IEquals(Reverse(p)[k], Reverse(q)[k]) <==> IEquals(p[|p| - 1 - k], q[|p| - 1 - k])
      {
      }
      hide Reverse;
      Mirrored(Reverse(p), Reverse(q), p, q);
    }
  }

  lemma Mirrored(x: Path, y: Path, p: Path, q: Path)
    requires |x| == |y| == |p| == |q|
    requires forall k :: 0 <= k < |p| ==> (IEquals(x[k], y[k]) <==> IEquals(p[|p| - 1 - k], q[|p| - 1 - k]))
    ensures SameLabels(x, y) <==> SameLabels(p, q)
  {
    hide IEquals;
    if SameLabels(x, y) {
      forall k | 0 <= k < |p|
        ensures IEquals(p[k], q[k])
      {
        assert IEquals(x[|p| - 1 - k], y[|p| - 1 - k]);
      }
    }
  }

  /** A text is a printed path up to case just when it is tidy and its labels are those of the path up to case. */
  lemma PrintedPath(domain: bytes, p: Path)
    requires p != [] && DotFree(p) && |p| <= |Hosts(domain)|
    ensures IEquals(domain, Join(Reverse(p))) <==> Join(Key(domain)) == domain && SameLabels(Hosts(domain), p)
  {
    hide IEquals, Join, Key, Dots;
    var key, labels := Key(domain), Reverse(p);
    KeyIsClean(domain);
    PrintedLabels(domain, labels);
    assert Reverse(Hosts(domain)) == key;
    SameReversed(Hosts(domain), p);
    if |p| == |key| { JoinUpToCase(key, labels); }
  }

  lemma SpelledIsClean(v: Vector, c: Cursor, was: seq<Slot>, d: Cursor)
    requires Sound(Unlinked(v)) && HasLevel(v, c) && HasNode(v, d) && (Beneath(c, d) ==> d[|c|] < |was|)
    requires Spelled(v, c, was, d).Some?
    ensures var p := Spelled(v, c, was, d).value;
            |p| == |d| && DotFree(p) && p[|d| - 1] == NodeAt(v, d).zone.name
  {
    SameCursors(v, d);
    PathIsClean(Unlinked(v), d);
    LastLabel(v, d);
    if Beneath(c, d) {
      var k := was[d[|c|]].index;
      LevelNode(v, c, k);
      SameCursors(v, c + [k]);
      SoundAt(Unlinked(v), c + [k]);
    }
  }

  lemma FoundAsSpelled(v: Vector, c: Cursor, was: seq<Slot>, domain: bytes)
    requires Stale(v, None, c, was) && Separate(v) && HasLevel(v, c) && Sound(Unlinked(v)) && Traced(v, c, was)
    requires SearchFrom(Unlinked(v), Hosts(domain)).Some?
    ensures var d := SearchFrom(Unlinked(v), Hosts(domain)).value;
            HasNode(v, d) && (Beneath(c, d) ==> d[|c|] < |was|) &&
            (FoundByName(v, domain) <==>
               Spelled(v, c, was, d).Some? && IEquals(domain, Join(Reverse(Spelled(v, c, was, d).value))))
  {
    var d := SearchFrom(Unlinked(v), Hosts(domain)).value;
    SameCursors(v, d);
    var n := NodeAt(v, d);
    hide Stale, Separate, HasLevel, HasNode, NodeAt, Sound, Names, Join, IEquals, SearchFrom, Unlinked, Traced,
         Spelled, DotFree;
    NamesAreSpelled(v, c, was, d, []);
    var p := Spelled(v, c, was, d);
    forall labels: Path
      ensures Names(v, n.parent, labels) <==> p.Some? && [n.zone.name] + labels == Reverse(p.value)
    {
      NamesAreSpelled(v, c, was, d, labels);
    }
    if p.Some? { SpelledIsClean(v, c, was, d); }
    SpellingIsName(v, n.parent, n.zone.name, p, domain);
  }

  lemma SpellingIsName(v: Vector, at: Option<Slot>, name: bytes, p: Option<Path>, domain: bytes)
    requires forall labels: Path :: Names(v, at, labels) <==> p.Some? && [name] + labels == Reverse(p.value)
    requires p.Some? ==> p.value != [] && p.value[|p.value| - 1] == name
    ensures (exists labels: Path :: Names(v, at, labels) && IEquals(domain, Join([name] + labels))) <==>
              p.Some? && IEquals(domain, Join(Reverse(p.value)))
  {
    hide Names, IEquals, Join;
    if p.Some? {
      var printed := Reverse(p.value);
      assert [name] + printed[1..] == printed;
      assert Names(v, at, printed[1..]);
    }
  }

  /** What is spelled is the domain asked for just when its path is in the tree, tidy, and not misled. */
  lemma SpelledMatches(v: Vector, c: Cursor, was: seq<Slot>, domain: bytes)
    requires Sound(Unlinked(v)) && HasLevel(v, c) && SearchFrom(Unlinked(v), Hosts(domain)).Some?
    requires var d := SearchFrom(Unlinked(v), Hosts(domain)).value;
             HasNode(v, d) && (Beneath(c, d) ==> d[|c|] < |was|)
    ensures var p := Spelled(v, c, was, SearchFrom(Unlinked(v), Hosts(domain)).value);
            p.Some? && IEquals(domain, Join(Reverse(p.value))) <==>
              Locate(Unlinked(v), Hosts(domain)).Some? && Join(Key(domain)) == domain &&
              !Misled(v, c, was, Hosts(domain))
  {
    var q := Hosts(domain);
    var d := SearchFrom(Unlinked(v), q).value;
    SearchIsExact(Unlinked(v), q);
    if Locate(Unlinked(v), q).Some? { PathOfLocated(Unlinked(v), q); }
    hide HasLevel, HasNode, NodeAt, Sound, Join, IEquals, SearchFrom, Unlinked, Locate;
    if Spelled(v, c, was, d).Some? {
      SpelledIsClean(v, c, was, d);
      PrintedPath(domain, Spelled(v, c, was, d).value);
      if |d| == |q| && Beneath(c, d) { SameButOne(q, |c|, LabelAt(v, c, was[d[|c|]]).value); }
      SameAsItself(q);
    }
  }

  /**
   * While the children of one level still point to where their parents were, a domain is found exactly if
   * its path is in the tree, it is tidy, and it does not lead below a node whose old place holds no node
   * with the same label.
   */
  lemma FoundInStale(v: Vector, c: Cursor, was: seq<Slot>, domain: bytes)
    requires Stale(v, None, c, was) && Separate(v) && HasLevel(v, c) && Sound(Unlinked(v)) && Traced(v, c, was)
    ensures FoundByName(v, domain) <==>
              Hosts(domain) in Entries(Unlinked(v)) && Join(Key(domain)) == domain && !Misled(v, c, was, Hosts(domain))
  {
    var q := Hosts(domain);
    SearchIsExact(Unlinked(v), q);
    EntryOf(Unlinked(v), q);
    hide Stale, Separate, HasLevel, Sound, Traced, Join, IEquals, Key, Hosts, Misled, SearchFrom, Locate, Spelled,
         Names;
    if SearchFrom(Unlinked(v), q).Some? {
      FoundAsSpelled(v, c, was, domain);
      SpelledMatches(v, c, was, domain);
    }
  }

  lemma SameAsItself(p: Path)
    ensures SameLabels(p, p)
  {
  }

  lemma SameButOne(p: Path, k: nat, l: bytes)
    requires k < |p|
    ensures SameLabels(p, p[k := l]) <==> IEquals(p[k], l)
  {
    SameAsItself(p);
  }

  /** With coherent pointers LookupName finds what it is meant to find. */
  lemma FoundInCoherent(v: Vector, domain: bytes)
    requires Coherent(v, None) && Separate(v) && Sound(Unlinked(v))
    ensures FoundByName(v, domain) <==> LookupNameIn(Unlinked(v), domain).Some?
  {
    assert Stale(v, None, [], Slots(v)) && VecAt(v, []) == v;
    NotMisled(v, Hosts(domain));
    hide *;
    FoundInStale(v, [], Slots(v), domain);
    LookupNameIsExact(Unlinked(v), domain);
  }

  lemma NotMisled(v: Vector, q: Path)
    ensures !Misled(v, [], Slots(v), q)
  {
    var d := Locate(Unlinked(v), q);
    if d.Some? && Beneath([], d.value) {
      OwnLabel(v, [], d.value, q);
      hide Locate, Unlinked;
      SameAsItself(q);
    }
  }

  lemma OwnLabel(v: Vector, c: Cursor, d: Cursor, q: Path)
    requires HasLevel(v, c) && Locate(Unlinked(v), q) == Some(d) && Beneath(c, d)
    ensures d[|c|] < |VecAt(v, c).nodes| && VecAt(v, c).nodes[d[|c|]].zone.name == q[|c|]
  {
    hide Locate, Unlinked, HasLevel, VecAt, ValidCursor;
    var n := |c| + 1;
    LocatePrefix(Unlinked(v), q, n);
    assert d[..n][..|c|] == c;
    SameCursors(v, d[..n]);
    PathOfLocated(Unlinked(v), q[..n]);
    LastOfPath(Unlinked(v), d[..n]);
  }

  lemma {:induction false} ErasedUses(v: Vector, c: Cursor, buf: nat)
    requires HasNode(v, c) && Uses(EraseAt(v, c), buf)
    ensures Uses(v, buf)
    decreases |c|
  {
    var r := EraseAt(v, c);
    if buf != v.buf {
      var k :| 0 <= k < |r.nodes| && r.nodes[k].children.Some? && Uses(r.nodes[k].children.value, buf);
      if |c| == 1 {
        assert r.nodes[k] == v.nodes[if k < c[0] then k else k + 1];
      } else {
        NodeDown(v, c);
        if k == c[0] { ErasedUses(v.nodes[c[0]].children.value, c[1..], buf); }
      }
    }
  }

  lemma {:induction false} ErasedIsSeparate(v: Vector, c: Cursor)
    requires HasNode(v, c) && Separate(v)
    ensures Separate(EraseAt(v, c))
    decreases |c|
  {
    var r := EraseAt(v, c);
    if |c| == 1 {
      assert forall k :: 0 <= k < |r.nodes| ==> r.nodes[k] == v.nodes[if k < c[0] then k else k + 1];
    } else {
      NodeDown(v, c);
      var child := v.nodes[c[0]].children.value;
      ErasedIsSeparate(child, c[1..]);
      forall buf: nat | Uses(EraseAt(child, c[1..]), buf)
        ensures Uses(child, buf)
      {
        ErasedUses(child, c[1..], buf);
      }
    }
  }

  /** Without its pointers, the tree after erase is the one that Delete commits. */
  lemma {:induction false} ErasedIsErased(v: Vector, c: Cursor)
    requires HasNode(v, c) && |c| > 1
    ensures ValidCursor(Unlinked(v), c) && Unlinked(EraseAt(v, c)) == Erased(Unlinked(v), c)
    decreases |c|
  {
    SameCursors(v, c);
    NodeDown(v, c);
    var nodes, kids := Unlinked(v), Unlinked(v.nodes[c[0]].children.value);
    LastOfCursor(nodes, c);
    FrontTail(c, |c| - 1);
    if |c| == 2 {
      assert Unlinked(EraseAt(v.nodes[c[0]].children.value, c[1..])) == Without(kids, c[1]);
    } else {
      ErasedIsErased(v.nodes[c[0]].children.value, c[1..]);
    }
  }

  /** The path leads below a node that moved up, and where that was lies no node, or one with another label. */
  ghost predicate Adopted(nodes: seq<ZoneNode>, up: Cursor, i: nat, q: Path)
    requires up == [] || ValidCursor(nodes, up)
  {
    var d, level := Locate(nodes, q), Level(nodes, up);
    d.Some? && Beneath(up, d.value) && d.value[|up|] >= i &&
    (d.value[|up|] + 1 >= |level| || !IEquals(q[|up|], level[d.value[|up|] + 1].zone.name))
  }

  /**
   * After a committed delete, and until the next change, LookupName finds exactly the domains in the tree
   * that do not lie below a sibling behind the node removed; there the walk reads the label of the next
   * sibling, or none.
   */
  lemma FoundAfterErase(v: Vector, c: Cursor, domain: bytes)
    requires Coherent(v, None) && Separate(v) && Sound(Unlinked(v)) && HasNode(v, c) && |c| > 1
    ensures ValidCursor(Unlinked(v), c) && Unlinked(EraseAt(v, c)) == Erased(Unlinked(v), c)
    ensures var nodes, up := Erased(Unlinked(v), c), c[..|c| - 1];
            (up == [] || ValidCursor(nodes, up)) &&
            (FoundByName(EraseAt(v, c), domain) <==>
               Hosts(domain) in Entries(nodes) && Join(Key(domain)) == domain &&
               !Adopted(nodes, up, c[|c| - 1], Hosts(domain)))
  {
    var up, i, r := c[..|c| - 1], c[|c| - 1], EraseAt(v, c);
    var was := LessOne(Slots(VecAt(v, up)), i);
    ErasedIsErased(v, c);
    SoundErased(Unlinked(v), c);
    ErasedIsStale(v, None, c);
    ErasedIsSeparate(v, c);
    SameLevels(r, up);
    MisledIsAdopted(r, up, was, i, Hosts(domain));
    hide Stale, Separate, HasLevel, HasNode, Sound, EraseAt, Erased, Coherent, FoundByName, Misled, Adopted;
    FoundInStale(r, up, was, domain);
  }

  lemma MisledIsAdopted(r: Vector, up: Cursor, was: seq<Slot>, i: nat, q: Path)
    requires HasLevel(r, up) && |was| == |VecAt(r, up).nodes|
    requires forall k :: 0 <= k < |was| ==> was[k] == Slot(VecAt(r, up).buf, if k < i then k else k + 1)
    ensures (up == [] || ValidCursor(Unlinked(r), up)) && (Misled(r, up, was, q) <==> Adopted(Unlinked(r), up, i, q))
  {
    hide Locate, Unlinked, HasLevel, VecAt, Level, ValidCursor, IEquals, LabelAt;
    SameLevels(r, up);
    var d := Locate(Unlinked(r), q);
    if d.Some? && Beneath(up, d.value) {
      OwnLabel(r, up, d.value, q);
      SameLabel(q[|up|]);
      NextLabel(r, up, d.value[|up|], i);
    }
  }

  lemma SameLabel(l: bytes)
    ensures IEquals(l, l)
  {
  }

  lemma NextLabel(r: Vector, up: Cursor, k: nat, i: nat)
    requires HasLevel(r, up) && (up == [] || ValidCursor(Unlinked(r), up)) && k < |VecAt(r, up).nodes|
    ensures var level := Level(Unlinked(r), up);
            |level| == |VecAt(r, up).nodes| &&
            LabelAt(r, up, Slot(VecAt(r, up).buf, if k < i then k else k + 1)) ==
              if k < i then Some(VecAt(r, up).nodes[k].zone.name)
              else if k + 1 < |level| then Some(level[k + 1].zone.name) else None
  {
    SameLevels(r, up);
  }

  /**
   * After a committed create that moved a vector to another buffer, LookupName finds exactly the domains
   * in the tree that do not lie below one of the nodes that were in it.
   */
  lemma FoundAfterAppend(v: Vector, c: Cursor, n: Node, buf: nat, domain: bytes)
    requires Coherent(v, None) && HasLevel(v, c) && Placed(v, None, c, n, buf)
    requires var r := AppendAt(v, c, n, buf);
             Separate(r) && Sound(Unlinked(r)) && !Uses(r, VecAt(v, c).buf)
    ensures var r := AppendAt(v, c, n, buf);
            FoundByName(r, domain) <==>
              Hosts(domain) in Entries(Unlinked(r)) && Join(Key(domain)) == domain &&
              !(var d := Locate(Unlinked(r), Hosts(domain));
                d.Some? && Beneath(c, d.value) && d.value[|c|] < |VecAt(v, c).nodes|)
  {
    var r, level := AppendAt(v, c, n, buf), VecAt(v, c);
    var was := Slots(level) + [Slot(buf, |level.nodes|)];
    AppendedIsStale(v, None, c, n, buf);
    LevelIsUsed(r, c);
    MisledIsOlder(r, c, was, |level.nodes|, Hosts(domain));
    hide Stale, Separate, HasLevel, HasNode, Sound, AppendAt, Coherent, FoundByName, Misled, Locate, VecAt, Uses;
    FoundInStale(r, c, was, domain);
  }

  lemma MisledIsOlder(r: Vector, c: Cursor, was: seq<Slot>, n: nat, q: Path)
    requires HasLevel(r, c) && |was| == |VecAt(r, c).nodes| == n + 1 && was[n] == Slot(VecAt(r, c).buf, n)
    requires forall k :: 0 <= k < n ==> was[k].buf != VecAt(r, c).buf
    ensures var d := Locate(Unlinked(r), q);
            Misled(r, c, was, q) <==> d.Some? && Beneath(c, d.value) && d.value[|c|] < n
  {
    hide Locate, Unlinked, HasLevel, VecAt, IEquals;
    var d := Locate(Unlinked(r), q);
    if d.Some? && Beneath(c, d.value) {
      OwnLabel(r, c, d.value, q);
      SameLabel(q[|c|]);
    }
  }
}
