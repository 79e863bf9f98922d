/** The pointers of the tree that a create commits: what the new nodes and the new data do to them. */
module PointersInForce {
  import opened Bytes
  import opened DomainNames
  import opened Zones
  import opened ZoneTrees
  import opened ZoneMaps
  import opened ZoneSections
  import opened ParentPointers

  // ---- The new nodes of a create ----

  /** Blank nodes for these labels, each below the one before. */
  function Chained(p: Path): ZoneNode
    requires p != []
  {
    ZoneNode(Blank(p[0]), if |p| == 1 then Children.Absent else Engaged([Chained(p[1..])]))
  }

  /** The level with a node for the label, and the index of that node. */
  function Based(nodes: seq<ZoneNode>, l: bytes): seq<ZoneNode> {
    if FindLast(nodes, l).Some? then nodes else nodes + [ZoneNode(Blank(l), Absent)]
  }

  function BaseIndex(nodes: seq<ZoneNode>, l: bytes): (j: nat)
    ensures j < |Based(nodes, l)| && FindLast(Based(nodes, l), l) == Some(j)
  {
    var n := ZoneNode(Blank(l), Children.Absent);
    FindAppended(nodes, n, l);
    if FindLast(nodes, l).Some? then FindLast(nodes, l).value else |nodes|
  }

  function Opened(nodes: seq<ZoneNode>, j: nat, kids: seq<ZoneNode>): seq<ZoneNode>
    requires j < |nodes|
  {
    nodes[j := nodes[j].(children := Engaged(kids))]
  }

  lemma AddFirst(nodes: seq<ZoneNode>, l: bytes)
    ensures Grown(nodes, [l]) == Based(nodes, l)
  {
    assert [l][..0] == [];
  }

  /** In an opened level a path leads to where it leads from the children, below the node. */
  lemma LocateOpened(base: seq<ZoneNode>, j: nat, kids: seq<ZoneNode>, p: Path)
    requires |p| > 1 && FindLast(base, p[0]) == Some(j) && j < |base|
    ensures Locate(Opened(base, j, kids), p) == Under([j], Locate(kids, p[1..]))
  {
    SameMatch(base, Opened(base, j, kids), p[0]);
    LocateStep(Opened(base, j, kids), p);
  }

  /** A label added under an opened node is added under its children. */
  lemma AddOpened(base: seq<ZoneNode>, j: nat, kids: seq<ZoneNode>, c: Cursor, h: bytes)
    requires j < |base| && (c == [] || ValidCursor(kids, c))
    ensures ValidCursor(Opened(base, j, kids), [j] + c)
    ensures AddLabel(Opened(base, j, kids), [j] + c, h) == Opened(base, j, AddLabel(kids, c, h))
  {
    var r := Opened(base, j, kids);
    assert ([j] + c)[1..] == c;
    if c != [] { LevelTail(r, [j] + c); }
  }

  lemma AddSecond(nodes: seq<ZoneNode>, l: bytes, h: bytes)
    ensures var base, j := Based(nodes, l), BaseIndex(nodes, l);
            Grown(nodes, [l, h]) == Opened(base, j, Based(base[j].Kids(), h))
  {
    var base, j := Based(nodes, l), BaseIndex(nodes, l);
    AddFirst(nodes, l);
    assert [l, h][..1] == [l];
    assert CursorOf(base, [l]) == [j] by { LocateStep(base, [l]); }
    assert Grown(nodes, [l, h]) == AddLabel(base, [j], h);
  }

  lemma LastTail(p: Path)
    requires |p| > 1
    ensures p[..|p| - 1][0] == p[0] && p[..|p| - 1][1..] == p[1..][..|p| - 2]
  {
  }

  lemma GrowLast(nodes: seq<ZoneNode>, p: Path)
    requires p != []
    ensures var up := p[..|p| - 1];
            (up == [] || Locate(Grown(nodes, up), up).Some?) &&
            Grown(nodes, p) == AddLabel(Grown(nodes, up), CursorOf(Grown(nodes, up), up), p[|p| - 1])
  {
  }

  lemma BaseIs(nodes: seq<ZoneNode>, l: bytes)
    ensures BaseIndex(nodes, l) < |Based(nodes, l)| && FindLast(Based(nodes, l), l) == Some(BaseIndex(nodes, l))
  {
  }

  lemma CursorIs(nodes: seq<ZoneNode>, p: Path)
    requires p != [] && Locate(nodes, p).Some?
    ensures CursorOf(nodes, p) == Locate(nodes, p).value && ValidCursor(nodes, CursorOf(nodes, p))
  {
  }

  /** Growing along a path is growing the level of its first label, and then the children of that node. */
  lemma {:induction false} GrownBelow(nodes: seq<ZoneNode>, p: Path)
    requires |p| > 1
    ensures var base, j := Based(nodes, p[0]), BaseIndex(nodes, p[0]);
            Grown(nodes, p) == Opened(base, j, Grown(base[j].Kids(), p[1..]))
    decreases |p|
  {
    hide Grown, Locate, FindLast, AddLabel, Based, BaseIndex, Opened, CursorOf, ValidCursor;
    var base, j := Based(nodes, p[0]), BaseIndex(nodes, p[0]);
    BaseIs(nodes, p[0]);
    var kids := base[j].Kids();
    if |p| == 2 {
      AddSecond(nodes, p[0], p[1]);
      AddFirst(kids, p[1]);
      assert p == [p[0], p[1]] && p[1..] == [p[1]];
    } else {
      var up, t := p[..|p| - 1], p[1..];
      LastTail(p);
      GrownBelow(nodes, up);
      GrowLast(nodes, p);
      GrowLast(kids, t);
      var g := Grown(kids, t[..|t| - 1]);
      LocateOpened(base, j, g, up);
      CursorIs(g, t[..|t| - 1]);
      CursorIs(Opened(base, j, g), up);
      AddOpened(base, j, g, CursorOf(g, t[..|t| - 1]), p[|p| - 1]);
    }
  }

  lemma WithLevelBelow(nodes: seq<ZoneNode>, c: Cursor, kids: seq<ZoneNode>)
    requires ValidCursor(nodes, c)
    ensures c[0] < |nodes| && (|c| == 1 || ValidCursor(nodes[c[0]].Kids(), c[1..]))
    ensures WithLevel(nodes, c, kids) == Opened(nodes, c[0], WithLevel(nodes[c[0]].Kids(), c[1..], kids))
    ensures Level(nodes, c) == Level(nodes[c[0]].Kids(), c[1..])
  {
    LevelTail(nodes, c);
    if |c| == 1 { assert c[1..] == []; }
  }

  lemma LeadsBelow(nodes: seq<ZoneNode>, p: Path, c: Cursor)
    requires c != [] && |c| < |p| && Leads(nodes, p[..|c|], c) && Locate(nodes, p[..|c| + 1]).None?
    ensures ValidCursor(nodes, c) && FindLast(nodes, p[0]) == Some(c[0])
    ensures var kids, q, d := nodes[c[0]].Kids(), p[1..], c[1..];
            Leads(kids, q[..|d|], d) && Locate(kids, q[..|d| + 1]).None?
  {
    var u, w := p[..|c|], p[..|c| + 1];
    LocateTail(nodes, u, c);
    LocateStep(nodes, w);
    assert u[1..] == p[1..][..|c| - 1] && w[1..] == p[1..][..|c|];
  }

  lemma ChainedIs(p: Path)
    requires p != []
    ensures |p| == 1 ==> Chained(p) == ZoneNode(Blank(p[0]), Absent)
    ensures |p| > 1 ==> Chained(p) == ZoneNode(Blank(p[0]), Engaged([Chained(p[1..])]))
  {
  }

  lemma NewBase(nodes: seq<ZoneNode>, l: bytes)
    requires FindLast(nodes, l).None?
    ensures Based(nodes, l) == nodes + [ZoneNode(Blank(l), Absent)] && BaseIndex(nodes, l) == |nodes|
  {
    FindAppended(nodes, ZoneNode(Blank(l), Children.Absent), l);
  }

  lemma {:induction false} GrownAtRoot(nodes: seq<ZoneNode>, p: Path)
    requires p != [] && FindLast(nodes, p[0]).None?
    ensures Grown(nodes, p) == nodes + [Chained(p)]
    decreases |p|
  {
    hide Grown, Based, BaseIndex, Chained;
    NewBase(nodes, p[0]);
    ChainedIs(p);
    if |p| == 1 {
      AddFirst(nodes, p[0]);
      assert p == [p[0]];
    } else {
      GrownBelow(nodes, p);
      GrownAtRoot([], p[1..]);
      assert [] + [Chained(p[1..])] == [Chained(p[1..])];
    }
  }

  lemma FoundBase(nodes: seq<ZoneNode>, l: bytes)
    requires FindLast(nodes, l).Some?
    ensures Based(nodes, l) == nodes && BaseIndex(nodes, l) == FindLast(nodes, l).value
  {
  }

  lemma GrownHere(nodes: seq<ZoneNode>, p: Path)
    requires p != [] && Locate(nodes, p[..1]).None?
    ensures Grown(nodes, p) == WithLevel(nodes, [], Level(nodes, []) + [Chained(p[0..])])
  {
    LocateStep(nodes, p[..1]);
    assert p[0..] == p;
    hide Grown, Locate, Chained;
    GrownAtRoot(nodes, p);
  }

  /** Where the labels of a path are in the tree as far as a level, a create appends one chain of nodes there. */
  lemma {:induction false} GrownAt(nodes: seq<ZoneNode>, p: Path, c: Cursor)
    requires |c| < |p| && Leads(nodes, p[..|c|], c) && Locate(nodes, p[..|c| + 1]).None?
    ensures c == [] || ValidCursor(nodes, c)
    ensures Grown(nodes, p) == WithLevel(nodes, c, Level(nodes, c) + [Chained(p[|c|..])])
    decreases |p|
  {
    hide Grown, Locate, FindLast, ValidCursor, WithLevel, Level, Chained, Leads, Based, BaseIndex, Opened, Entries;
    if c == [] {
      GrownHere(nodes, p);
    } else {
      LeadsBelow(nodes, p, c);
      FoundBase(nodes, p[0]);
      var kids, q, d := nodes[c[0]].Kids(), p[1..], c[1..];
      GrownBelow(nodes, p);
      GrownAt(kids, q, d);
      assert q[|d|..] == p[|c|..];
      WithLevelBelow(nodes, c, Level(nodes, c) + [Chained(p[|c|..])]);
    }
  }

  /** Without its pointers, the tree after emplace_back is the one with the longer level. */
  lemma {:induction false} AppendedUnlinked(v: Vector, c: Cursor, n: Node, buf: nat)
    requires HasLevel(v, c)
    ensures (c == [] || ValidCursor(Unlinked(v), c)) && Level(Unlinked(v), c) == Unlinked(VecAt(v, c))
    ensures Unlinked(AppendAt(v, c, n, buf)) ==
            WithLevel(Unlinked(v), c, Level(Unlinked(v), c) + [UnlinkedNode(n)])
    decreases |c|
  {
    SameLevels(v, c);
    if c != [] {
      var child := v.nodes[c[0]].children.value;
      AppendedUnlinked(child, c[1..], n, buf);
      WithLevelBelow(Unlinked(v), c, Level(Unlinked(v), c) + [UnlinkedNode(n)]);
    }
  }

  // ---- New data ----

  /** assign, or one more for a serial: the data of a node, and nothing of its pointers. */
  function SetDataAt(v: Vector, x: Cursor, d: ZoneData): (r: Vector)
    requires HasNode(v, x)
    decreases |x|
  {
    if |x| == 1 then Vector(v.buf, v.nodes[x[0] := v.nodes[x[0]].(zone := d)])
    else
      NodeDown(v, x);
      var n := v.nodes[x[0]];
      Vector(v.buf, v.nodes[x[0] := n.(children := Some(SetDataAt(n.children.value, x[1..], d)))])
  }

  lemma {:induction false} DataUnlinked(v: Vector, x: Cursor, d: ZoneData)
    requires HasNode(v, x)
    ensures ValidCursor(Unlinked(v), x) && Unlinked(SetDataAt(v, x, d)) == SetData(Unlinked(v), x, d)
    decreases |x|
  {
    SameCursors(v, x);
    if |x| > 1 {
      NodeDown(v, x);
      DataUnlinked(v.nodes[x[0]].children.value, x[1..], d);
    }
  }

  lemma {:induction false} DataKeepsUses(v: Vector, x: Cursor, d: ZoneData, buf: nat)
    requires HasNode(v, x)
    ensures Uses(SetDataAt(v, x, d), buf) <==> Uses(v, buf)
    decreases |x|
  {
    var r := SetDataAt(v, x, d);
    if |x| > 1 {
      NodeDown(v, x);
      DataKeepsUses(v.nodes[x[0]].children.value, x[1..], d, buf);
    }
    assert forall k :: 0 <= k < |v.nodes| && k != x[0] ==> r.nodes[k] == v.nodes[k];
    assert Uses(v, buf) ==> Uses(r, buf) by {
      if Uses(v, buf) && buf != v.buf {
        var k :| 0 <= k < |v.nodes| && v.nodes[k].children.Some? && Uses(v.nodes[k].children.value, buf);
        assert r.nodes[k].children.Some? && Uses(r.nodes[k].children.value, buf);
      }
    }
    if Uses(r, buf) && buf != v.buf {
      var k :| 0 <= k < |r.nodes| && r.nodes[k].children.Some? && Uses(r.nodes[k].children.value, buf);
      assert v.nodes[k].children.Some? && Uses(v.nodes[k].children.value, buf);
    }
  }

  lemma {:induction false} DataKeepsSeparate(v: Vector, x: Cursor, d: ZoneData)
    requires HasNode(v, x) && Separate(v)
    ensures Separate(SetDataAt(v, x, d))
    decreases |x|
  {
    if |x| > 1 {
      NodeDown(v, x);
      var child := v.nodes[x[0]].children.value;
      DataKeepsSeparate(child, x[1..], d);
      forall buf: nat
        ensures Uses(SetDataAt(child, x[1..], d), buf) <==> Uses(child, buf)
      {
        DataKeepsUses(child, x[1..], d, buf);
      }
    }
  }

  lemma {:induction false} DataKeepsCoherent(v: Vector, parent: Option<Slot>, x: Cursor, d: ZoneData)
    requires HasNode(v, x)
    ensures Coherent(SetDataAt(v, x, d), parent) <==> Coherent(v, parent)
    decreases |x|
  {
    var r := SetDataAt(v, x, d);
    if |x| > 1 {
      NodeDown(v, x);
      DataKeepsCoherent(v.nodes[x[0]].children.value, Some(Slot(v.buf, x[0])), x[1..], d);
    }
    assert forall k :: 0 <= k < |v.nodes| && k != x[0] ==> r.nodes[k] == v.nodes[k];
    assert r.nodes[x[0]].parent == v.nodes[x[0]].parent;
  }

  lemma {:induction false} DataKeepsStale(v: Vector, parent: Option<Slot>, c: Cursor, was: seq<Slot>, x: Cursor,
                                          d: ZoneData)
    requires HasNode(v, x) && Stale(v, parent, c, was)
    ensures Stale(SetDataAt(v, x, d), parent, c, was)
    decreases |x|
  {
    if |x| > 1 {
      NodeDown(v, x);
      var child := v.nodes[x[0]].children.value;
      if c == [] {
        DataKeepsCoherent(child, Some(was[x[0]]), x[1..], d);
      } else if x[0] == c[0] {
        DataKeepsStale(child, Some(Slot(v.buf, x[0])), c[1..], was, x[1..], d);
      } else {
        DataKeepsCoherent(child, Some(Slot(v.buf, x[0])), x[1..], d);
      }
    }
  }

  lemma {:induction false} DataKeepsLevel(v: Vector, c: Cursor, x: Cursor, d: ZoneData)
    requires HasNode(v, x) && HasLevel(v, c)
    ensures var r := SetDataAt(v, x, d);
            HasLevel(r, c) && VecAt(r, c).buf == VecAt(v, c).buf && |VecAt(r, c).nodes| == |VecAt(v, c).nodes|
    decreases |x|
  {
    if |x| > 1 {
      NodeDown(v, x);
      if c != [] && c[0] == x[0] { DataKeepsLevel(v.nodes[x[0]].children.value, c[1..], x[1..], d); }
    }
  }

  lemma DataKeepsNodes(v: Vector, x: Cursor, d: ZoneData, y: Cursor)
    requires HasNode(v, x) && HasNode(v, y)
    ensures HasNode(SetDataAt(v, x, d), y)
  {
    SameCursors(v, x);
    SameCursors(v, y);
    DataUnlinked(v, x, d);
    ValidWith(Unlinked(v), x, At(Unlinked(v), x).(zone := d), y);
    SameCursors(SetDataAt(v, x, d), y);
  }

  /** Everything about pointers that new data leaves as it is. */
  lemma DataKeeps(v: Vector, x: Cursor, d: ZoneData, c: Cursor, was: seq<Slot>)
    requires HasNode(v, x) && HasLevel(v, c)
    ensures var r := SetDataAt(v, x, d);
            HasNode(r, x) && HasLevel(r, c) && VecAt(r, c).buf == VecAt(v, c).buf &&
            |VecAt(r, c).nodes| == |VecAt(v, c).nodes| && (Coherent(r, None) <==> Coherent(v, None)) &&
            (Stale(v, None, c, was) ==> Stale(r, None, c, was)) && (Separate(v) ==> Separate(r)) &&
            forall buf: nat :: Uses(r, buf) <==> Uses(v, buf)
  {
    hide SetDataAt, Stale, Separate, Coherent, HasNode, HasLevel, VecAt, Uses;
    DataKeepsNodes(v, x, d, x);
    DataKeepsLevel(v, c, x, d);
    DataKeepsCoherent(v, None, x, d);
    if Stale(v, None, c, was) { DataKeepsStale(v, None, c, was, x, d); }
    if Separate(v) { DataKeepsSeparate(v, x, d); }
    forall buf: nat
      ensures Uses(SetDataAt(v, x, d), buf) <==> Uses(v, buf)
    {
      DataKeepsUses(v, x, d, buf);
    }
  }

  /** IncrementSerial: one more for the nearest authority from the node up, if there is one. */
  function CountAt(v: Vector, x: Cursor): Vector
    requires HasNode(v, x)
  {
    SameCursors(v, x);
    var k := HolderAt(Unlinked(v), x);
    if k == 0 then v
    else
      SameCursors(v, x[..k]);
      SetDataAt(v, x[..k], NextSerial(NodeAt(v, x[..k]).zone))
  }

  lemma CountUnlinked(v: Vector, x: Cursor)
    requires HasNode(v, x) && ValidCursor(Unlinked(v), x) && HolderAt(Unlinked(v), x) > 0
    ensures Unlinked(CountAt(v, x)) == BumpAt(Unlinked(v), x)
  {
    var k := HolderAt(Unlinked(v), x);
    SameCursors(v, x[..k]);
    DataUnlinked(v, x[..k], NextSerial(NodeAt(v, x[..k]).zone));
  }

  lemma CountKeeps(v: Vector, x: Cursor, c: Cursor, was: seq<Slot>)
    requires HasNode(v, x) && HasLevel(v, c)
    ensures var r := CountAt(v, x);
            HasNode(r, x) && HasLevel(r, c) && VecAt(r, c).buf == VecAt(v, c).buf &&
            |VecAt(r, c).nodes| == |VecAt(v, c).nodes| && (Coherent(r, None) <==> Coherent(v, None)) &&
            (Stale(v, None, c, was) ==> Stale(r, None, c, was)) && (Separate(v) ==> Separate(r)) &&
            forall buf: nat :: Uses(r, buf) <==> Uses(v, buf)
  {
    SameCursors(v, x);
    var k := HolderAt(Unlinked(v), x);
    if k > 0 {
      SameCursors(v, x[..k]);
      hide SetDataAt, Stale, Separate, Coherent, HasNode, HasLevel, VecAt, Uses, HolderAt, Unlinked;
      var d := NextSerial(NodeAt(v, x[..k]).zone);
      DataKeeps(v, x[..k], d, c, was);
      DataKeepsNodes(v, x[..k], d, x);
    }
  }

  /** assign, and then IncrementSerial. */
  function RenewAt(v: Vector, x: Cursor, zone: ZoneData): Vector
    requires HasNode(v, x)
  {
    DataKeepsNodes(v, x, Assigned(zone), x);
    CountAt(SetDataAt(v, x, Assigned(zone)), x)
  }

  lemma RenewUnlinked(v: Vector, x: Cursor, zone: ZoneData, saves: bool)
    requires HasNode(v, x) && ValidCursor(Unlinked(v), x) && Renewed(Unlinked(v), x, zone, saves).Ok?
    ensures Unlinked(RenewAt(v, x, zone)) == Renewed(Unlinked(v), x, zone, saves).value
  {
    var w := SetDataAt(v, x, Assigned(zone));
    DataKeepsNodes(v, x, Assigned(zone), x);
    DataUnlinked(v, x, Assigned(zone));
    SameCursors(w, x);
    hide SetDataAt, HolderAt, BumpAt, CountAt, Unlinked, HasNode;
    CountUnlinked(w, x);
  }

  lemma RenewKeeps(v: Vector, x: Cursor, zone: ZoneData, c: Cursor, was: seq<Slot>)
    requires HasNode(v, x) && HasLevel(v, c)
    ensures var r := RenewAt(v, x, zone);
            HasLevel(r, c) && VecAt(r, c).buf == VecAt(v, c).buf &&
            |VecAt(r, c).nodes| == |VecAt(v, c).nodes| && (Coherent(r, None) <==> Coherent(v, None)) &&
            (Stale(v, None, c, was) ==> Stale(r, None, c, was)) && (Separate(v) ==> Separate(r)) &&
            forall buf: nat :: Uses(r, buf) <==> Uses(v, buf)
  {
    hide SetDataAt, CountAt, Stale, Separate, Coherent, HasNode, HasLevel, VecAt, Uses;
    DataKeeps(v, x, Assigned(zone), c, was);
    CountKeeps(SetDataAt(v, x, Assigned(zone)), x, c, was);
  }

  // ---- What a create commits ----

  /** The new node for the first missing label of a path, in place, with the nodes for the other ones below it. */
  predicate Extends(v: Vector, p: Path, c: Cursor, n: Node, buf: nat) {
    |c| < |p| && Leads(Unlinked(v), p[..|c|], c) && Locate(Unlinked(v), p[..|c| + 1]).None? &&
    HasLevel(v, c) && Placed(v, None, c, n, buf) && UnlinkedNode(n) == Chained(p[|c|..])
  }

  lemma GrownHasPath(nodes: seq<ZoneNode>, p: Path)
    requires p != []
    ensures Locate(Grown(nodes, p), p).Some?
  {
  }

  /** A create appends the chain of the missing labels; that is the tree grown along the path. */
  lemma ExtendedIsGrown(v: Vector, p: Path, c: Cursor, n: Node, buf: nat)
    requires Extends(v, p, c, n, buf)
    ensures var r := AppendAt(v, c, n, buf);
            Unlinked(r) == Grown(Unlinked(v), p) && Locate(Unlinked(r), p).Some? &&
            HasNode(r, Locate(Unlinked(r), p).value)
  {
    var r := AppendAt(v, c, n, buf);
    AppendedUnlinked(v, c, n, buf);
    GrownAt(Unlinked(v), p, c);
    GrownHasPath(Unlinked(v), p);
    SameCursors(r, Locate(Unlinked(r), p).value);
  }

  /** The tree with its pointers that a create leaves in force. */
  function Created(v: Vector, p: Path, c: Cursor, n: Node, buf: nat, zone: ZoneData): Vector
    requires Extends(v, p, c, n, buf)
  {
    ExtendedIsGrown(v, p, c, n, buf);
    var r := AppendAt(v, c, n, buf);
    RenewAt(r, Locate(Unlinked(r), p).value, zone)
  }

  /** Without its pointers it is what the section commits. */
  lemma CreatedIsCommitted(v: Vector, p: Path, c: Cursor, n: Node, buf: nat, zone: ZoneData, saves: bool)
    requires Extends(v, p, c, n, buf) && CreateSection(Unlinked(v), p, zone, saves).Ok?
    ensures Unlinked(Created(v, p, c, n, buf, zone)) == CreateSection(Unlinked(v), p, zone, saves).value
  {
    ExtendedIsGrown(v, p, c, n, buf);
    var r := AppendAt(v, c, n, buf);
    hide AppendAt, Grown, Unlinked, Renewed, RenewAt, HasNode, Locate, Extends;
    RenewUnlinked(r, Locate(Unlinked(r), p).value, zone, saves);
  }

  /** Where the nodes of the level were before the create, the new one included. */
  function Moved(level: Vector, buf: nat): seq<Slot> {
    Slots(level) + [Slot(buf, |level.nodes|)]
  }

  lemma CreatedIsStale(v: Vector, p: Path, c: Cursor, n: Node, buf: nat, zone: ZoneData)
    requires Extends(v, p, c, n, buf) && Coherent(v, None)
    ensures var w, r, level := Created(v, p, c, n, buf, zone), AppendAt(v, c, n, buf), VecAt(v, c);
            HasLevel(w, c) && VecAt(w, c).buf == buf && |VecAt(w, c).nodes| == |level.nodes| + 1 &&
            Stale(w, None, c, Moved(level, buf)) && (Coherent(w, None) <==> Coherent(r, None)) &&
            (Separate(r) ==> Separate(w)) && forall b: nat :: Uses(w, b) <==> Uses(r, b)
  {
    ExtendedIsGrown(v, p, c, n, buf);
    var r := AppendAt(v, c, n, buf);
    AppendedIsStale(v, None, c, n, buf);
    hide AppendAt, Unlinked, RenewAt, HasNode, Locate, Stale, Coherent, Separate, Uses, HasLevel, VecAt;
    RenewKeeps(r, Locate(Unlinked(r), p).value, zone, c, Moved(VecAt(v, c), buf));
  }

  /**
   * The tree in force after a create is coherent exactly when no sibling of the first new node had to
   * move with children.
   */
  lemma CoherentAfterCreate(v: Vector, p: Path, c: Cursor, n: Node, buf: nat, zone: ZoneData)
    requires Extends(v, p, c, n, buf) && Coherent(v, None)
    ensures var level := VecAt(v, c);
            Coherent(Created(v, p, c, n, buf, zone), None) <==>
              buf == level.buf || forall k :: 0 <= k < |level.nodes| ==> !HasChildren(level.nodes[k])
  {
    CreatedIsStale(v, p, c, n, buf, zone);
    hide Created, AppendAt, Coherent;
    CoherentAfterAppend(v, c, n, buf);
  }

  /** A create that may use this buffer: no two vectors share one, and the one before is out of use. */
  ghost predicate Allocated(v: Vector, c: Cursor, n: Node, buf: nat)
    requires HasLevel(v, c)
  {
    var r := AppendAt(v, c, n, buf);
    Separate(r) && (buf == VecAt(v, c).buf || !Uses(r, VecAt(v, c).buf))
  }

  /** A level whose nodes lie where they were misleads no one. */
  lemma MisledNowhere(w: Vector, c: Cursor, q: Path)
    requires HasLevel(w, c)
    ensures !Misled(w, c, Slots(VecAt(w, c)), q)
  {
    var d := Locate(Unlinked(w), q);
    hide Locate, Unlinked, HasLevel, VecAt, IEquals;
    if d.Some? && Beneath(c, d.value) {
      OwnLabel(w, c, d.value, q);
      SameLabel(q[|c|]);
    }
  }

  /** Whether the path leads below one of the first n nodes of the level. */
  predicate AmongFirst(nodes: seq<ZoneNode>, c: Cursor, n: nat, q: Path) {
    var d := Locate(nodes, q);
    d.Some? && Beneath(c, d.value) && d.value[|c|] < n
  }

  /** What has moved misleads below the nodes that were in the vector, if that got another buffer. */
  lemma MovedMisleads(w: Vector, c: Cursor, former: Vector, q: Path)
    requires HasLevel(w, c) && |VecAt(w, c).nodes| == |former.nodes| + 1
    requires former.buf == VecAt(w, c).buf || !Uses(w, former.buf)
    ensures var was := Moved(former, VecAt(w, c).buf);
            Traced(w, c, was) &&
            (Misled(w, c, was, q) <==> former.buf != VecAt(w, c).buf && AmongFirst(Unlinked(w), c, |former.nodes|, q))
  {
    var buf := VecAt(w, c).buf;
    var was := Moved(former, buf);
    assert forall k :: 0 <= k < |was| ==> was[k] == if k < |former.nodes| then Slot(former.buf, k) else Slot(buf, k);
    hide Moved, Misled, Locate, Unlinked, Uses, HasLevel, VecAt;
    if buf == former.buf {
      assert was == Slots(VecAt(w, c));
      MisledNowhere(w, c, q);
    } else {
      MisledIsOlder(w, c, was, |former.nodes|, q);
    }
  }

  lemma FoundBehind(w: Vector, c: Cursor, former: Vector, domain: bytes)
    requires HasLevel(w, c) && |VecAt(w, c).nodes| == |former.nodes| + 1 && Separate(w) && Sound(Unlinked(w))
    requires Stale(w, None, c, Moved(former, VecAt(w, c).buf))
    requires former.buf == VecAt(w, c).buf || !Uses(w, former.buf)
    ensures FoundByName(w, domain) <==>
              Hosts(domain) in Entries(Unlinked(w)) && Join(Key(domain)) == domain &&
              !(former.buf != VecAt(w, c).buf && AmongFirst(Unlinked(w), c, |former.nodes|, Hosts(domain)))
  {
    hide *;
    MovedMisleads(w, c, former, Hosts(domain));
    FoundInStale(w, c, Moved(former, VecAt(w, c).buf), domain);
  }

  /**
   * After a committed create, and until the next change, LookupName finds exactly the domains in the tree,
   * but for those below a node of the vector that had to move.
   */
  lemma FoundAfterCreate(v: Vector, host: bytes, c: Cursor, n: Node, buf: nat, zone: ZoneData, saves: bool,
                         domain: bytes)
    requires Coherent(v, None) && Sound(Unlinked(v)) && Validate(host, zone)
    requires Extends(v, Hosts(host), c, n, buf) && Allocated(v, c, n, buf)
    requires CreateSection(Unlinked(v), Hosts(host), zone, saves).Ok?
    ensures var w := Created(v, Hosts(host), c, n, buf, zone);
            Unlinked(w) == CreateSection(Unlinked(v), Hosts(host), zone, saves).value &&
            (FoundByName(w, domain) <==>
               Hosts(domain) in Entries(Unlinked(w)) && Join(Key(domain)) == domain &&
               !(buf != VecAt(v, c).buf && AmongFirst(Unlinked(w), c, |VecAt(v, c).nodes|, Hosts(domain))))
  {
    hide Created, AppendAt, Coherent, Separate, Stale, Sound, Unlinked, CreateSection, Placed, FoundByName, Locate,
         Entries, Hosts, Join, Key, Uses, HasLevel, VecAt, AmongFirst, Validate, Leads, Chained;
    var w := Created(v, Hosts(host), c, n, buf, zone);
    CreatedIsCommitted(v, Hosts(host), c, n, buf, zone, saves);
    CreateRefines(Unlinked(v), host, zone, saves);
    CreatedIsStale(v, Hosts(host), c, n, buf, zone);
    FoundBehind(w, c, VecAt(v, c), domain);
  }

  lemma LeafOpens(nodes: seq<ZoneNode>, u: Path, c: Cursor, kids: seq<ZoneNode>)
    requires c != [] && u != [] && Leads(nodes, u, c) && ValidCursor(nodes, c) && At(nodes, c).children.Absent?
    ensures var e := WithLevel(nodes, c, []);
            ValidCursor(e, c) && Leads(e, u, c) && Level(e, c) == [] == Level(nodes, c) &&
            WithLevel(e, c, kids) == WithLevel(nodes, c, kids)
  {
    Emplaced(nodes, c, kids);
    LocateWith(nodes, u, At(nodes, c).(children := Engaged([])));
  }

  lemma LeadsNowhere(nodes: seq<ZoneNode>, p: Path, c: Cursor)
    requires c != [] && |c| < |p| && Leads(nodes, p[..|c|], c) && ValidCursor(nodes, c) && Level(nodes, c) == []
    ensures Locate(nodes, p[..|c| + 1]).None? && Locate(nodes, p).None?
  {
    hide Locate, ValidCursor, Level;
    LocateSnoc(nodes, p[..|c|], c, p[|c|]);
    assert p[..|c| + 1] == p[..|c|] + [p[|c|]];
    if Locate(nodes, p).Some? { LocatePrefix(nodes, p, |c| + 1); }
  }

  /** A leaf and an empty level lead no further, and a create makes the same of both. */
  lemma LeafGrows(nodes: seq<ZoneNode>, p: Path, c: Cursor)
    requires c != [] && |c| < |p| && Leads(nodes, p[..|c|], c) && ValidCursor(nodes, c) && At(nodes, c).children.Absent?
    ensures var e := WithLevel(nodes, c, []);
            Locate(nodes, p).None? && Locate(e, p).None? && Grown(e, p) == Grown(nodes, p)
  {
    hide *;
    var e, x := WithLevel(nodes, c, []), Chained(p[|c|..]);
    LeafOpens(nodes, p[..|c|], c, [x]);
    LeadsNowhere(nodes, p, c);
    LeadsNowhere(e, p, c);
    GrownAt(nodes, p, c);
    GrownAt(e, p, c);
    assert [] + [x] == [x];
  }

  lemma {:induction false} EmplacedUnlinked(v: Vector, c: Cursor, buf: nat)
    requires HasNode(v, c) && NodeAt(v, c).children.None? && ValidCursor(Unlinked(v), c)
    ensures Unlinked(EmplaceAt(v, c, buf)) == WithLevel(Unlinked(v), c, [])
    decreases |c|
  {
    SameCursors(v, c);
    if |c| > 1 {
      NodeDown(v, c);
      SameCursors(v.nodes[c[0]].children.value, c[1..]);
      EmplacedUnlinked(v.nodes[c[0]].children.value, c[1..], buf);
    }
  }

  /** A leaf below which the path goes on first gets an empty vector; what is then committed is the same. */
  lemma EmplacedIsCommitted(v: Vector, p: Path, c: Cursor, buf: nat, zone: ZoneData, saves: bool)
    requires HasNode(v, c) && NodeAt(v, c).children.None? && |c| < |p| && Leads(Unlinked(v), p[..|c|], c)
    ensures CreateSection(Unlinked(EmplaceAt(v, c, buf)), p, zone, saves) == CreateSection(Unlinked(v), p, zone, saves)
  {
    SameCursors(v, c);
    EmplacedUnlinked(v, c, buf);
    hide Locate, Grown, Unlinked, EmplaceAt, HasNode, NodeAt, Renewed, WithLevel;
    LeafGrows(Unlinked(v), p, c);
  }

  // ---- What a delete commits ----

  lemma DeletedHasNode(v: Vector, c: Cursor)
    requires HasNode(v, c)
    ensures HasNode(CountAt(v, c), c)
  {
    assert HasLevel(v, []);
    CountKeeps(v, c, [], []);
  }

  /** The tree with its pointers that a delete leaves in force: counted, and then without the node. */
  function Deleted(v: Vector, c: Cursor): Vector
    requires HasNode(v, c)
  {
    DeletedHasNode(v, c);
    EraseAt(CountAt(v, c), c)
  }

  /**
   * After a committed delete, and until the next change, LookupName finds exactly the domains in the tree
   * that do not lie below a sibling that moved up.
   */
  lemma FoundAfterDelete(v: Vector, p: Path, saves: bool, domain: bytes)
    requires Coherent(v, None) && Separate(v) && Sound(Unlinked(v)) && DeleteSection(Unlinked(v), p, saves).Ok?
    ensures SearchFrom(Unlinked(v), p).Some?
    ensures var c := SearchFrom(Unlinked(v), p).value;
            |c| > 1 && HasNode(v, c) &&
            var w, up := Deleted(v, c), c[..|c| - 1];
            Unlinked(w) == DeleteSection(Unlinked(v), p, saves).value && ValidCursor(Unlinked(w), up) &&
            (FoundByName(w, domain) <==>
               Hosts(domain) in Entries(Unlinked(w)) && Join(Key(domain)) == domain &&
               !Adopted(Unlinked(w), up, c[|c| - 1], Hosts(domain)))
  {
    var c := SearchFrom(Unlinked(v), p).value;
    SameCursors(v, c);
    CountUnlinked(v, c);
    SoundBump(Unlinked(v), c);
    assert HasLevel(v, []);
    hide CountAt, Coherent, Separate, Sound, Unlinked, FoundByName, Adopted, Entries, Stale, HasLevel, VecAt, HasNode,
         BumpAt, Erased, EraseAt, SearchFrom, HolderAt, Join, Key, Hosts;
    CountKeeps(v, c, [], []);
    FoundAfterErase(CountAt(v, c), c, domain);
  }
}
