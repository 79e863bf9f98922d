/**
 * What the name server reads through the pointers to parents, on trees where some of them are stale: the
 * zone that has the SOA record, and the domain name of a zone.
 */
module ParentWalks {
  import opened Bytes
  import opened DomainNames
  import opened Zones
  import opened ZoneTrees
  import opened ZoneMaps
  import opened ZoneSections
  import opened ParentPointers
  import opened PointersInForce

  // ---- The loop of GetSoaZone ----

  /** The nodes that a loop over the parents comes to from a node, one after the other. */
  ghost predicate Climbs(v: Vector, n: Node, ns: seq<Node>)
    decreases |ns|
  {
    ns == [] || (n.parent.Some? && Holds(v, n.parent.value, ns[0]) && Climbs(v, ns[0], ns[1..]))
  }

  /** The nodes come to have no SOA record but for the last one, where the loop ends; or it ends at a root without. */
  predicate EndsAt(ns: seq<Node>, z: Option<Node>)
    requires ns != []
  {
    var last := ns[|ns| - 1];
    (forall k :: 0 <= k < |ns| - 1 ==> ns[k].zone.soa.None?) &&
    match z
    case Some(m) => m == last && last.zone.soa.Some?
    case None => last.zone.soa.None? && last.parent.None?
  }

  /** GetSoaZone from the node comes to an end with this node, or with none. */
  ghost predicate ReadsSoa(v: Vector, n: Node, z: Option<Node>) {
    exists ns: seq<Node> :: Climbs(v, n, ns) && EndsAt([n] + ns, z)
  }

  lemma EndsTail(n: Node, ns: seq<Node>, z: Option<Node>)
    requires ns != []
    ensures EndsAt([n] + ns, z) <==> n.zone.soa.None? && EndsAt(ns, z)
  {
    var all := [n] + ns;
    assert forall k :: 0 <= k < |ns| ==> all[k + 1] == ns[k];
    if EndsAt(all, z) {
      assert all[0].zone.soa.None?;
      forall k | 0 <= k < |ns| - 1
        ensures ns[k].zone.soa.None?
      {
        assert all[k + 1].zone.soa.None?;
      }
    }
  }

  /** One round of the loop. */
  lemma ReadsStep(v: Vector, n: Node, z: Option<Node>)
    ensures ReadsSoa(v, n, z) <==>
              if n.zone.soa.Some? then z == Some(n)
              else if n.parent.None? then z == None
              else exists m: Node :: Holds(v, n.parent.value, m) && ReadsSoa(v, m, z)
  {
    if ReadsSoa(v, n, z) {
      var ns: seq<Node> :| Climbs(v, n, ns) && EndsAt([n] + ns, z);
      if ns != [] {
        assert ([n] + ns)[0] == n;
        EndsTail(n, ns, z);
        assert [ns[0]] + ns[1..] == ns;
        assert ReadsSoa(v, ns[0], z);
      }
    }
    if (n.zone.soa.Some? && z == Some(n)) || (n.zone.soa.None? && n.parent.None? && z == None) {
      assert [n] + [] == [n];
      assert Climbs(v, n, []) && EndsAt([n] + [], z);
    }
    if n.zone.soa.None? && n.parent.Some? {
      forall m | Holds(v, n.parent.value, m) && ReadsSoa(v, m, z)
        ensures ReadsSoa(v, n, z)
      {
        var ns: seq<Node> :| Climbs(v, m, ns) && EndsAt([m] + ns, z);
        var all := [m] + ns;
        assert all[1..] == ns;
        EndsTail(n, all, z);
        assert Climbs(v, n, all);
      }
    }
  }

  // ---- Where the pointers lead ----

  /** The nodes of one level have moved and left their children behind; every address in use is that of one node. */
  ghost predicate LeftBehind(v: Vector, c: Cursor, was: seq<Slot>) {
    HasLevel(v, c) && Stale(v, None, c, was) && Separate(v) && Traced(v, c, was)
  }

  /** The index of the node that now lies at an address of the level. */
  function IndexAt(v: Vector, c: Cursor, s: Slot): Option<nat>
    requires HasLevel(v, c)
  {
    if s.buf == VecAt(v, c).buf && s.index < |VecAt(v, c).nodes| then Some(s.index) else None
  }

  /** The node that the pointer of a node leads to. */
  function Up(v: Vector, c: Cursor, was: seq<Slot>, d: Cursor): (r: Option<Cursor>)
    requires HasLevel(v, c) && d != [] && (Beneath(c, d) ==> d[|c|] < |was|)
    ensures r.Some? ==> |r.value| == |d| - 1
  {
    if |d| == 1 then None
    else if Beneath(c, d) && |d| == |c| + 2 then
      var i := IndexAt(v, c, was[d[|c|]]);
      if i.Some? then Some(c + [i.value]) else None
    else Some(d[..|d| - 1])
  }

  /** What lies at an address of the level, or of a buffer no longer in use. */
  lemma HeldFrom(v: Vector, c: Cursor, s: Slot, n: Node)
    requires Separate(v) && HasLevel(v, c) && (s.buf == VecAt(v, c).buf || !Uses(v, s.buf))
    ensures var i := IndexAt(v, c, s);
            (i.Some? ==> HasNode(v, c + [i.value])) &&
            (Holds(v, s, n) <==> i.Some? && n == NodeAt(v, c + [i.value]))
  {
    var i := IndexAt(v, c, s);
    if i.Some? { LevelNode(v, c, i.value); }
    if s.buf == VecAt(v, c).buf {
      HeldAtLevel(v, c, s.index, n);
    } else if Holds(v, s, n) {
      HeldIsUsed(v, s, n);
    }
  }

  lemma UpHolds(v: Vector, c: Cursor, was: seq<Slot>, d: Cursor, n: Node)
    requires LeftBehind(v, c, was) && HasNode(v, d) && |d| > 1 && (Beneath(c, d) ==> d[|c|] < |was|)
    requires NodeAt(v, d).parent.Some?
    ensures Up(v, c, was, d).Some? ==> HasNode(v, Up(v, c, was, d).value)
    ensures Holds(v, NodeAt(v, d).parent.value, n) <==>
              Up(v, c, was, d).Some? && n == NodeAt(v, Up(v, c, was, d).value)
  {
    StaleParent(v, None, c, was, d);
    var s := NodeAt(v, d).parent.value;
    if Beneath(c, d) && |d| == |c| + 2 {
      hide Stale, Separate, HasLevel, HasNode, NodeAt, Here, Holds;
      HeldFrom(v, c, was[d[|c|]], n);
    } else {
      var e := d[..|d| - 1];
      HeldAtLevel(v, e[..|e| - 1], e[|e| - 1], n);
    }
  }

  lemma UpIs(v: Vector, c: Cursor, was: seq<Slot>, d: Cursor)
    requires LeftBehind(v, c, was) && HasNode(v, d)
    ensures Beneath(c, d) ==> d[|c|] < |was|
    ensures NodeAt(v, d).parent.None? <==> |d| == 1
    ensures Up(v, c, was, d).Some? ==> HasNode(v, Up(v, c, was, d).value)
    ensures |d| > 1 ==>
              forall n: Node :: Holds(v, NodeAt(v, d).parent.value, n) <==>
                                Up(v, c, was, d).Some? && n == NodeAt(v, Up(v, c, was, d).value)
  {
    StaleParent(v, None, c, was, d);
    if |d| > 1 {
      var s := NodeAt(v, d).parent.value;
      forall n: Node
        ensures Holds(v, s, n) <==> Up(v, c, was, d).Some? && n == NodeAt(v, Up(v, c, was, d).value)
      {
        UpHolds(v, c, was, d, n);
      }
      UpHolds(v, c, was, d, NodeAt(v, d));
    }
  }

  // ---- The zone with the SOA record ----

  /** How the loop ends: at a node, at a root without the record, or at an address where nothing lies. */
  datatype Outcome = Reached(c: Cursor) | Nowhere | Lost

  ghost function SoaAlong(v: Vector, c: Cursor, was: seq<Slot>, d: Cursor): Outcome
    requires LeftBehind(v, c, was) && HasNode(v, d)
    decreases |d|
  {
    UpIs(v, c, was, d);
    var up := Up(v, c, was, d);
    if NodeAt(v, d).zone.soa.Some? then Reached(d)
    else if |d| == 1 then Nowhere
    else if up.None? then Lost
    else SoaAlong(v, c, was, up.value)
  }

  /** The loop in memory ends as the walk on the tree does. */
  lemma {:induction false} SoaIsRead(v: Vector, c: Cursor, was: seq<Slot>, d: Cursor, z: Option<Node>)
    requires LeftBehind(v, c, was) && HasNode(v, d)
    ensures var o := SoaAlong(v, c, was, d);
            (o.Reached? ==> HasNode(v, o.c)) &&
            (ReadsSoa(v, NodeAt(v, d), z) <==>
               (o.Reached? && z == Some(NodeAt(v, o.c))) || (o.Nowhere? && z == None))
    decreases |d|
  {
    UpIs(v, c, was, d);
    var n, up := NodeAt(v, d), Up(v, c, was, d);
    ReadsStep(v, n, z);
    hide LeftBehind, ReadsSoa, Holds, HasNode, NodeAt;
    if n.zone.soa.None? && |d| > 1 && up.Some? {
      SoaIsRead(v, c, was, up.value, z);
      assert Holds(v, n.parent.value, NodeAt(v, up.value));
    }
  }

  lemma NodeAbove(v: Vector, d: Cursor)
    requires HasNode(v, d) && |d| > 1
    ensures HasNode(v, d[..|d| - 1])
  {
    LevelAbove(v, d[..|d| - 1]);
  }

  /** Where the loop ends with right pointers: at the nearest node from here up that has the record. */
  function SoaAbove(v: Vector, d: Cursor): Outcome
    requires HasNode(v, d)
    decreases |d|
  {
    if NodeAt(v, d).zone.soa.Some? then Reached(d)
    else if |d| == 1 then Nowhere
    else
      NodeAbove(v, d);
      SoaAbove(v, d[..|d| - 1])
  }

  /** That is the zone that the handle on the node names. */
  lemma {:induction false} SoaAboveIs(v: Vector, d: Cursor)
    requires HasNode(v, d) && ValidCursor(Unlinked(v), d)
    ensures var o := SoaAbove(v, d);
            (o.Reached? ==> ValidCursor(Unlinked(v), o.c)) &&
            ZoneAt(Unlinked(v), d).SoaZone() == if o.Reached? then Some(ZoneAt(Unlinked(v), o.c)) else None
    decreases |d|
  {
    SameCursors(v, d);
    if NodeAt(v, d).zone.soa.None? && |d| > 1 {
      NodeAbove(v, d);
      SameCursors(v, d[..|d| - 1]);
      hide HasNode, NodeAt, Unlinked, UnlinkedNode, ValidCursor, ZoneTrees.At;
      SoaAboveIs(v, d[..|d| - 1]);
    }
  }

  /** Some zone from the node up, but below the level, has the record. */
  predicate SoaBelow(v: Vector, n: nat, d: Cursor)
    requires HasNode(v, d)
    decreases |d|
  {
    |d| > n && (NodeAt(v, d).zone.soa.Some? || (|d| > 1 && (NodeAbove(v, d); SoaBelow(v, n, d[..|d| - 1]))))
  }

  /** The nodes with and without pointers above a node that has not been left behind. */
  lemma {:induction false} SoaUnmoved(v: Vector, c: Cursor, was: seq<Slot>, d: Cursor)
    requires LeftBehind(v, c, was) && HasNode(v, d) && !Beneath(c, d)
    ensures SoaAlong(v, c, was, d) == SoaAbove(v, d)
    decreases |d|
  {
    hide LeftBehind, HasNode, NodeAt;
    if |d| > 1 {
      NodeAbove(v, d);
      NotBeneath(c, d);
      SoaUnmoved(v, c, was, d[..|d| - 1]);
    }
  }

  lemma SoaAboveLength(v: Vector, d: Cursor)
    requires HasNode(v, d)
    ensures SoaAbove(v, d).Reached? ==> |SoaAbove(v, d).c| <= |d| && SoaAbove(v, d).c == d[..|SoaAbove(v, d).c|]
    ensures !SoaAbove(v, d).Lost?
    decreases |d|
  {
    if |d| > 1 {
      NodeAbove(v, d);
      SoaAboveLength(v, d[..|d| - 1]);
    }
  }

  /** A node of the level, and the one that lies where it was: neither matters if none of them has the record. */
  ghost predicate SameAbove(v: Vector, c: Cursor, k: nat, i: Option<nat>)
    requires HasLevel(v, c) && k < |VecAt(v, c).nodes| && (i.Some? ==> i.value < |VecAt(v, c).nodes|)
  {
    i.Some? && (i.value == k || (VecAt(v, c).nodes[k].zone.soa.None? && VecAt(v, c).nodes[i.value].zone.soa.None?))
  }

  lemma SiblingsAbove(v: Vector, c: Cursor, k: nat, i: nat)
    requires HasLevel(v, c) && k < |VecAt(v, c).nodes| && i < |VecAt(v, c).nodes|
    ensures HasNode(v, c + [k]) && HasNode(v, c + [i])
    ensures SoaAbove(v, c + [k]) == SoaAbove(v, c + [i]) <==> SameAbove(v, c, k, Some(i))
  {
    LevelNode(v, c, k);
    LevelNode(v, c, i);
    var x, y := c + [k], c + [i];
    assert x[..|c|] == c == y[..|c|] && x[|c|] == k && y[|c|] == i;
    SoaAboveLength(v, x);
    SoaAboveLength(v, y);
    if c != [] {
      LevelAbove(v, c);
      SoaAboveLength(v, c);
    }
  }

  /** One step of either walk. */
  lemma SoaStep(v: Vector, c: Cursor, was: seq<Slot>, d: Cursor)
    requires LeftBehind(v, c, was) && HasNode(v, d) && |d| > 1 && NodeAt(v, d).zone.soa.None?
    requires Beneath(c, d) ==> d[|c|] < |was|
    ensures var up := Up(v, c, was, d);
            if up.None? then SoaAlong(v, c, was, d) == Lost
            else HasNode(v, up.value) && SoaAlong(v, c, was, d) == SoaAlong(v, c, was, up.value)
    ensures HasNode(v, d[..|d| - 1]) && SoaAbove(v, d) == SoaAbove(v, d[..|d| - 1])
    ensures !SoaBelow(v, |d| - 1, d)
  {
    UpIs(v, c, was, d);
    NodeAbove(v, d);
    hide LeftBehind, HasNode, NodeAt, Up;
  }

  /** The pointer of a child of the level left behind. */
  lemma UpOfChild(v: Vector, c: Cursor, was: seq<Slot>, d: Cursor)
    requires HasLevel(v, c) && Beneath(c, d) && |d| == |c| + 2 && d[|c|] < |was|
    ensures var i := IndexAt(v, c, was[d[|c|]]);
            Up(v, c, was, d) == (if i.Some? then Some(c + [i.value]) else None) && c + [d[|c|]] == d[..|d| - 1]
  {
    assert d[..|d| - 1] == c + [d[|c|]];
  }

  lemma SoaOfChild(v: Vector, c: Cursor, was: seq<Slot>, d: Cursor)
    requires LeftBehind(v, c, was) && HasNode(v, d) && Beneath(c, d) && |d| == |c| + 2
    requires d[|c|] < |was| == |VecAt(v, c).nodes| && NodeAt(v, d).zone.soa.None?
    ensures SoaAlong(v, c, was, d) == SoaAbove(v, d) <==> SameAbove(v, c, d[|c|], IndexAt(v, c, was[d[|c|]]))
    ensures !SoaBelow(v, |c| + 1, d)
  {
    var k, i := d[|c|], IndexAt(v, c, was[d[|c|]]);
    UpOfChild(v, c, was, d);
    hide *;
    SoaStep(v, c, was, d);
    assert d[..|d| - 1] == c + [k];
    if i.Some? {
      SiblingsAbove(v, c, k, i.value);
      SoaUnmoved(v, c, was, c + [i.value]);
    } else {
      SoaAboveLength(v, d);
    }
  }

  /**
   * The loop ends where it should if and only if the node is not below one that has moved, or a zone below
   * that has the record, or what lies in the old place neither has it nor hides it.
   */
  lemma {:induction false} SoaIsRight(v: Vector, c: Cursor, was: seq<Slot>, d: Cursor)
    requires LeftBehind(v, c, was) && HasNode(v, d)
    ensures Beneath(c, d) ==> d[|c|] < |was| == |VecAt(v, c).nodes|
    ensures SoaAlong(v, c, was, d) == SoaAbove(v, d) <==>
              (Beneath(c, d) && !SoaBelow(v, |c| + 1, d) ==> SameAbove(v, c, d[|c|], IndexAt(v, c, was[d[|c|]])))
    decreases |d|
  {
    UpIs(v, c, was, d);
    StaleLevel(v, None, c, was);
    if !Beneath(c, d) {
      SoaUnmoved(v, c, was, d);
    } else if NodeAt(v, d).zone.soa.None? {
      var up := d[..|d| - 1];
      NodeAbove(v, d);
      if |d| == |c| + 2 {
        SoaOfChild(v, c, was, d);
      } else {
        assert Beneath(c, up) && up[|c|] == d[|c|];
        hide LeftBehind, HasNode, NodeAt, HasLevel, VecAt, SameAbove;
        SoaIsRight(v, c, was, up);
      }
    }
  }

  // ---- The domain name ----

  /** The loop of GetDomainName reads this name. */
  ghost predicate ReadsName(v: Vector, n: Node, labels: seq<bytes>) {
    labels != [] && labels[0] == n.zone.name && Names(v, n.parent, labels[1..])
  }

  /** It reads the domain of the node if and only if where its parent on the level was lies a node of the same label. */
  lemma NameIsRight(v: Vector, c: Cursor, was: seq<Slot>, d: Cursor)
    requires LeftBehind(v, c, was) && HasNode(v, d)
    ensures Beneath(c, d) ==> d[|c|] < |was|
    ensures ReadsName(v, NodeAt(v, d), Reverse(Labels(v, d))) <==>
              (Beneath(c, d) ==> LabelAt(v, c, was[d[|c|]]) == Some(Labels(v, d)[|c|]))
  {
    assert d != [];
    hide Stale, Separate, HasLevel, HasNode, NodeAt, Labels, LabelAt, Names, Traced;
    var name, all := NodeAt(v, d).zone.name, Reverse(Labels(v, d));
    FirstRead(v, d);
    NamesAreSpelled(v, c, was, d, all[1..]);
    assert [name] + all[1..] == all;
    if Beneath(c, d) && LabelAt(v, c, was[d[|c|]]).Some? {
      var l := LabelAt(v, c, was[d[|c|]]).value;
      ReverseTells(Labels(v, d), Labels(v, d)[|c| := l]);
    }
  }

  // ---- The trees in force ----

  lemma DeletedIsLeft(v: Vector, c: Cursor)
    requires Coherent(v, None) && Separate(v) && HasNode(v, c) && |c| > 1
    ensures var up, w := c[..|c| - 1], Deleted(v, c);
            HasLevel(v, up) && c[|c| - 1] < |VecAt(v, up).nodes| &&
            LeftBehind(w, up, LessOne(Slots(VecAt(v, up)), c[|c| - 1])) &&
            VecAt(w, up).buf == VecAt(v, up).buf && |VecAt(w, up).nodes| == |VecAt(v, up).nodes| - 1
  {
    var up := c[..|c| - 1];
    hide CountAt, Coherent, Separate, EraseAt, Stale, HasLevel, VecAt;
    CountKeeps(v, c, up, []);
    ErasedIsStale(CountAt(v, c), None, c);
    ErasedIsSeparate(CountAt(v, c), c);
    assert Slots(VecAt(CountAt(v, c), up)) == Slots(VecAt(v, up));
  }

  /**
   * After a committed delete the SOA record is looked for where it should be, but below a sibling that moved
   * up: there only if a zone below has it, or neither that sibling nor the next one has.
   */
  lemma SoaAfterDelete(v: Vector, c: Cursor, d: Cursor)
    requires Coherent(v, None) && Separate(v) && HasNode(v, c) && |c| > 1 && HasNode(Deleted(v, c), d)
    ensures var up, i, w := c[..|c| - 1], c[|c| - 1], Deleted(v, c);
            HasLevel(v, up) && i < |VecAt(v, up).nodes| && HasLevel(w, up) &&
            (var was, level := LessOne(Slots(VecAt(v, up)), i), VecAt(w, up).nodes;
             LeftBehind(w, up, was) &&
             (SoaAlong(w, up, was, d) == SoaAbove(w, d) <==>
                (Beneath(up, d) && d[|up|] >= i && !SoaBelow(w, |up| + 1, d) ==>
                   d[|up|] + 1 < |level| && level[d[|up|]].zone.soa.None? && level[d[|up|] + 1].zone.soa.None?)))
  {
    var up, w := c[..|c| - 1], Deleted(v, c);
    DeletedIsLeft(v, c);
    hide LeftBehind, HasNode, HasLevel, VecAt, Coherent, Separate, Deleted, SoaAlong, SoaAbove, SoaBelow;
    SoaIsRight(w, up, LessOne(Slots(VecAt(v, up)), c[|c| - 1]), d);
  }

  lemma CreatedIsLeft(v: Vector, p: Path, c: Cursor, n: Node, buf: nat, zone: ZoneData)
    requires Coherent(v, None) && Extends(v, p, c, n, buf) && Allocated(v, c, n, buf)
    ensures var w := Created(v, p, c, n, buf, zone);
            HasLevel(w, c) && VecAt(w, c).buf == buf && |VecAt(w, c).nodes| == |VecAt(v, c).nodes| + 1 &&
            LeftBehind(w, c, Moved(VecAt(v, c), buf))
  {
    CreatedIsStale(v, p, c, n, buf, zone);
    hide Created, Coherent, Separate, Stale, HasLevel, VecAt, AppendAt, Uses, Moved, Misled, Extends;
    MovedMisleads(Created(v, p, c, n, buf, zone), c, VecAt(v, c), []);
  }

  /**
   * After a committed create that moved a vector the SOA record is looked for where it should be, but below
   * the nodes that were in it: there only if a zone below has it.
   */
  lemma SoaAfterCreate(v: Vector, p: Path, c: Cursor, n: Node, buf: nat, zone: ZoneData, d: Cursor)
    requires Coherent(v, None) && Extends(v, p, c, n, buf) && Allocated(v, c, n, buf) && buf != VecAt(v, c).buf
    requires HasNode(Created(v, p, c, n, buf, zone), d)
    ensures var w, was := Created(v, p, c, n, buf, zone), Moved(VecAt(v, c), buf);
            LeftBehind(w, c, was) &&
            (SoaAlong(w, c, was, d) == SoaAbove(w, d) <==>
               (Beneath(c, d) && d[|c|] < |VecAt(v, c).nodes| ==> SoaBelow(w, |c| + 1, d)))
  {
    var w, was := Created(v, p, c, n, buf, zone), Moved(VecAt(v, c), buf);
    CreatedIsLeft(v, p, c, n, buf, zone);
    assert forall k :: 0 <= k < |was| ==>
        was[k] == if k < |VecAt(v, c).nodes| then Slot(VecAt(v, c).buf, k) else Slot(buf, k);
    hide LeftBehind, HasNode, HasLevel, VecAt, Coherent, Created, Extends, Allocated, SoaAlong, SoaAbove, SoaBelow,
         Moved;
    SoaIsRight(w, c, was, d);
  }
}
