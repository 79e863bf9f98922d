/**
 * The tree of zones as a map from label paths, top label first, to zone data. Nodes nest by value, as
 * vectors of nodes do; a pointer into the tree is a cursor, the list of positions that leads to the node.
 */
module ZoneTrees {
  import opened Bytes
  import opened DomainNames
  import opened Zones

  /** An optional vector of nodes. */
  datatype Children = Absent | Engaged(nodes: seq<ZoneNode>)

  datatype ZoneNode = ZoneNode(zone: ZoneData, children: Children)
  {
    function Kids(): seq<ZoneNode> {
      if children.Engaged? then children.nodes else []
    }
  }

  type Path = seq<bytes>
  type Cursor = seq<nat>

  /** The last node of a level with this label; a loop without break finds it. */
  function FindLast(nodes: seq<ZoneNode>, l: bytes): (r: Option<nat>)
    ensures r.Some? ==> r.value < |nodes| && nodes[r.value].zone.name == l
    ensures r.Some? ==> forall j :: r.value < j < |nodes| ==> nodes[j].zone.name != l
    ensures r.None? ==> forall j :: 0 <= j < |nodes| ==> nodes[j].zone.name != l
  {
    if nodes == [] then None
    else if nodes[|nodes| - 1].zone.name == l then Some(|nodes| - 1)
    else FindLast(nodes[..|nodes| - 1], l)
  }

  predicate ValidCursor(nodes: seq<ZoneNode>, c: Cursor)
    decreases |c|
  {
    c != [] && c[0] < |nodes| && (|c| == 1 || ValidCursor(nodes[c[0]].Kids(), c[1..]))
  }

  function At(nodes: seq<ZoneNode>, c: Cursor): ZoneNode
    requires ValidCursor(nodes, c)
    decreases |c|
  {
    if |c| == 1 then nodes[c[0]] else At(nodes[c[0]].Kids(), c[1..])
  }

  /** The tree with the node at the cursor replaced. */
  function With(nodes: seq<ZoneNode>, c: Cursor, n: ZoneNode): (r: seq<ZoneNode>)
    requires ValidCursor(nodes, c)
    ensures |r| == |nodes|
    decreases |c|
  {
    if |c| == 1 then nodes[c[0] := n]
    else nodes[c[0] := nodes[c[0]].(children := Engaged(With(nodes[c[0]].Kids(), c[1..], n)))]
  }

  function Locate(nodes: seq<ZoneNode>, path: Path): (r: Option<Cursor>)
    ensures r.Some? ==> ValidCursor(nodes, r.value) && |r.value| == |path|
    decreases |path|
  {
    if path == [] then None
    else
      match FindLast(nodes, path[0])
      case None => None
      case Some(i) =>
        if |path| == 1 then Some([i])
        else
          match Locate(nodes[i].Kids(), path[1..])
          case None => None
          case Some(c) => Some([i] + c)
  }

  function Under(c: Cursor, o: Option<Cursor>): Option<Cursor> {
    if o.Some? then Some(c + o.value) else None
  }

  lemma LocateStep(nodes: seq<ZoneNode>, p: Path)
    requires p != []
    ensures var i := FindLast(nodes, p[0]);
            Locate(nodes, p) == if i.None? then None
                                else if |p| == 1 then Some([i.value])
                                else Under([i.value], Locate(nodes[i.value].Kids(), p[1..]))
  {
  }

  /** The cursor of a path; no path leads to the level of the roots. */
  predicate Leads(nodes: seq<ZoneNode>, p: Path, c: Cursor) {
    if p == [] then c == [] else Locate(nodes, p) == Some(c)
  }

  /** The tail of a cursor leads on from the node at its head. */
  lemma LocateTail(nodes: seq<ZoneNode>, p: Path, c: Cursor)
    requires p != [] && Locate(nodes, p) == Some(c)
    ensures FindLast(nodes, p[0]) == Some(c[0]) && c == [c[0]] + c[1..]
    ensures Leads(nodes[c[0]].Kids(), p[1..], c[1..])
  {
    LocateStep(nodes, p);
  }

  /** The map that a tree stands for. */
  function Get(nodes: seq<ZoneNode>, path: Path): Option<ZoneData> {
    match Locate(nodes, path)
    case None => None
    case Some(c) => Some(At(nodes, c).zone)
  }

  /** The map below the entry at the head of the path. */
  function Below(nodes: seq<ZoneNode>, path: Path): Option<ZoneData>
    requires path != []
  {
    match FindLast(nodes, path[0])
    case None => None
    case Some(i) => if |path| == 1 then Some(nodes[i].zone) else Get(nodes[i].Kids(), path[1..])
  }

  lemma GetIsBelow(nodes: seq<ZoneNode>, path: Path)
    requires path != []
    ensures Get(nodes, path) == Below(nodes, path)
  {
    var i := FindLast(nodes, path[0]);
    if i.Some? && |path| > 1 {
      var c := Locate(nodes[i.value].Kids(), path[1..]);
      if c.Some? {
        assert ([i.value] + c.value)[1..] == c.value;
      }
    }
  }

  /** A node at the end of a level is the last match for its label. */
  lemma FindAppended(kids: seq<ZoneNode>, n: ZoneNode, l: bytes)
    ensures FindLast(kids + [n], l) == if l == n.zone.name then Some(|kids|) else FindLast(kids, l)
  {
    assert (kids + [n])[..|kids|] == kids;
  }

  /** Levels with the same labels have the same last match. */
  lemma SameMatch(a: seq<ZoneNode>, b: seq<ZoneNode>, l: bytes)
    requires |a| == |b| && forall j :: 0 <= j < |a| ==> a[j].zone.name == b[j].zone.name
    ensures FindLast(a, l) == FindLast(b, l)
  {
  }

  lemma PrefixTail(p: Path, q: Path)
    requires p != [] && q != []
    ensures p <= q <==> p[0] == q[0] && p[1..] <= q[1..]
    ensures q == p <==> p[0] == q[0] && q[1..] == p[1..]
    ensures p <= q ==> q[1..][|p[1..]|..] == q[|p|..]
    ensures |p| == 1 ==> p[1..] == []
  {
    assert p == [p[0]] + p[1..] && q == [q[0]] + q[1..];
  }

  /** A replacement changes one node of the first level, at most below. */
  lemma WithFirst(nodes: seq<ZoneNode>, c: Cursor, n: ZoneNode)
    requires ValidCursor(nodes, c)
    ensures var r, i := With(nodes, c, n), c[0];
            r[i] == (if |c| == 1 then n else nodes[i].(children := Engaged(With(nodes[i].Kids(), c[1..], n)))) &&
            (|c| > 1 ==> At(nodes, c) == At(nodes[i].Kids(), c[1..])) &&
            forall j :: 0 <= j < |r| && j != i ==> r[j] == nodes[j]
  {
  }

  /**
   * Replacing the node that a path leads to changes the map at that path and below it only: there the
   * new node decides.
   */
  lemma {:induction false} GetWith(nodes: seq<ZoneNode>, p: Path, n: ZoneNode, q: Path)
    requires Locate(nodes, p).Some? && n.zone.name == At(nodes, Locate(nodes, p).value).zone.name && q != []
    ensures var r := With(nodes, Locate(nodes, p).value, n);
            Get(r, q) == if q == p then Some(n.zone)
                         else if p <= q then Get(n.Kids(), q[|p|..])
                         else Get(nodes, q)
    decreases |p|
  {
    var c := Locate(nodes, p).value;
    var r := With(nodes, c, n);
    var i := c[0];
    LocateTail(nodes, p, c);
    WithFirst(nodes, c, n);
    assert r[i].zone.name == nodes[i].zone.name;
    hide FindLast, Locate, Get, ValidCursor, At, With;
    SameMatch(nodes, r, q[0]);
    GetIsBelow(nodes, q);
    GetIsBelow(r, q);
    PrefixTail(p, q);
    if q[0] == p[0] && |p| > 1 && |q| > 1 {
      GetWith(nodes[i].Kids(), p[1..], n, q[1..]);
    }
  }

  // ---- Cursors ----

  /** The level a cursor opens: the roots for the empty cursor, else the children of the node it leads to. */
  function Level(nodes: seq<ZoneNode>, c: Cursor): seq<ZoneNode>
    requires c == [] || ValidCursor(nodes, c)
  {
    if c == [] then nodes else At(nodes, c).Kids()
  }

  lemma {:induction false} AtSnoc(nodes: seq<ZoneNode>, c: Cursor, i: nat)
    requires c == [] || ValidCursor(nodes, c)
    requires i < |Level(nodes, c)|
    ensures ValidCursor(nodes, c + [i]) && At(nodes, c + [i]) == Level(nodes, c)[i]
    decreases |c|
  {
    if c != [] {
      assert (c + [i])[1..] == c[1..] + [i];
      if |c| > 1 { AtSnoc(nodes[c[0]].Kids(), c[1..], i); }
    }
  }

  lemma LevelTail(nodes: seq<ZoneNode>, c: Cursor)
    requires ValidCursor(nodes, c)
    ensures Level(nodes, c) == At(nodes, c).Kids() && (|c| == 1 || ValidCursor(nodes[c[0]].Kids(), c[1..]))
    ensures Level(nodes, c) == if |c| == 1 then nodes[c[0]].Kids() else Level(nodes[c[0]].Kids(), c[1..])
  {
  }

  /** One more label leads one level further down, or nowhere. */
  lemma {:induction false} LocateSnoc(nodes: seq<ZoneNode>, p: Path, c: Cursor, h: bytes)
    requires Leads(nodes, p, c)
    ensures var i := FindLast(Level(nodes, c), h);
            Locate(nodes, p + [h]) == if i.Some? then Some(c + [i.value]) else None
    decreases |p|
  {
    var q := p + [h];
    LocateStep(nodes, q);
    if p == [] {
      assert q == [h];
      var j := FindLast(nodes, h);
      if j.Some? { assert [] + [j.value] == [j.value]; }
    } else {
      LocateTail(nodes, p, c);
      LevelTail(nodes, c);
      hide Locate, FindLast, ValidCursor, At, Level;
      var kids, d := nodes[c[0]].Kids(), c[1..];
      assert q[0] == p[0] && q[1..] == p[1..] + [h];
      assert d == [] ==> Level(kids, d) == kids by { LevelOfRoots(kids); }
      LocateSnoc(kids, p[1..], d, h);
      var j := FindLast(Level(nodes, c), h);
      if j.Some? { assert c + [j.value] == [c[0]] + (d + [j.value]); }
    }
  }

  lemma LevelOfRoots(nodes: seq<ZoneNode>)
    ensures Level(nodes, []) == nodes
  {
  }

  lemma FrontTail<T>(s: seq<T>, k: nat)
    requires 0 < k <= |s|
    ensures s[..k][0] == s[0] && s[..k][1..] == s[1..][..k - 1] && s[..k] == [s[0]] + s[1..][..k - 1]
  {
  }

  /** The ancestors of a node are the prefixes of its cursor. */
  lemma {:induction false} LocatePrefix(nodes: seq<ZoneNode>, p: Path, k: nat)
    requires 0 < k <= |p| && Locate(nodes, p).Some?
    ensures Locate(nodes, p[..k]) == Some(Locate(nodes, p).value[..k])
    decreases |p|
  {
    var c := Locate(nodes, p).value;
    LocateTail(nodes, p, c);
    LocateStep(nodes, p[..k]);
    hide Locate, FindLast, ValidCursor;
    FrontTail(p, k);
    FrontTail(c, k);
    if k == 1 {
      assert c[..1] == [c[0]];
    } else {
      LocatePrefix(nodes[c[0]].Kids(), p[1..], k - 1);
    }
  }

  /** What lies below a node is the map of its children. */
  lemma {:induction false} GetUnder(nodes: seq<ZoneNode>, p: Path, c: Cursor, q: Path)
    requires Leads(nodes, p, c) && p < q
    ensures Get(nodes, q) == Get(Level(nodes, c), q[|p|..])
    decreases |p|
  {
    if p == [] {
      assert q[0..] == q;
    } else {
      LocateTail(nodes, p, c);
      GetIsBelow(nodes, q);
      var kids := nodes[c[0]].Kids();
      assert Get(nodes, q) == Get(kids, q[1..]);
      assert Level(nodes, c) == Level(kids, c[1..]);
      assert q[1..][|p[1..]|..] == q[|p|..];
      hide Locate, FindLast, Get, ValidCursor, At;
      GetUnder(kids, p[1..], c[1..], q[1..]);
    }
  }

  /** The tree with the level that the cursor opens replaced. */
  function WithLevel(nodes: seq<ZoneNode>, c: Cursor, kids: seq<ZoneNode>): seq<ZoneNode>
    requires c == [] || ValidCursor(nodes, c)
  {
    if c == [] then kids else With(nodes, c, At(nodes, c).(children := Engaged(kids)))
  }

  lemma GetWithLevel(nodes: seq<ZoneNode>, p: Path, c: Cursor, kids: seq<ZoneNode>, q: Path)
    requires Leads(nodes, p, c) && q != []
    ensures Get(WithLevel(nodes, c, kids), q) == if p < q then Get(kids, q[|p|..]) else Get(nodes, q)
  {
    if p == [] {
      assert q[0..] == q;
    } else {
      GetWith(nodes, p, At(nodes, c).(children := Engaged(kids)), q);
    }
  }

  // ---- Labels along a cursor ----

  function PathOf(nodes: seq<ZoneNode>, c: Cursor): (p: Path)
    requires ValidCursor(nodes, c)
    ensures |p| == |c|
    decreases |c|
  {
    [nodes[c[0]].zone.name] + if |c| == 1 then [] else PathOf(nodes[c[0]].Kids(), c[1..])
  }

  lemma PathOfStep(nodes: seq<ZoneNode>, c: Cursor)
    requires ValidCursor(nodes, c)
    ensures PathOf(nodes, c)[0] == nodes[c[0]].zone.name
    ensures |c| > 1 ==>
              ValidCursor(nodes[c[0]].Kids(), c[1..]) &&
              PathOf(nodes, c)[1..] == PathOf(nodes[c[0]].Kids(), c[1..])
  {
  }

  lemma {:induction false} PathOfLocated(nodes: seq<ZoneNode>, p: Path)
    requires Locate(nodes, p).Some?
    ensures PathOf(nodes, Locate(nodes, p).value) == p
    decreases |p|
  {
    var c := Locate(nodes, p).value;
    var path := PathOf(nodes, c);
    LocateTail(nodes, p, c);
    PathOfStep(nodes, c);
    hide Locate, FindLast, PathOf, ValidCursor;
    assert |path| == |p| && path[0] == p[0];
    if |p| > 1 {
      PathOfLocated(nodes[c[0]].Kids(), p[1..]);
      assert p == [p[0]] + p[1..] && path == [path[0]] + path[1..];
    }
  }

  lemma {:induction false} LastOfPath(nodes: seq<ZoneNode>, c: Cursor)
    requires ValidCursor(nodes, c)
    ensures At(nodes, c).zone.name == PathOf(nodes, c)[|c| - 1]
    decreases |c|
  {
    if |c| > 1 { LastOfPath(nodes[c[0]].Kids(), c[1..]); }
  }

  // ---- Sound trees ----

  predicate Distinct(nodes: seq<ZoneNode>) {
    forall i, j :: 0 <= i < j < |nodes| ==> nodes[i].zone.name != nodes[j].zone.name
  }

  /** A label a domain can name, and not both an alias and an address. */
  predicate ValidEntry(z: ZoneData) {
    z.name != [] && DOT !in z.name && !(z.HaveCname() && z.HaveAddress())
  }

  predicate SoundNode(n: ZoneNode) {
    ValidEntry(n.zone) && (n.children.Engaged? ==> Distinct(n.children.nodes) &&
                                                   forall k :: k in n.children.nodes ==> SoundNode(k))
  }

  /** Siblings have different labels, and every entry is valid. */
  predicate Sound(nodes: seq<ZoneNode>) {
    Distinct(nodes) && forall k :: k in nodes ==> SoundNode(k)
  }

  lemma SoundNodeIs(n: ZoneNode)
    ensures SoundNode(n) <==> ValidEntry(n.zone) && Sound(n.Kids())
  {
  }

  lemma {:induction false} SoundAt(nodes: seq<ZoneNode>, c: Cursor)
    requires Sound(nodes) && ValidCursor(nodes, c)
    ensures ValidEntry(At(nodes, c).zone) && Sound(At(nodes, c).Kids())
    decreases |c|
  {
    SoundNodeIs(nodes[c[0]]);
    if |c| > 1 { SoundAt(nodes[c[0]].Kids(), c[1..]); }
  }

  /** Another node with the same label, sound itself, in the place of one. */
  lemma {:induction false} SoundWith(nodes: seq<ZoneNode>, c: Cursor, n: ZoneNode)
    requires Sound(nodes) && ValidCursor(nodes, c)
    requires n.zone.name == At(nodes, c).zone.name && ValidEntry(n.zone) && Sound(n.Kids())
    ensures Sound(With(nodes, c, n))
    decreases |c|
  {
    var i, r := c[0], With(nodes, c, n);
    SoundNodeIs(nodes[i]);
    SoundNodeIs(r[i]);
    if |c| > 1 { SoundWith(nodes[i].Kids(), c[1..], n); }
    assert forall k :: k in r ==> k == r[i] || k in nodes;
    assert r[i].zone.name == nodes[i].zone.name;
    assert forall j :: 0 <= j < |r| ==> r[j].zone.name == nodes[j].zone.name;
  }

  lemma SoundWithLevel(nodes: seq<ZoneNode>, c: Cursor, kids: seq<ZoneNode>)
    requires Sound(nodes) && (c == [] || ValidCursor(nodes, c)) && Sound(kids)
    ensures Sound(WithLevel(nodes, c, kids))
  {
    if c != [] {
      SoundAt(nodes, c);
      SoundWith(nodes, c, At(nodes, c).(children := Engaged(kids)));
    }
  }

  lemma {:induction false} FindOnly(nodes: seq<ZoneNode>, i: nat)
    requires Distinct(nodes) && i < |nodes|
    ensures FindLast(nodes, nodes[i].zone.name) == Some(i)
  {
    var j := FindLast(nodes, nodes[i].zone.name);
    assert j.Some?;
  }

  /** In a sound tree the labels along a cursor lead back to it. */
  lemma {:induction false} LocatePathOf(nodes: seq<ZoneNode>, c: Cursor)
    requires Sound(nodes) && ValidCursor(nodes, c)
    ensures Locate(nodes, PathOf(nodes, c)) == Some(c)
    decreases |c|
  {
    hide Locate, SoundNode, FindLast;
    var p := PathOf(nodes, c);
    FindOnly(nodes, c[0]);
    LocateStep(nodes, p);
    if |c| == 1 {
      assert c == [c[0]];
    } else {
      assert nodes[c[0]] in nodes;
      SoundNodeIs(nodes[c[0]]);
      LocatePathOf(nodes[c[0]].Kids(), c[1..]);
      assert p[1..] == PathOf(nodes[c[0]].Kids(), c[1..]);
      assert c == [c[0]] + c[1..];
    }
  }
}
