/** What searching, creating, updating and deleting zones does to the tree, and to the map it stands for. */
module ZoneSections {
  import opened Bytes
  import opened DomainNames
  import opened Zones
  import opened ZoneTrees
  import opened ZoneMaps

  function Reverse(s: seq<bytes>): (r: seq<bytes>)
    ensures |r| == |s| && forall k :: 0 <= k < |s| ==> r[k] == s[|s| - 1 - k]
  {
    seq(|s|, k requires 0 <= k < |s| => s[|s| - 1 - k])
  }

  lemma ReverseTells(p: Path, q: Path)
    ensures Reverse(p) == Reverse(q) <==> p == q
  {
    if Reverse(p) == Reverse(q) {
      assert Reverse(Reverse(p)) == p && Reverse(Reverse(q)) == q;
    }
  }

  /** The path of a domain: its labels, top label first. */
  function Hosts(domain: bytes): Path {
    Reverse(Key(domain))
  }

  lemma HostsAreClean(domain: bytes)
    ensures CleanPath(Hosts(domain))
  {
    KeyIsClean(domain);
  }

  // ---- Search ----

  /** The last node of a level with this label that has children. */
  function LastFull(nodes: seq<ZoneNode>, l: bytes): (r: Option<nat>)
    ensures r.Some? ==> r.value < |nodes| && nodes[r.value].zone.name == l && nodes[r.value].Kids() != []
    ensures forall j :: 0 <= j < |nodes| && (r.None? || r.value < j) ==>
              nodes[j].zone.name != l || nodes[j].Kids() == []
  {
    if nodes == [] then None
    else
      var last := nodes[|nodes| - 1];
      if last.zone.name == l && last.Kids() != [] then Some(|nodes| - 1) else LastFull(nodes[..|nodes| - 1], l)
  }

  /** The walk of Search: where no match has children, it looks on the same level again. */
  function SearchFrom(nodes: seq<ZoneNode>, p: Path): (r: Option<Cursor>)
    ensures r.Some? ==> ValidCursor(nodes, r.value) && |r.value| <= |p|
    ensures p == [] ==> r == None
    decreases |p|
  {
    if p == [] then None
    else
      var i, full := FindLast(nodes, p[0]), LastFull(nodes, p[0]);
      if i.None? then None
      else if |p| == 1 then Some([i.value])
      else if full.None? then SearchFrom(nodes, p[1..])
      else
        var r := SearchFrom(nodes[full.value].Kids(), p[1..]);
        assert r.Some? ==> ([full.value] + r.value)[1..] == r.value;
        Under([full.value], r)
  }

  /** One round of the loop in Search. */
  lemma SearchStep(nodes: seq<ZoneNode>, level: Cursor, q: Path)
    requires (level == [] || ValidCursor(nodes, level)) && q != []
    ensures var kids := Level(nodes, level);
            var i, full := FindLast(kids, q[0]), LastFull(kids, q[0]);
            (i.None? ==> SearchFrom(kids, q) == None) &&
            (i.Some? ==> ValidCursor(nodes, level + [i.value])) &&
            (full.Some? ==> i.Some? && ValidCursor(nodes, level + [full.value])) &&
            (i.Some? ==>
              Under(level, SearchFrom(kids, q)) ==
                if |q| == 1 then Some(level + [i.value])
                else if full.None? then Under(level, SearchFrom(kids, q[1..]))
                else Under(level + [full.value], SearchFrom(Level(nodes, level + [full.value]), q[1..])))
  {
    var kids := Level(nodes, level);
    var i, full := FindLast(kids, q[0]), LastFull(kids, q[0]);
    SearchUnfold(kids, q);
    hide SearchFrom, FindLast, LastFull;
    if i.Some? { AtSnoc(nodes, level, i.value); }
    if full.Some? {
      AtSnoc(nodes, level, full.value);
      hide ValidCursor, At;
      UnderUnder(level, [full.value], SearchFrom(kids[full.value].Kids(), q[1..]));
    }
  }

  lemma SearchUnfold(nodes: seq<ZoneNode>, q: Path)
    requires q != []
    ensures var i, full := FindLast(nodes, q[0]), LastFull(nodes, q[0]);
            (i.Some? ==> i.value < |nodes|) && (full.Some? ==> i.Some? && full.value < |nodes|) &&
            SearchFrom(nodes, q) ==
              if i.None? then None
              else if |q| == 1 then Some([i.value])
              else if full.None? then SearchFrom(nodes, q[1..])
              else Under([full.value], SearchFrom(nodes[full.value].Kids(), q[1..]))
  {
  }

  lemma UnderUnder(a: Cursor, b: Cursor, o: Option<Cursor>)
    ensures Under(a, Under(b, o)) == Under(a + b, o)
  {
    if o.Some? { assert a + (b + o.value) == a + b + o.value; }
  }

  /** Among siblings with different labels the only match decides. */
  lemma OnlyFull(nodes: seq<ZoneNode>, l: bytes)
    requires Distinct(nodes)
    ensures var i := FindLast(nodes, l);
            LastFull(nodes, l) == if i.Some? && nodes[i.value].Kids() != [] then i else None
  {
  }

  /** A path in the tree is found; a shorter cursor is what a path outside the tree can lead to. */
  lemma {:induction false} SearchIsExact(nodes: seq<ZoneNode>, p: Path)
    requires Sound(nodes)
    ensures Locate(nodes, p).Some? ==> SearchFrom(nodes, p) == Locate(nodes, p)
    ensures SearchFrom(nodes, p).Some? ==>
              (Locate(nodes, p).Some? <==> |SearchFrom(nodes, p).value| == |p|)
    decreases |p|
  {
    if |p| > 1 {
      var i := FindLast(nodes, p[0]);
      OnlyFull(nodes, p[0]);
      LocateStep(nodes, p);
      if i.Some? {
        var kids := nodes[i.value].Kids();
        SoundNodeIs(nodes[i.value]);
        if kids == [] {
          assert Locate(kids, p[1..]).None?;
        } else {
          SearchIsExact(kids, p[1..]);
        }
      }
    }
  }

  /** The number of labels of the path that are in the tree. */
  function Depth(nodes: seq<ZoneNode>, p: Path): (k: nat)
    ensures k <= |p|
    decreases |p|
  {
    if p == [] then 0
    else
      var i := FindLast(nodes, p[0]);
      if i.None? then 0 else 1 + Depth(nodes[i.value].Kids(), p[1..])
  }

  /** The front of a path below the node of its first label. */
  lemma LocateDown(nodes: seq<ZoneNode>, p: Path, k: nat)
    requires 0 < k <= |p| && FindLast(nodes, p[0]).Some?
    ensures Locate(nodes, p[..k]).Some? <==>
              k == 1 || Locate(nodes[FindLast(nodes, p[0]).value].Kids(), p[1..][..k - 1]).Some?
  {
    LocateStep(nodes, p[..k]);
    hide Locate, FindLast;
    FrontTail(p, k);
  }

  lemma {:induction false} DepthIsExact(nodes: seq<ZoneNode>, p: Path)
    ensures var k := Depth(nodes, p);
            (k > 0 ==> Locate(nodes, p[..k]).Some?) && (k < |p| ==> Locate(nodes, p[..k + 1]).None?)
    decreases |p|
  {
    if p != [] {
      var k, i := Depth(nodes, p), FindLast(nodes, p[0]);
      LocateStep(nodes, p[..1]);
      if i.Some? {
        var kids := nodes[i.value].Kids();
        assert k == 1 + Depth(kids, p[1..]);
        hide Depth, FindLast, Locate;
        DepthIsExact(kids, p[1..]);
        LocateDown(nodes, p, k);
        if k < |p| { LocateDown(nodes, p, k + 1); }
      }
    }
  }

  /** The level that the first k labels of the path lead down to. */
  function LevelAfter(nodes: seq<ZoneNode>, p: Path, k: nat): seq<ZoneNode>
    requires k <= Depth(nodes, p)
    decreases |p|
  {
    if k == 0 then nodes
    else LevelAfter(nodes[FindLast(nodes, p[0]).value].Kids(), p[1..], k - 1)
  }

  /** Every label of the path is found on the level of the last node met that has children. */
  predicate Met(nodes: seq<ZoneNode>, p: Path)
    decreases |p|
  {
    p == [] ||
    exists i :: 0 <= i < |nodes| && nodes[i].zone.name == p[0] &&
                Met(if nodes[i].Kids() == [] then nodes else nodes[i].Kids(), p[1..])
  }

  /**
   * A path that is not in the tree but can be walked: the last label present is that of a leaf, and the
   * labels after it are met from the level of that leaf on.
   */
  predicate Stalls(nodes: seq<ZoneNode>, p: Path) {
    var k := Depth(nodes, p);
    0 < k < |p| && LevelAfter(nodes, p, k) == [] && Met(LevelAfter(nodes, p, k - 1), p[k..])
  }

  lemma DepthStep(nodes: seq<ZoneNode>, p: Path, k: nat)
    requires p != [] && FindLast(nodes, p[0]).Some?
    ensures var kids := nodes[FindLast(nodes, p[0]).value].Kids();
            Depth(nodes, p) == Depth(kids, p[1..]) + 1 &&
            (0 < k <= Depth(nodes, p) ==> LevelAfter(nodes, p, k) == LevelAfter(kids, p[1..], k - 1)) &&
            LevelAfter(nodes, p, 0) == nodes && LevelAfter(kids, p[1..], 0) == kids
  {
  }

  /** Among siblings with different labels only one node can be met. */
  lemma MetStep(nodes: seq<ZoneNode>, p: Path)
    requires Distinct(nodes) && p != []
    ensures var i := FindLast(nodes, p[0]);
            Met(nodes, p) <==>
              i.Some? && Met(if nodes[i.value].Kids() == [] then nodes else nodes[i.value].Kids(), p[1..])
  {
    var i := FindLast(nodes, p[0]);
    if i.Some? { assert nodes[i.value].zone.name == p[0]; }
  }

  /** Search answers for exactly the paths that can be walked. */
  lemma {:induction false} SearchIsWalk(nodes: seq<ZoneNode>, p: Path)
    requires Sound(nodes) && p != []
    ensures SearchFrom(nodes, p).Some? <==> Met(nodes, p)
    decreases |p|
  {
    SearchUnfold(nodes, p);
    MetStep(nodes, p);
    OnlyFull(nodes, p[0]);
    var i := FindLast(nodes, p[0]);
    if i.Some? && |p| > 1 {
      SoundNodeIs(nodes[i.value]);
      SearchIsWalk(if nodes[i.value].Kids() == [] then nodes else nodes[i.value].Kids(), p[1..]);
    }
  }

  lemma StallsStep(nodes: seq<ZoneNode>, p: Path)
    requires |p| > 1 && FindLast(nodes, p[0]).Some?
    ensures var kids := nodes[FindLast(nodes, p[0]).value].Kids();
            Stalls(nodes, p) <==> if kids == [] then Met(nodes, p[1..]) else Stalls(kids, p[1..])
  {
    var kids, k, t := nodes[FindLast(nodes, p[0]).value].Kids(), Depth(nodes, p), p[1..];
    DepthStep(nodes, p, k);
    assert k <= |p| && Depth(kids, t) == k - 1 <= |t|;
    if kids == [] { NoDepth(t); }
    hide Met, Depth, LevelAfter, FindLast, Locate;
    DepthStep(nodes, p, k - 1);
    assert p[k..] == t[k - 1..];
  }

  lemma NoDepth(p: Path)
    ensures Depth([], p) == 0
  {
  }

  lemma {:induction false} WalkOutsideTheTree(nodes: seq<ZoneNode>, p: Path)
    requires Sound(nodes) && p != [] && Locate(nodes, p).None?
    ensures Met(nodes, p) <==> Stalls(nodes, p)
    decreases |p|
  {
    var i := FindLast(nodes, p[0]);
    MetStep(nodes, p);
    LocateStep(nodes, p);
    if i.None? {
      assert Depth(nodes, p) == 0;
    } else {
      assert |p| > 1;
      StallsStep(nodes, p);
      SoundNodeIs(nodes[i.value]);
      var kids := nodes[i.value].Kids();
      hide Locate, Met, Stalls, FindLast;
      if kids != [] { WalkOutsideTheTree(kids, p[1..]); }
    }
  }

  lemma SearchOutsideTheTree(nodes: seq<ZoneNode>, p: Path)
    requires Sound(nodes) && Locate(nodes, p).None?
    ensures SearchFrom(nodes, p).Some? <==> Stalls(nodes, p)
  {
    if p != [] {
      SearchIsWalk(nodes, p);
      WalkOutsideTheTree(nodes, p);
    }
  }

  /** A root zone with this label that has no children. */
  predicate RootLeaf(nodes: seq<ZoneNode>, l: bytes) {
    exists i :: 0 <= i < |nodes| && nodes[i].zone.name == l && nodes[i].Kids() == []
  }

  /** All labels but the last are those of root zones without children. */
  predicate OnRoots(nodes: seq<ZoneNode>, p: Path) {
    forall k :: 0 <= k < |p| - 1 ==> RootLeaf(nodes, p[k])
  }

  /** The walk stays among the roots just when it meets leaves only. */
  lemma {:induction false} SearchOnRoots(nodes: seq<ZoneNode>, p: Path)
    requires Sound(nodes) && SearchFrom(nodes, p).Some?
    ensures |SearchFrom(nodes, p).value| == 1 <==> OnRoots(nodes, p)
    decreases |p|
  {
    SearchUnfold(nodes, p);
    OnlyFull(nodes, p[0]);
    if |p| > 1 {
      var i := FindLast(nodes, p[0]).value;
      assert RootLeaf(nodes, p[0]) <==> nodes[i].Kids() == [];
      if nodes[i].Kids() == [] {
        SearchOnRoots(nodes, p[1..]);
        assert forall k :: 0 < k < |p| ==> p[k] == p[1..][k - 1];
        assert OnRoots(nodes, p) <==> OnRoots(nodes, p[1..]) by {
          assert forall k :: 0 <= k < |p| - 2 ==> p[1..][k] == p[k + 1];
        }
      } else {
        assert !RootLeaf(nodes, p[0]);
      }
    }
  }

  // ---- What the locked sections do to the tree ----

  datatype Failure = AlreadyExists | Validation | NotFound | SaveFailed

  /** Zone::Validate */
  predicate Validate(domain: bytes, zone: ZoneData) {
    !(zone.HaveCname() && zone.HaveAddress()) && (Key(domain) != [] ==> Key(domain)[0] == zone.name)
  }

  /** ZoneData::assign: text and alias are always set afterwards. */
  function Assigned(zone: ZoneData): (r: ZoneData)
    ensures r.name == zone.name && r.IsAuthority() == zone.IsAuthority()
    ensures r.HaveCname() == zone.HaveCname() && r.HaveAddress() == zone.HaveAddress()
  {
    zone.(txt := Some(zone.Text()), cname := Some(zone.Cname()))
  }

  /** Count the change at the node, and save. */
  function Published(nodes: seq<ZoneNode>, c: Cursor, saves: bool): Result<seq<ZoneNode>, Failure>
    requires ValidCursor(nodes, c)
  {
    if HolderAt(nodes, c) == 0 then Err(Validation)
    else if !saves then Err(SaveFailed)
    else Ok(BumpAt(nodes, c))
  }

  lemma {:induction false} ValidWith(nodes: seq<ZoneNode>, a: Cursor, n: ZoneNode, c: Cursor)
    requires ValidCursor(nodes, a) && ValidCursor(nodes, c) && n.children == At(nodes, a).children
    ensures ValidCursor(With(nodes, a, n), c)
    decreases |a|
  {
    if |c| > 1 && |a| > 1 && a[0] == c[0] { ValidWith(nodes[a[0]].Kids(), a[1..], n, c[1..]); }
  }

  lemma ValidBump(nodes: seq<ZoneNode>, c: Cursor)
    requires ValidCursor(nodes, c) && HolderAt(nodes, c) > 0
    ensures ValidCursor(BumpAt(nodes, c), c)
  {
    var a := c[..HolderAt(nodes, c)];
    ValidWith(nodes, a, At(nodes, a).(zone := NextSerial(At(nodes, a).zone)), c);
  }

  /** New data in a node, counted and saved. */
  function Renewed(nodes: seq<ZoneNode>, c: Cursor, zone: ZoneData, saves: bool): (r: Result<seq<ZoneNode>, Failure>)
    requires ValidCursor(nodes, c)
    ensures r.Ok? ==> ValidCursor(r.value, c)
  {
    var d := Assigned(zone);
    ValidWith(nodes, c, At(nodes, c).(zone := d), c);
    if HolderAt(SetData(nodes, c, d), c) > 0 then
      ValidBump(SetData(nodes, c, d), c);
      Published(SetData(nodes, c, d), c, saves)
    else
      Published(SetData(nodes, c, d), c, saves)
  }

  function CreateSection(nodes: seq<ZoneNode>, p: Path, zone: ZoneData, saves: bool): Result<seq<ZoneNode>, Failure> {
    if p == [] || Locate(nodes, p).Some? then Err(AlreadyExists)
    else
      var g := Grown(nodes, p);
      Renewed(g, Locate(g, p).value, zone, saves)
  }

  function UpdateSection(nodes: seq<ZoneNode>, p: Path, zone: ZoneData, saves: bool): Result<seq<ZoneNode>, Failure> {
    match SearchFrom(nodes, p)
    case None => Err(NotFound)
    case Some(c) => Renewed(nodes, c, zone, saves)
  }

  function DeleteSection(nodes: seq<ZoneNode>, p: Path, saves: bool): Result<seq<ZoneNode>, Failure> {
    match SearchFrom(nodes, p)
    case None => Err(NotFound)
    case Some(c) =>
      if HolderAt(nodes, c) == 0 then Err(Validation)
      else if |c| == 1 then Err(NotFound)
      else if !saves then Err(SaveFailed)
      else
        ValidBump(nodes, c);
        Ok(Erased(BumpAt(nodes, c), c))
  }

  /** CreateZone as one thread alone sees it: the first check, and then the locked section. */
  function CreateAlone(nodes: seq<ZoneNode>, domain: bytes, zone: ZoneData, saves: bool): Result<seq<ZoneNode>, Failure>
  {
    if LookupNameIn(nodes, domain).Some? then Err(AlreadyExists)
    else if !Validate(domain, zone) then Err(Validation)
    else CreateSection(nodes, Hosts(domain), zone, saves)
  }

  function UpdateAlone(nodes: seq<ZoneNode>, domain: bytes, zone: ZoneData, saves: bool): Result<seq<ZoneNode>, Failure>
  {
    if !Validate(domain, zone) then Err(Validation)
    else UpdateSection(nodes, Hosts(domain), zone, saves)
  }

  lemma {:induction false} SameFull(a: seq<ZoneNode>, b: seq<ZoneNode>, l: bytes)
    requires |a| == |b|
    requires forall j :: 0 <= j < |a| ==> a[j].zone.name == b[j].zone.name && (a[j].Kids() == [] <==> b[j].Kids() == [])
    ensures LastFull(a, l) == LastFull(b, l)
  {
    if a != [] { SameFull(a[..|a| - 1], b[..|b| - 1], l); }
  }

  /** A node with the same label and children does not change what Search finds. */
  lemma {:induction false} SameSearch(nodes: seq<ZoneNode>, a: Cursor, n: ZoneNode, p: Path)
    requires ValidCursor(nodes, a) && n.zone.name == At(nodes, a).zone.name && n.children == At(nodes, a).children
    ensures SearchFrom(With(nodes, a, n), p) == SearchFrom(nodes, p)
    decreases |p|
  {
    if p != [] {
      var r := With(nodes, a, n);
      WithFirst(nodes, a, n);
      SameMatch(nodes, r, p[0]);
      SameFull(nodes, r, p[0]);
      var full := LastFull(nodes, p[0]);
      if |p| > 1 && FindLast(nodes, p[0]).Some? {
        if full.None? {
          SameSearch(nodes, a, n, p[1..]);
        } else if |a| > 1 && full == Some(a[0]) {
          SameSearch(nodes[a[0]].Kids(), a[1..], n, p[1..]);
        }
      }
    }
  }

  lemma SameSearchPublished(nodes: seq<ZoneNode>, c: Cursor, p: Path, saves: bool)
    requires ValidCursor(nodes, c) && Published(nodes, c, saves).Ok?
    ensures SearchFrom(Published(nodes, c, saves).value, p) == SearchFrom(nodes, p)
  {
    var a := c[..HolderAt(nodes, c)];
    SameSearch(nodes, a, At(nodes, a).(zone := NextSerial(At(nodes, a).zone)), p);
  }

  /** After an update Search finds the same node. */
  lemma UpdatedIsFound(nodes: seq<ZoneNode>, p: Path, zone: ZoneData, saves: bool)
    requires UpdateSection(nodes, p, zone, saves).Ok? && zone.name == At(nodes, SearchFrom(nodes, p).value).zone.name
    ensures SearchFrom(UpdateSection(nodes, p, zone, saves).value, p) == SearchFrom(nodes, p)
  {
    var c := SearchFrom(nodes, p).value;
    var n := At(nodes, c).(zone := Assigned(zone));
    ValidWith(nodes, c, n, c);
    SameSearch(nodes, c, n, p);
    SameSearchPublished(SetData(nodes, c, Assigned(zone)), c, p, saves);
  }

  /** After a create Search finds the node created. */
  lemma CreatedIsFound(nodes: seq<ZoneNode>, p: Path, zone: ZoneData, saves: bool)
    requires Sound(nodes) && CleanPath(p) && CreateSection(nodes, p, zone, saves).Ok? && zone.name == p[|p| - 1]
    ensures SearchFrom(CreateSection(nodes, p, zone, saves).value, p) == Locate(Grown(nodes, p), p)
  {
    var g := Grown(nodes, p);
    var c := Locate(g, p).value;
    var n := At(g, c).(zone := Assigned(zone));
    PathOfLocated(g, p);
    LastOfPath(g, c);
    ValidWith(g, c, n, c);
    SoundGrown(nodes, p);
    SearchIsExact(g, p);
    SameSearch(g, c, n, p);
    SameSearchPublished(SetData(g, c, Assigned(zone)), c, p, saves);
  }

  // ---- The same on maps ----

  ghost function MapOf(r: Result<seq<ZoneNode>, Failure>): Result<ZoneMap, Failure> {
    match r
    case Ok(nodes) => Ok(Entries(nodes))
    case Err(e) => Err(e)
  }

  ghost function Publish(m: ZoneMap, p: Path, saves: bool): Result<ZoneMap, Failure> {
    if Holder(m, p) == 0 then Err(Validation)
    else if !saves then Err(SaveFailed)
    else Ok(Bumped(m, p))
  }

  ghost function Create(m: ZoneMap, p: Path, zone: ZoneData, saves: bool): Result<ZoneMap, Failure> {
    if p == [] || p in m then Err(AlreadyExists)
    else Publish(WithPrefixes(m, p)[p := Assigned(zone)], p, saves)
  }

  ghost function Replace(m: ZoneMap, p: Path, zone: ZoneData, saves: bool): Result<ZoneMap, Failure> {
    if p !in m then Err(NotFound)
    else Publish(m[p := Assigned(zone)], p, saves)
  }

  ghost function Remove(m: ZoneMap, p: Path, saves: bool): Result<ZoneMap, Failure> {
    if p !in m then Err(NotFound)
    else if Holder(m, p) == 0 then Err(Validation)
    else if |p| == 1 then Err(NotFound)
    else if !saves then Err(SaveFailed)
    else Ok(Removed(Bumped(m, p), p))
  }

  // ---- Refinement ----

  lemma SoundSet(nodes: seq<ZoneNode>, c: Cursor, d: ZoneData)
    requires Sound(nodes) && ValidCursor(nodes, c) && ValidEntry(d) && d.name == At(nodes, c).zone.name
    ensures Sound(SetData(nodes, c, d))
  {
    SoundAt(nodes, c);
    SoundWith(nodes, c, At(nodes, c).(zone := d));
  }

  lemma SoundBump(nodes: seq<ZoneNode>, c: Cursor)
    requires Sound(nodes) && ValidCursor(nodes, c) && HolderAt(nodes, c) > 0
    ensures Sound(BumpAt(nodes, c))
  {
    var a := c[..HolderAt(nodes, c)];
    SoundAt(nodes, a);
    SoundSet(nodes, a, NextSerial(At(nodes, a).zone));
  }

  lemma RenewedRefines(nodes: seq<ZoneNode>, p: Path, c: Cursor, zone: ZoneData, saves: bool)
    requires Sound(nodes) && Locate(nodes, p) == Some(c)
    requires ValidEntry(Assigned(zone)) && zone.name == At(nodes, c).zone.name
    ensures var r := Renewed(nodes, c, zone, saves);
            MapOf(r) == Publish(Entries(nodes)[p := Assigned(zone)], p, saves) && (r.Ok? ==> Sound(r.value))
  {
    var d := Assigned(zone);
    ValidWith(nodes, c, At(nodes, c).(zone := d), c);
    hide With, Locate, At, ValidCursor, HolderAt, Entries, Sound, BumpAt, Bumped;
    EntriesOfSet(nodes, p, d);
    SoundSet(nodes, c, d);
    EntriesOfBump(SetData(nodes, c, d), p);
    if HolderAt(SetData(nodes, c, d), c) > 0 { SoundBump(SetData(nodes, c, d), c); }
  }

  /** The label of a validated zone is the last one of the path. */
  lemma LastHost(domain: bytes, zone: ZoneData)
    requires Validate(domain, zone) && Hosts(domain) != []
    ensures Hosts(domain)[|Hosts(domain)| - 1] == zone.name && ValidEntry(Assigned(zone))
  {
    HostsAreClean(domain);
  }

  lemma NameAt(nodes: seq<ZoneNode>, p: Path)
    requires Locate(nodes, p).Some?
    ensures At(nodes, Locate(nodes, p).value).zone.name == p[|p| - 1]
  {
    PathOfLocated(nodes, p);
    LastOfPath(nodes, Locate(nodes, p).value);
  }

  /** CreateZone adds exactly the missing labels of the path, and the zone at its end. */
  lemma CreateRefines(nodes: seq<ZoneNode>, domain: bytes, zone: ZoneData, saves: bool)
    requires Sound(nodes) && Validate(domain, zone)
    ensures var r := CreateSection(nodes, Hosts(domain), zone, saves);
            MapOf(r) == Create(Entries(nodes), Hosts(domain), zone, saves) && (r.Ok? ==> Sound(r.value))
  {
    var p := Hosts(domain);
    EntryOf(nodes, p);
    if p != [] && Locate(nodes, p).None? {
      var g := Grown(nodes, p);
      var c := Locate(g, p).value;
      HostsAreClean(domain);
      SoundGrown(nodes, p);
      EntriesOfGrown(nodes, p);
      LastHost(domain, zone);
      NameAt(g, p);
      RenewedRefines(g, p, c, zone, saves);
    }
  }

  /** The path of the node that Search answers with. */
  function Target(nodes: seq<ZoneNode>, p: Path): (r: Option<Path>)
    ensures r.Some? ==> |r.value| <= |p|
  {
    match SearchFrom(nodes, p)
    case None => None
    case Some(c) => Some(PathOf(nodes, c))
  }

  /** Search answers with the path itself just when it is in the tree; any other answer is a shorter path. */
  lemma TargetIs(nodes: seq<ZoneNode>, p: Path)
    requires Sound(nodes)
    ensures Target(nodes, p) == Some(p) <==> p in Entries(nodes)
    ensures Target(nodes, p).Some? ==> Locate(nodes, Target(nodes, p).value) == SearchFrom(nodes, p)
    ensures p !in Entries(nodes) ==>
              (Target(nodes, p).Some? <==> Stalls(nodes, p)) &&
              (Target(nodes, p).Some? ==> |Target(nodes, p).value| < |p|)
  {
    SearchIsExact(nodes, p);
    EntryOf(nodes, p);
    if SearchFrom(nodes, p).Some? { LocatePathOf(nodes, SearchFrom(nodes, p).value); }
    if Locate(nodes, p).Some? { PathOfLocated(nodes, p); } else { SearchOutsideTheTree(nodes, p); }
  }

  /** Whatever Search finds carries the last label looked for. */
  lemma {:induction false} SearchedLabel(nodes: seq<ZoneNode>, p: Path)
    requires SearchFrom(nodes, p).Some?
    ensures At(nodes, SearchFrom(nodes, p).value).zone.name == p[|p| - 1]
    decreases |p|
  {
    if |p| > 1 {
      var full := LastFull(nodes, p[0]);
      if full.None? {
        SearchedLabel(nodes, p[1..]);
      } else {
        var kids := nodes[full.value].Kids();
        SearchedLabel(kids, p[1..]);
        var c := SearchFrom(kids, p[1..]).value;
        assert ([full.value] + c)[1..] == c;
      }
    }
  }

  /**
   * Whatever the tree holds, Search goes down through nodes whose labels are asked for. A node with an
   * empty label, a wildcard by the documentation, is neither found nor passed for a path of clean labels.
   */
  lemma {:induction false} NoWildcards(nodes: seq<ZoneNode>, p: Path)
    requires SearchFrom(nodes, p).Some?
    ensures var found := PathOf(nodes, SearchFrom(nodes, p).value);
            (forall k :: 0 <= k < |found| ==> found[k] in p) && (CleanPath(p) ==> CleanPath(found))
    decreases |p|
  {
    SearchUnfold(nodes, p);
    hide SearchFrom;
    var c := SearchFrom(nodes, p).value;
    if |p| > 1 {
      var full := LastFull(nodes, p[0]);
      assert forall l :: l in p[1..] ==> l in p;
      if full.None? {
        NoWildcards(nodes, p[1..]);
      } else {
        var kids := nodes[full.value].Kids();
        NoWildcards(kids, p[1..]);
        assert c[1..] == SearchFrom(kids, p[1..]).value;
        PathOfStep(nodes, c);
        hide PathOf, LastFull;
        assert forall k :: 0 < k < |c| ==> PathOf(nodes, c)[k] == PathOf(nodes, c)[1..][k - 1];
      }
    }
  }

  /** Update replaces the entry that Search finds; no label changes. */
  lemma UpdateRefines(nodes: seq<ZoneNode>, domain: bytes, zone: ZoneData, saves: bool)
    requires Sound(nodes) && Validate(domain, zone)
    ensures var r, t := UpdateSection(nodes, Hosts(domain), zone, saves), Target(nodes, Hosts(domain));
            MapOf(r) == (if t.None? then Err(NotFound) else Replace(Entries(nodes), t.value, zone, saves)) &&
            (r.Ok? ==> Sound(r.value))
  {
    var p := Hosts(domain);
    var c := SearchFrom(nodes, p);
    TargetIs(nodes, p);
    if c.Some? {
      SearchedLabel(nodes, p);
      LastHost(domain, zone);
      EntryOf(nodes, Target(nodes, p).value);
      RenewedRefines(nodes, Target(nodes, p).value, c.value, zone, saves);
    }
  }

  /**
   * Update does what its documentation says, NotFound included, for exactly the paths that are in the
   * tree or on which Search does not stall.
   */
  lemma UpdateIsExact(nodes: seq<ZoneNode>, domain: bytes, zone: ZoneData, saves: bool)
    requires Sound(nodes) && Validate(domain, zone)
    ensures MapOf(UpdateSection(nodes, Hosts(domain), zone, saves)) ==
              Replace(Entries(nodes), Hosts(domain), zone, saves)
            <==> Hosts(domain) in Entries(nodes) || !Stalls(nodes, Hosts(domain))
  {
    var p := Hosts(domain);
    UpdateRefines(nodes, domain, zone, saves);
    TargetIs(nodes, p);
    if Target(nodes, p).Some? { EntryOf(nodes, Target(nodes, p).value); }
  }

  /**
   * The documentation has Update count up the serial of a zone only if none is given. It counts always: a
   * given SOA record is stored as it is just when the zone given is no authority.
   */
  lemma GivenSoaIsKept(nodes: seq<ZoneNode>, domain: bytes, zone: ZoneData, saves: bool)
    requires Sound(nodes) && Validate(domain, zone) && UpdateSection(nodes, Hosts(domain), zone, saves).Ok?
    ensures var t, now := Target(nodes, Hosts(domain)), Entries(UpdateSection(nodes, Hosts(domain), zone, saves).value);
            t.Some? && t.value in now && (now[t.value].soa == zone.soa <==> !zone.IsAuthority())
  {
    UpdateRefines(nodes, domain, zone, saves);
    var m, p := Entries(nodes), Target(nodes, Hosts(domain)).value;
    hide Entries, UpdateSection, Target, Sound, Validate, Hosts;
    BumpedAtPath(m[p := Assigned(zone)], p, zone);
  }

  lemma BumpedAuthority(m: ZoneMap, p: Path)
    requires Authority(m, p) && p != []
    ensures Holder(m, p) == |p| && Bumped(m, p) == m[p := NextSerial(m[p])]
  {
    assert p[..|p|] == p;
  }

  lemma BumpedAtPath(m: ZoneMap, p: Path, zone: ZoneData)
    requires Holder(m, p) > 0 && p in m && m[p] == Assigned(zone)
    ensures p in Bumped(m, p) && (Bumped(m, p)[p].soa == zone.soa <==> !zone.IsAuthority())
  {
    assert p[..|p|] == p;
    var k := Holder(m, p);
    if k < |p| { assert |p[..k]| == k; }
  }

  lemma LocateBump(nodes: seq<ZoneNode>, p: Path)
    requires Locate(nodes, p).Some? && HolderAt(nodes, Locate(nodes, p).value) > 0
    ensures Locate(BumpAt(nodes, Locate(nodes, p).value), p) == Locate(nodes, p)
  {
    var c := Locate(nodes, p).value;
    var k := HolderAt(nodes, c);
    LocatePrefix(nodes, p, k);
    var n := At(nodes, c[..k]).(zone := NextSerial(At(nodes, c[..k]).zone));
    SameLocate(nodes, c[..k], n, p);
  }

  /** A node with the same label and children does not change where a path leads. */
  lemma {:induction false} SameLocate(nodes: seq<ZoneNode>, a: Cursor, n: ZoneNode, p: Path)
    requires ValidCursor(nodes, a) && p != []
    requires n.zone.name == At(nodes, a).zone.name && n.children == At(nodes, a).children
    ensures Locate(With(nodes, a, n), p) == Locate(nodes, p)
    decreases |a|
  {
    SameMatch(nodes, With(nodes, a, n), p[0]);
    if |p| > 1 && |a| > 1 && FindLast(nodes, p[0]) == Some(a[0]) {
      SameLocate(nodes[a[0]].Kids(), a[1..], n, p[1..]);
    }
  }

  /** Delete removes the path that Search finds, and all below it. */
  lemma DeleteRefines(nodes: seq<ZoneNode>, p: Path, saves: bool)
    requires Sound(nodes)
    ensures var r, t := DeleteSection(nodes, p, saves), Target(nodes, p);
            MapOf(r) == (if t.None? then Err(NotFound) else Remove(Entries(nodes), t.value, saves)) &&
            (r.Ok? ==> Sound(r.value))
  {
    TargetIs(nodes, p);
    if Target(nodes, p).Some? {
      var q, c := Target(nodes, p).value, SearchFrom(nodes, p).value;
      EntryOf(nodes, q);
      HolderOfPath(nodes, q);
      if HolderAt(nodes, c) > 0 && |c| > 1 {
        EntriesOfBump(nodes, q);
        LocateBump(nodes, q);
        SoundBump(nodes, c);
        EntriesOfErased(BumpAt(nodes, c), q);
        SoundErased(BumpAt(nodes, c), c);
      }
    }
  }

  /**
   * Delete does what its documentation says for exactly the paths that are in the tree, on which Search
   * does not stall, or on which it stalls at an authoritative root zone, which it then refuses to remove.
   */
  lemma DeleteIsExact(nodes: seq<ZoneNode>, p: Path, saves: bool)
    requires Sound(nodes)
    ensures MapOf(DeleteSection(nodes, p, saves)) == Remove(Entries(nodes), p, saves)
            <==> p in Entries(nodes) || !Stalls(nodes, p) ||
                 (OnRoots(nodes, p) && Authority(Entries(nodes), p[|p| - 1..]))
  {
    DeleteRefines(nodes, p, saves);
    TargetIs(nodes, p);
    if p !in Entries(nodes) && Stalls(nodes, p) {
      var t := Target(nodes, p).value;
      EntryOf(nodes, t);
      TargetOnRoots(nodes, p);
      hide *;
      RefusesRoots(Entries(nodes), t, saves);
      NotThere(Entries(nodes), p, saves);
    }
  }

  lemma TargetOnRoots(nodes: seq<ZoneNode>, p: Path)
    requires Sound(nodes) && Target(nodes, p).Some?
    ensures p != [] && (|Target(nodes, p).value| == 1 <==> OnRoots(nodes, p))
    ensures |Target(nodes, p).value| == 1 ==> Target(nodes, p).value == p[|p| - 1..]
  {
    SearchOnRoots(nodes, p);
    SearchedLabel(nodes, p);
    LastOfPath(nodes, SearchFrom(nodes, p).value);
  }

  lemma RefusesRoots(m: ZoneMap, t: Path, saves: bool)
    requires t in m && t != []
    ensures Remove(m, t, saves) == Err(NotFound) <==> |t| == 1 && Authority(m, t)
  {
    assert t[..|t|] == t;
    if |t| == 1 { assert t[..0] == []; }
  }

  lemma NotThere(m: ZoneMap, p: Path, saves: bool)
    requires p !in m
    ensures Remove(m, p, saves) == Err(NotFound)
  {
  }

  // ---- Zones seen from outside ----

  /** A handle on a node: its data, and handles on the nodes above it. */
  function ZoneAt(nodes: seq<ZoneNode>, c: Cursor): Zone
    requires ValidCursor(nodes, c)
    decreases |c|
  {
    Zone(c, At(nodes, c).zone,
         if |c| == 1 then None
         else
           CursorPrefix(nodes, c, |c| - 1);
           Some(ZoneAt(nodes, c[..|c| - 1])))
  }

  lemma {:induction false} PathOfSnoc(nodes: seq<ZoneNode>, c: Cursor)
    requires ValidCursor(nodes, c) && |c| > 1 && ValidCursor(nodes, c[..|c| - 1])
    ensures PathOf(nodes, c) == PathOf(nodes, c[..|c| - 1]) + [At(nodes, c).zone.name]
    decreases |c|
  {
    var d := c[1..];
    if |c| > 2 {
      assert c[..|c| - 1][1..] == d[..|d| - 1];
      CursorPrefix(nodes[c[0]].Kids(), d, |d| - 1);
      PathOfSnoc(nodes[c[0]].Kids(), d);
    }
  }

  /** The labels of a handle are those of its path, lowest first. */
  lemma {:induction false} LabelsOfZone(nodes: seq<ZoneNode>, c: Cursor)
    requires ValidCursor(nodes, c)
    ensures ZoneAt(nodes, c).Labels() == Reverse(PathOf(nodes, c))
    decreases |c|
  {
    if |c| > 1 {
      CursorPrefix(nodes, c, |c| - 1);
      LabelsOfZone(nodes, c[..|c| - 1]);
      PathOfSnoc(nodes, c);
    }
  }

  /** What Lookup answers: it never reports the authority of a zone it does not return. */
  function LookupIn(nodes: seq<ZoneNode>, key: seq<bytes>): Found {
    match SearchFrom(nodes, Reverse(key))
    case None => Found(None, false)
    case Some(c) => Found(Some(ZoneAt(nodes, c)), At(nodes, c).zone.authorative)
  }

  /** The exactness filter of LookupName. */
  function LookupNameIn(nodes: seq<ZoneNode>, domain: bytes): Option<Zone> {
    var z := LookupIn(nodes, Key(domain)).zone;
    if z.Some? && IEquals(domain, z.value.GetDomainName()) then z else None
  }

  lemma {:induction false} PathIsClean(nodes: seq<ZoneNode>, c: Cursor)
    requires Sound(nodes) && ValidCursor(nodes, c)
    ensures CleanPath(PathOf(nodes, c))
    decreases |c|
  {
    SoundNodeIs(nodes[c[0]]);
    if |c| > 1 {
      var p := PathOf(nodes[c[0]].Kids(), c[1..]);
      PathIsClean(nodes[c[0]].Kids(), c[1..]);
      assert forall k :: 0 < k < |c| ==> PathOf(nodes, c)[k] == p[k - 1];
    }
  }

  /** A shorter path prints with fewer dots than the domain has, so the filter refuses it. */
  lemma FilterRefusesStall(nodes: seq<ZoneNode>, domain: bytes, c: Cursor)
    requires Sound(nodes) && ValidCursor(nodes, c) && |c| < |Key(domain)|
    ensures !IEquals(domain, ZoneAt(nodes, c).GetDomainName())
  {
    var labels := ZoneAt(nodes, c).Labels();
    LabelsOfZone(nodes, c);
    PathIsClean(nodes, c);
    DotsOfJoin(labels);
    DotsOfFragments(domain);
    FragmentsAreDotFree(domain);
    NonEmptyIsClean(Fragments(domain));
    if IEquals(domain, Join(labels)) { DotsUpToCase(domain, Join(labels)); }
  }

  /**
   * LookupName finds a domain exactly when its path is in the tree and the domain is written without
   * empty labels; it then returns the node of that path.
   */
  lemma LookupNameIsExact(nodes: seq<ZoneNode>, domain: bytes)
    requires Sound(nodes)
    ensures LookupNameIn(nodes, domain).Some? <==>
              Hosts(domain) in Entries(nodes) && Join(Key(domain)) == domain
    ensures LookupNameIn(nodes, domain).Some? ==>
              LookupNameIn(nodes, domain).value == ZoneAt(nodes, CursorOf(nodes, Hosts(domain)))
  {
    var p, key := Hosts(domain), Key(domain);
    SearchIsExact(nodes, p);
    EntryOf(nodes, p);
    var c := SearchFrom(nodes, p);
    if Locate(nodes, p).Some? {
      FilterOfPath(nodes, domain);
      hide Locate, SearchFrom, ZoneAt, Key, IEquals, ValidCursor, Get;
    } else if c.Some? {
      hide Locate, SearchFrom, ZoneAt, Key, IEquals, ValidCursor, Get;
      FilterRefusesStall(nodes, domain, c.value);
    }
  }

  lemma FilterOfPath(nodes: seq<ZoneNode>, domain: bytes)
    requires Locate(nodes, Hosts(domain)).Some?
    ensures IEquals(domain, ZoneAt(nodes, Locate(nodes, Hosts(domain)).value).GetDomainName())
            <==> Join(Key(domain)) == domain
  {
    hide Locate, ZoneAt, Key, ValidCursor, Join;
    PathOfLocated(nodes, Hosts(domain));
    LabelsOfZone(nodes, Locate(nodes, Hosts(domain)).value);
    assert Reverse(Hosts(domain)) == Key(domain);
    KeyOfSameLength(domain);
  }
}
