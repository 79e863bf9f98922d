/**
 * The zone store kept in a json file. The tree lives in a container that handles on zones share; every
 * change is made in a copy, which then takes its place.
 */
module ZoneMgrJsons {
  import opened Bytes
  import opened DomainNames
  import opened Zones
  import opened ZoneTrees
  import opened ZoneMaps
  import opened ZoneSections
  import opened AuthorityFields

  class Container {
    var roots: seq<ZoneNode>

    constructor (roots: seq<ZoneNode>)
      ensures this.roots == roots
    {
      this.roots := roots;
    }
  }

  /** What an operation reports, and the tree in force after it. */
  predicate Reports(r: Result<Zone, Failure>, spec: Result<seq<ZoneNode>, Failure>, p: Path, now: seq<ZoneNode>) {
    match spec
    case Err(e) => r == Err(e)
    case Ok(tree) => now == tree && SearchFrom(now, p).Some? && r == Ok(ZoneAt(now, SearchFrom(now, p).value))
  }

  /** ZoneRef::GetDomainName: the label, and those of the parents. */
  method GetDomainName(z: Zone) returns (name: bytes)
    ensures name == z.GetDomainName()
  {
    name := z.data.name;
    var up := z.parent;
    while up.Some?
      invariant z.GetDomainName() == if up.Some? then name + [DOT] + up.value.GetDomainName() else name
      decreases up
    {
      var u := up.value;
      assert u.Labels() == [u.data.name] + (if u.parent.Some? then u.parent.value.Labels() else []);
      assert u.parent.Some? ==> u.Labels()[1..] == u.parent.value.Labels();
      assert name + [DOT] + (u.data.name + [DOT]) == name + [DOT] + u.data.name + [DOT];
      name := name + [DOT] + u.data.name;
      up := u.parent;
    }
  }

  /** The scan of one level for a label: the last match, and the last match that has children. */
  method FindHost(nodes: seq<ZoneNode>, host: bytes) returns (found: Option<nat>, full: Option<nat>)
    ensures found == FindLast(nodes, host) && full == LastFull(nodes, host)
  {
    found, full := None, None;
    for i := 0 to |nodes|
      invariant found == FindLast(nodes[..i], host) && full == LastFull(nodes[..i], host)
    {
      assert nodes[..i + 1][..i] == nodes[..i];
      if nodes[i].zone.name == host {
        found := Some(i);
        if nodes[i].Kids() != [] { full := Some(i); }
      }
    }
    assert nodes[..|nodes|] == nodes;
  }

  /** The tree and the handle that an operation leaves behind. */
  predicate Leaves(tree: seq<ZoneNode>, c: Cursor, p: Path, spec: Result<seq<ZoneNode>, Failure>) {
    spec.Ok? ==> Sound(spec.value) && ValidCursor(spec.value, c) && SearchFrom(spec.value, p) == Some(c)
  }

  lemma Left(tree: seq<ZoneNode>, c: Cursor, p: Path, spec: Result<seq<ZoneNode>, Failure>, r: Result<Zone, Failure>,
             now: seq<ZoneNode>)
    requires Leaves(tree, c, p, spec)
    requires (r.Err? <==> spec.Err?) && (r.Err? ==> r.error == spec.error)
    requires r.Ok? ==> now == spec.value && ValidCursor(now, c) && r.value == ZoneAt(now, c)
    ensures Reports(r, spec, p, now) && (r.Ok? ==> Sound(now))
  {
  }

  lemma CreateLeaves(tree: seq<ZoneNode>, domain: bytes, zone: ZoneData, saves: bool)
    requires Sound(tree) && Validate(domain, zone)
    requires Hosts(domain) != [] && Locate(tree, Hosts(domain)).None?
    ensures var c := CursorOf(Grown(tree, Hosts(domain)), Hosts(domain));
            ValidCursor(Grown(tree, Hosts(domain)), c) &&
            CreateSection(tree, Hosts(domain), zone, saves) == Renewed(Grown(tree, Hosts(domain)), c, zone, saves) &&
            Leaves(tree, c, Hosts(domain), CreateSection(tree, Hosts(domain), zone, saves))
  {
    CreateRefines(tree, domain, zone, saves);
    LastHost(domain, zone);
    HostsAreClean(domain);
    if CreateSection(tree, Hosts(domain), zone, saves).Ok? { CreatedIsFound(tree, Hosts(domain), zone, saves); }
  }

  lemma UpdateLeaves(tree: seq<ZoneNode>, domain: bytes, zone: ZoneData, saves: bool)
    requires Sound(tree) && Validate(domain, zone) && SearchFrom(tree, Hosts(domain)).Some?
    ensures var c := SearchFrom(tree, Hosts(domain)).value;
            UpdateSection(tree, Hosts(domain), zone, saves) == Renewed(tree, c, zone, saves) &&
            Leaves(tree, c, Hosts(domain), UpdateSection(tree, Hosts(domain), zone, saves))
  {
    UpdateRefines(tree, domain, zone, saves);
    LastHost(domain, zone);
    SearchedLabel(tree, Hosts(domain));
    if UpdateSection(tree, Hosts(domain), zone, saves).Ok? { UpdatedIsFound(tree, Hosts(domain), zone, saves); }
  }

  /** The ways a delete ends, by what Search finds. */
  lemma DeleteLeaves(tree: seq<ZoneNode>, p: Path, saves: bool)
    requires Sound(tree)
    ensures var found, r := SearchFrom(tree, p), DeleteSection(tree, p, saves);
            (r.Ok? ==> Sound(r.value)) &&
            if found.None? then r == Err(NotFound)
            else
              var c := found.value;
              ValidCursor(tree, c) &&
              if HolderAt(tree, c) == 0 then r == Err(Validation)
              else
                ValidCursor(BumpAt(tree, c), c) &&
                if |c| == 1 then r == Err(NotFound)
                else if !saves then r == Err(SaveFailed)
                else r == Ok(Erased(BumpAt(tree, c), c))
  {
    DeleteRefines(tree, p, saves);
    var found := SearchFrom(tree, p);
    if found.Some? && HolderAt(tree, found.value) > 0 { ValidBump(tree, found.value); }
  }

  class ZoneMgrJson {
    var zones: Container

    ghost predicate Valid()
      reads this, zones
    {
      Sound(zones.roots)
    }

    /** The store after Load has read a tree. */
    constructor (roots: seq<ZoneNode>)
      requires Sound(roots)
      ensures Valid() && fresh(zones) && zones.roots == roots
    {
      zones := new Container(roots);
    }

    static method Search(root: Container, key: seq<bytes>) returns (found: Option<Cursor>)
      ensures found == SearchFrom(root.roots, Reverse(key))
    {
      hide SearchFrom, FindLast, LastFull, ValidCursor, At;
      ghost var p := Reverse(key);
      var level: Cursor := [];
      var k := |key|;
      found := None;
      assert p[0..] == p;
      assert SearchFrom(root.roots, p).Some? ==>
               [] + SearchFrom(root.roots, p).value == SearchFrom(root.roots, p).value;
      while k > 0
        invariant 0 <= k <= |key|
        invariant level == [] || ValidCursor(root.roots, level)
        invariant k > 0 ==>
                    SearchFrom(root.roots, p) == Under(level, SearchFrom(Level(root.roots, level), p[|key| - k..]))
        invariant k == 0 ==> found == SearchFrom(root.roots, p)
      {
        k := k - 1;
        SearchStep(root.roots, level, p[|key| - k - 1..]);
        assert p[|key| - k - 1..][1..] == p[|key| - k..];
        var i, full := FindHost(Level(root.roots, level), key[k]);
        if i.None? {
          return None;
        }
        found := Some(level + [i.value]);
        if full.Some? { level := level + [full.value]; }
      }
    }

    method Lookup(key: seq<bytes>) returns (r: Found)
      ensures r == LookupIn(zones.roots, key)
    {
      var found := Search(zones, key);
      match found {
        case None => r := Found(None, false);
        case Some(c) => r := Found(Some(ZoneAt(zones.roots, c)), At(zones.roots, c).zone.authorative);
      }
    }

    /** ZoneMgr::LookupName; it can be told to throw where the name found is not the one asked for. */
    method LookupName(domain: bytes, throwOnNotFound: bool) returns (r: Option<Zone>, thrown: bool)
      ensures r == LookupNameIn(zones.roots, domain)
      ensures thrown <==> throwOnNotFound && r.None? && LookupIn(zones.roots, Key(domain)).zone.Some?
    {
      var key := Split(domain);
      var found := Lookup(key);
      if found.zone.Some? {
        var name := GetDomainName(found.zone.value);
        if !IEquals(domain, name) {
          return None, throwOnNotFound;
        }
      }
      r, thrown := found.zone, false;
    }

    method CopyZones() returns (work: Container)
      ensures fresh(work) && work.roots == zones.roots
    {
      work := new Container(zones.roots);
    }

    /** Save, which may fail, and only then replace the tree in force. */
    method Commit(work: Container, saves: bool) returns (ok: bool)
      modifies this`zones
      ensures ok == saves && zones == if saves then work else old(zones)
    {
      ok := saves;
      if saves { zones := work; }
    }

    /** Up from the node to the first authority, whose serial goes up by one; false if there is none. */
    method IncrementSerial(work: Container, c: Cursor) returns (ok: bool)
      requires ValidCursor(work.roots, c)
      modifies work
      ensures ok <==> HolderAt(old(work.roots), c) > 0
      ensures work.roots == if ok then BumpAt(old(work.roots), c) else old(work.roots)
      ensures Walked(old(work.roots), c, ok, work.roots)
    {
      WalkIs(work.roots, c);
      var n := |c|;
      assert c[..n] == c;
      while n > 0 && !At(work.roots, c[..n]).zone.IsAuthority()
        invariant 0 <= n <= |c| && work.roots == old(work.roots)
        invariant n > 0 ==> ValidCursor(work.roots, c[..n])
        invariant HolderAt(work.roots, c) == if n > 0 then HolderAt(work.roots, c[..n]) else 0
      {
        assert c[..n][..n - 1] == c[..n - 1];
        if n > 1 { CursorPrefix(work.roots, c[..n], n - 1); }
        n := n - 1;
      }
      ok := n > 0;
      if ok {
        work.roots := SetData(work.roots, c[..n], NextSerial(At(work.roots, c[..n]).zone));
      }
    }

    method CreateZone(domain: bytes, zone: ZoneData, saves: bool) returns (r: Result<Zone, Failure>)
      requires Valid()
      modifies this`zones
      ensures Valid() && old(zones).roots == old(zones.roots)
      ensures r.Err? ==> zones == old(zones)
      ensures r.Ok? ==> fresh(zones)
      ensures Reports(r, CreateAlone(old(zones.roots), domain, zone, saves), Hosts(domain), zones.roots)
    {
      ghost var tree := zones.roots;
      var known, _ := LookupName(domain, false);
      if known.Some? {
        return Err(AlreadyExists);
      }
      if !Validate(domain, zone) {
        return Err(Validation);
      }
      var work := CopyZones();
      var key := Split(domain);
      var hosts := Reverse(key);
      var current, added := AddHosts(work, hosts);
      if !added {
        return Err(AlreadyExists);
      }
      hide *;
      CreateLeaves(tree, domain, zone, saves);
      r := Change(work, current, zone, saves);
      Left(tree, current, Hosts(domain), CreateSection(tree, Hosts(domain), zone, saves), r, zones.roots);
    }

    /** Walk the labels of the path, creating nodes as needed. */
    static method AddHosts(work: Container, hosts: seq<bytes>) returns (current: Cursor, added: bool)
      modifies work
      ensures work.roots == Grown(old(work.roots), hosts)
      ensures current == CursorOf(work.roots, hosts)
      ensures added <==> hosts != [] && Locate(old(work.roots), hosts).None?
    {
      hide FindLast, Locate, ValidCursor, At, With, Grown;
      ghost var tree := work.roots;
      GrownIs(tree);
      current, added := [], false;
      var level: Option<Cursor> := Some([]);
      assert hosts[..0] == [];
      for k := 0 to |hosts|
        invariant work.roots == Grown(tree, hosts[..k])
        invariant current == CursorOf(work.roots, hosts[..k])
        invariant level == if current != [] && At(work.roots, current).children.Absent? then None else Some(current)
        invariant added <==> k > 0 && Locate(tree, hosts[..k]).None?
      {
        AddHost(tree, hosts, k);
        var found: Option<nat> := None;
        if level.Some? {
          var last, _ := FindHost(Level(work.roots, level.value), hosts[k]);
          found := last;
        }
        added := found.None?;
        if found.Some? {
          AtSnoc(work.roots, current, found.value);
          current := current + [found.value];
          level := if At(work.roots, current).children.Engaged? then Some(current) else None;
        } else {
          ghost var before := work.roots;
          LocateAdded(before, hosts[..k], current, hosts[k]);
          if level.None? {
            Emplaced(before, current, [ZoneNode(Blank(hosts[k]), Absent)]);
            work.roots := WithLevel(work.roots, current, []);
          }
          var kids := Level(work.roots, current);
          var n := |kids|;
          assert kids == Level(before, current) &&
                 (kids == [] ==> kids + [ZoneNode(Blank(hosts[k]), Absent)] == [ZoneNode(Blank(hosts[k]), Absent)]);
          work.roots := WithLevel(work.roots, current, kids + [ZoneNode(Blank(hosts[k]), Absent)]);
          assert work.roots == AddLabel(before, current, hosts[k]);
          current := current + [n];
          level := None;
        }
      }
      assert hosts[..|hosts|] == hosts;
    }

    /** New data for the node, one up for the serial, and commit. */
    method Change(work: Container, c: Cursor, zone: ZoneData, saves: bool) returns (r: Result<Zone, Failure>)
      requires work != zones && ValidCursor(work.roots, c)
      modifies this`zones, work
      ensures var spec := Renewed(old(work.roots), c, zone, saves);
              (r.Err? <==> spec.Err?) &&
              (r.Err? ==> r.error == spec.error && zones == old(zones)) &&
              (r.Ok? ==> zones == work && work.roots == spec.value && ValidCursor(work.roots, c) &&
                         r.value == ZoneAt(work.roots, c))
    {
      ValidWith(work.roots, c, At(work.roots, c).(zone := Assigned(zone)), c);
      work.roots := SetData(work.roots, c, Assigned(zone));
      ghost var renewed := work.roots;
      var counted := IncrementSerial(work, c);
      if !counted {
        return Err(Validation);
      }
      ValidBump(renewed, c);
      var saved := Commit(work, saves);
      if !saved {
        return Err(SaveFailed);
      }
      r := Ok(ZoneAt(work.roots, c));
    }

    method Update(domain: bytes, zone: ZoneData, saves: bool) returns (r: Result<Zone, Failure>)
      requires Valid()
      modifies this`zones
      ensures Valid() && old(zones).roots == old(zones.roots)
      ensures r.Err? ==> zones == old(zones)
      ensures r.Ok? ==> fresh(zones)
      ensures Reports(r, UpdateAlone(old(zones.roots), domain, zone, saves), Hosts(domain), zones.roots)
    {
      ghost var tree := zones.roots;
      if !Validate(domain, zone) {
        return Err(Validation);
      }
      var work := CopyZones();
      var key := Split(domain);
      var found := Search(work, key);
      if found.None? {
        return Err(NotFound);
      }
      UpdateLeaves(tree, domain, zone, saves);
      r := Change(work, found.value, zone, saves);
      Left(tree, found.value, Hosts(domain), UpdateSection(tree, Hosts(domain), zone, saves), r, zones.roots);
    }

    method Delete(domain: bytes, saves: bool) returns (failed: Option<Failure>)
      requires Valid()
      modifies this`zones
      ensures Valid() && old(zones).roots == old(zones.roots)
      ensures failed.Some? ==> zones == old(zones)
      ensures failed.None? ==> fresh(zones)
      ensures var spec := DeleteSection(old(zones.roots), Hosts(domain), saves);
              if spec.Err? then failed == Some(spec.error) else failed == None && zones.roots == spec.value
    {
      ghost var tree := zones.roots;
      DeleteLeaves(tree, Hosts(domain), saves);
      hide HolderAt, ValidCursor, SearchFrom, Sound, BumpAt, Erased, Hosts, DeleteSection;
      var work := CopyZones();
      var key := Split(domain);
      var found := Search(work, key);
      if found.Some? {
        var c := found.value;
        var counted := IncrementSerial(work, c);
        if !counted {
          return Some(Validation);
        }
        if |c| > 1 {
          work.roots := Erased(work.roots, c);
          var saved := Commit(work, saves);
          return if saved then None else Some(SaveFailed);
        }
      }
      failed := Some(NotFound);
    }
  }
}
