/** Trees on which the json store does something else than its documentation says. */
module ZoneExamples {
  import opened Bytes
  import opened DomainNames
  import opened Zones
  import opened ZoneTrees
  import opened ZoneMaps
  import opened ZoneSections
  import opened AuthorityFields
  import opened RestHandlers
  import opened ParentPointers

  // "www", "com", "a" and "b"
  const WWW: bytes := [119, 119, 119]
  const COM: bytes := [99, 111, 109]
  const LA: bytes := [97]
  const LB: bytes := [98]

  function Authoritative(l: bytes, serial: uint32): ZoneData {
    Blank(l).(soa := Some(Soa(None, [], serial, 0, 0, 0, 0)), authorative := true)
  }

  function Leaf(zone: ZoneData): ZoneNode {
    ZoneNode(zone, Absent)
  }

  lemma LeafIsSound(zone: ZoneData)
    requires ValidEntry(zone)
    ensures SoundNode(Leaf(zone)) && Leaf(zone).Kids() == []
  {
  }

  /** The path of a domain that is printed from its labels. */
  lemma HostsOf(labels: seq<bytes>)
    requires DotFree(labels) && forall k :: 0 <= k < |labels| ==> labels[k] != []
    ensures Key(Join(labels)) == labels && Hosts(Join(labels)) == Reverse(labels)
  {
    KeyOfJoin(labels);
  }

  // ---- A path outside the tree that leads to another root ----

  function TwoRoots(): seq<ZoneNode> {
    [Leaf(Authoritative(COM, 1)), Leaf(Authoritative(WWW, 1))]
  }

  lemma TwoRootsAreSound()
    ensures Sound(TwoRoots())
  {
    LeafIsSound(Authoritative(COM, 1));
    LeafIsSound(Authoritative(WWW, 1));
    var nodes := TwoRoots();
    assert nodes[0].zone.name[0] != nodes[1].zone.name[0];
  }

  lemma StallAtRoot()
    ensures var nodes, p := TwoRoots(), [COM, WWW];
            Locate(nodes, p).None? && SearchFrom(nodes, p) == Some([1]) && PathOf(nodes, [1]) == [WWW]
  {
    var nodes, p := TwoRoots(), [COM, WWW];
    TwoRootsAreSound();
    FindOnly(nodes, 0);
    FindOnly(nodes, 1);
    OnlyFull(nodes, COM);
    assert p[1..] == [WWW] && nodes[0].Kids() == [];
    SearchUnfold(nodes, p);
    SearchUnfold(nodes, [WWW]);
    LocateStep(nodes, p);
  }

  /** With two root zones "com" and "www", an update of the missing "www.com" changes the root "www". */
  lemma UpdateOfAnotherZone()
    ensures var nodes, domain, zone := TwoRoots(), Join([WWW, COM]), Authoritative(WWW, 1);
            Sound(nodes) && Validate(domain, zone) &&
            Hosts(domain) == [COM, WWW] && Hosts(domain) !in Entries(nodes) &&
            Target(nodes, Hosts(domain)) == Some([WWW]) &&
            UpdateSection(nodes, Hosts(domain), zone, true).Ok?
  {
    TwoRootsAreSound();
    HostsOf([WWW, COM]);
    assert Reverse([WWW, COM]) == [COM, WWW];
    StallAtRoot();
    EntryOf(TwoRoots(), [COM, WWW]);
    RootCounts(TwoRoots(), 1, Authoritative(WWW, 1));
  }

  lemma RootCounts(nodes: seq<ZoneNode>, i: nat, zone: ZoneData)
    requires i < |nodes| && zone.IsAuthority()
    ensures Renewed(nodes, [i], zone, true).Ok?
  {
    var d := Assigned(zone);
    ValidWith(nodes, [i], At(nodes, [i]).(zone := d), [i]);
    assert At(SetData(nodes, [i], d), [i]).zone == d;
  }

  /** On the same tree a PUT of the missing "www.com" does not create it: the lookup throws. */
  lemma PutOfMissingZoneThrows(body: ZoneData)
    ensures var nodes, domain := TwoRoots(), Join([WWW, COM]);
            Sound(nodes) && Plain(domain) && Hosts(domain) !in Entries(nodes) &&
            Decide(PUT, nodes, domain, body) == NoSuchFile
  {
    TwoRootsAreSound();
    HostsOf([WWW, COM]);
    assert Reverse([WWW, COM]) == [COM, WWW];
    StallAtRoot();
    EntryOf(TwoRoots(), [COM, WWW]);
    SearchOutsideTheTree(TwoRoots(), [COM, WWW]);
    PutDecision(TwoRoots(), Join([WWW, COM]), body);
  }

  // ---- A path outside the tree that leads to a zone with another name ----

  function OneZone(): seq<ZoneNode> {
    [ZoneNode(Authoritative(COM, 1), Engaged([Leaf(Blank(LA)), Leaf(Blank(LB))]))]
  }

  lemma OneZoneIsSound()
    ensures Sound(OneZone())
  {
    var nodes := OneZone();
    var kids := nodes[0].Kids();
    LeafIsSound(Blank(LA));
    LeafIsSound(Blank(LB));
    assert kids[0].zone.name[0] != kids[1].zone.name[0];
    assert Sound(kids);
    SoundNodeIs(nodes[0]);
  }

  /** In the zone "com" with "a.com" and "b.com", a delete of the missing "b.a.com" removes "b.com". */
  lemma DeleteOfAnotherZone()
    ensures var nodes, p := OneZone(), [COM, LA, LB];
            Sound(nodes) && Locate(nodes, p).None? &&
            SearchFrom(nodes, p) == Locate(nodes, [COM, LB]) == Some([0, 1]) &&
            DeleteSection(nodes, p, true).Ok? && [COM, LB] in Entries(nodes) &&
            [COM, LB] !in Entries(DeleteSection(nodes, p, true).value)
  {
    var nodes, p := OneZone(), [COM, LA, LB];
    var kids := nodes[0].Kids();
    OneZoneIsSound();
    SoundAt(nodes, [0]);
    FindOnly(nodes, 0);
    FindOnly(kids, 0);
    FindOnly(kids, 1);
    OnlyFull(nodes, COM);
    OnlyFull(kids, LA);
    assert p[1..] == [LA, LB] && [LA, LB][1..] == [LB] && [COM, LB][1..] == [LB];
    SearchUnfold(nodes, p);
    SearchUnfold(kids, [LA, LB]);
    SearchUnfold(kids, [LB]);
    LocateStep(nodes, p);
    LocateStep(kids, [LA, LB]);
    LocateStep(nodes, [COM, LB]);
    LocateStep(kids, [LB]);
    assert [0] + [1] == [0, 1];
    assert HolderAt(nodes, [0, 1]) == 1 by { assert [0, 1][..1] == [0]; }
    EntryOf(nodes, [COM, LB]);
    PathOfLocated(nodes, [COM, LB]);
    DeleteRefines(nodes, p, true);
  }

  // ---- A serial that is given ----

  lemma ComIsValid(serial: uint32)
    ensures Validate(COM, Authoritative(COM, serial)) && Hosts(COM) == [COM]
  {
    HostsOf([COM]);
    assert Join([COM]) == COM && Reverse([COM]) == [COM];
  }

  lemma ComIsFound()
    ensures SearchFrom(TwoRoots(), [COM]) == Some([0]) && Target(TwoRoots(), [COM]) == Some([COM])
  {
    var nodes := TwoRoots();
    TwoRootsAreSound();
    FindOnly(nodes, 0);
    SearchUnfold(nodes, [COM]);
    hide Sound, FindLast, SearchFrom;
    assert PathOf(nodes, [0]) == [COM];
  }

  lemma ComIsUpdated(serial: uint32)
    ensures UpdateSection(TwoRoots(), [COM], Authoritative(COM, serial), true).Ok?
  {
    hide Renewed;
    ComIsFound();
    RootCounts(TwoRoots(), 0, Authoritative(COM, serial));
  }

  /** An update of the root "com" that gives the serial 7 stores the serial 8. */
  lemma GivenSerialIsCountedUp()
    ensures var nodes, zone := TwoRoots(), Authoritative(COM, 7);
            Sound(nodes) && Validate(COM, zone) && Hosts(COM) == [COM] &&
            UpdateSection(nodes, [COM], zone, true).Ok? &&
            (var now := Entries(UpdateSection(nodes, [COM], zone, true).value);
             [COM] in now && now[[COM]].soa == Authoritative(COM, 8).soa)
  {
    hide Entries, UpdateSection, Target, Sound, Validate, Hosts, Holder, Bumped, TwoRoots;
    var nodes, zone := TwoRoots(), Authoritative(COM, 7);
    TwoRootsAreSound();
    ComIsValid(7);
    ComIsFound();
    ComIsUpdated(7);
    UpdateRefines(nodes, COM, zone, true);
    BumpedAuthority(Entries(nodes)[[COM] := Assigned(zone)], [COM]);
  }

  // ---- An SOA record without authority ----

  function Flagless(): ZoneData {
    Authoritative(COM, 1).(authorative := false)
  }

  lemma FlaglessIsSound()
    ensures Sound([Leaf(Flagless())]) && Validate(COM, Flagless()) && Hosts(COM) == [COM]
  {
    LeafIsSound(Flagless());
    HostsOf([COM]);
    assert Join([COM]) == COM && Reverse([COM]) == [COM];
  }

  lemma FlaglessIsThere()
    ensures [COM] in Entries([Leaf(Flagless())]) && Entries([Leaf(Flagless())])[[COM]] == Flagless()
    ensures Target([Leaf(Flagless())], [COM]) == Some([COM])
  {
    var nodes := [Leaf(Flagless())];
    FlaglessIsSound();
    FindOnly(nodes, 0);
    LocateStep(nodes, [COM]);
    EntryOf(nodes, [COM]);
    TargetIs(nodes, [COM]);
  }

  /** A root "com" with an SOA record but without the authority flag cannot even be updated to what it is. */
  lemma UpdateWithoutAuthority()
    ensures var nodes, zone := [Leaf(Flagless())], Flagless();
            Sound(nodes) && zone.soa.Some? && !zone.authorative &&
            UpdateAlone(nodes, COM, zone, true) == Err(Validation)
  {
    var nodes, zone := [Leaf(Flagless())], Flagless();
    FlaglessIsSound();
    FlaglessIsThere();
    var m := Entries(nodes);
    UpdateRefines(nodes, COM, zone, true);
    ReplaceByFields(m, [COM], zone, true);
    assert forall k: nat :: !Counts(m, [COM], Some(zone), k) by {
      forall k: nat ensures !Counts(m, [COM], Some(zone), k) { NoFlagNoCount(m, zone, k); }
    }
    hide Entries, Target, UpdateSection, Sound, Validate, Replace, Counts;
  }

  lemma NoFlagNoCount(m: ZoneMap, zone: ZoneData, k: nat)
    requires !zone.authorative
    ensures !Counts(m, [COM], Some(zone), k)
  {
  }

  // ---- Children of a sibling that has moved ----

  /** "com" with "a.com", "b.com" and "a.b.com". */
  function Family(): Vector {
    var below := Vector(2, [Node(None, Blank(LA), None)]);
    var kids := Vector(1, [Node(None, Blank(LA), None), Node(None, Blank(LB), Some(below))]);
    Vector(0, [Node(None, Authoritative(COM, 1), Some(kids))])
  }

  lemma FamilyIsSound()
    ensures Sound(Unlinked(Family())) && Separate(InitAll(Family(), None))
  {
    var nodes := Unlinked(Family());
    var kids := nodes[0].Kids();
    LeafIsSound(Blank(LA));
    assert kids[1].Kids()[0] == Leaf(Blank(LA));
    assert Sound(kids[1].Kids());
    SoundNodeIs(kids[1]);
    assert kids[0] == Leaf(Blank(LA)) && kids[0].zone.name[0] != kids[1].zone.name[0];
    assert Sound(kids);
    SoundNodeIs(nodes[0]);
    var v := InitAll(Family(), None);
    var w := v.nodes[0].children.value;
    var x := w.nodes[1].children.value;
    assert Separate(x) && !Uses(x, 1) && !Uses(x, 0);
    assert Separate(w) && !Uses(w, 0);
  }

  lemma CousinIsThere(nodes: seq<ZoneNode>)
    requires |nodes| == 1 && nodes[0].zone.name == COM
    requires nodes[0].Kids() == [ZoneNode(Blank(LB), Engaged([Leaf(Blank(LA))]))]
    ensures Locate(nodes, [COM, LB, LA]) == Some([0, 0, 0]) && Level(nodes, [0]) == nodes[0].Kids()
  {
    var kids := nodes[0].Kids();
    assert [COM, LB, LA][1..] == [LB, LA] && [LB, LA][1..] == [LA];
    LocateStep(nodes, [COM, LB, LA]);
    LocateStep(kids, [LB, LA]);
    LocateStep(kids[0].Kids(), [LA]);
    FindOnly(nodes, 0);
    FindOnly(kids, 0);
    FindOnly(kids[0].Kids(), 0);
    assert [0] + [0] == [0, 0] && [0] + [0, 0] == [0, 0, 0];
  }

  lemma FamilyErased()
    ensures var v := InitAll(Family(), None);
            HasNode(v, [0, 0]) &&
            var nodes := Unlinked(EraseAt(v, [0, 0]));
            |nodes| == 1 && nodes[0].zone.name == COM &&
            nodes[0].Kids() == [ZoneNode(Blank(LB), Engaged([Leaf(Blank(LA))]))]
  {
    var v := InitAll(Family(), None);
    var w := v.nodes[0].children.value;
    assert [0, 0][..1] == [0] && [0, 0][1..] == [0] && [0][..0] == [] && [0][1..] == [];
    assert HasLevel(v, [0]) && VecAt(v, [0]) == w;
    var r := EraseAt(w, [0]);
    assert EraseAt(v, [0, 0]).nodes[0].children == Some(r);
    var x := w.nodes[1].children.value;
    assert Unlinked(x)[0] == Leaf(Blank(LA));
    assert Unlinked(x) == [Leaf(Blank(LA))];
    assert r.nodes[0] == w.nodes[1];
    assert Unlinked(r)[0] == ZoneNode(Blank(LB), Engaged([Leaf(Blank(LA))]));
    assert Unlinked(EraseAt(v, [0, 0]))[0].Kids() == Unlinked(r);
  }

  /** After a delete of "a.com" the zone "a.b.com" is in the tree, but LookupName does not find it. */
  lemma DeleteHidesCousin()
    ensures var v, domain := InitAll(Family(), None), Join([LA, LB, COM]);
            Coherent(v, None) && Sound(Unlinked(v)) && HasNode(v, [0, 0]) &&
            (var r := EraseAt(v, [0, 0]);
             Hosts(domain) in Entries(Unlinked(r)) && Join(Key(domain)) == domain && !FoundByName(r, domain))
  {
    hide InitAll, Family, EraseAt, Unlinked, Coherent, Separate, Sound, HasNode, FoundByName, Join, Key, Hosts, Locate,
         Level;
    FamilyErased();
    var v := InitAll(Family(), None);
    var r := EraseAt(v, [0, 0]);
    InitIsCoherent(Family(), None);
    FamilyIsSound();
    HostsOf([LA, LB, COM]);
    assert Reverse([LA, LB, COM]) == [COM, LB, LA];
    CousinIsThere(Unlinked(r));
    EntryOf(Unlinked(r), [COM, LB, LA]);
    assert [0, 0][..1] == [0] && [0, 0, 0][..1] == [0];
    FoundAfterErase(v, [0, 0], Join([LA, LB, COM]));
  }
}
