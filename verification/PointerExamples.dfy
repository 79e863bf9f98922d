/** Trees in force on which stale pointers hide a zone, or lead past the SOA record of another. */
module PointerExamples {
  import opened Bytes
  import opened DomainNames
  import opened Zones
  import opened ZoneTrees
  import opened ZoneMaps
  import opened ZoneSections
  import opened ParentPointers
  import opened PointersInForce
  import opened ParentWalks
  import opened ZoneExamples

  // "c", and the chain of nodes that a create of "c.com" appends
  const LC: bytes := [99]

  function Third(): Node {
    Node(Some(Slot(0, 0)), Blank(LC), None)
  }

  lemma FamilyLeads(nodes: seq<ZoneNode>)
    requires |nodes| == 1 && nodes[0].zone.name == COM && |nodes[0].Kids()| == 2
    requires nodes[0].Kids()[0].zone.name == LA && nodes[0].Kids()[1].zone.name == LB
    ensures Leads(nodes, [COM], [0]) && Locate(nodes, [COM, LC]).None?
  {
    FindOnly(nodes, 0);
    LocateStep(nodes, [COM]);
    LocateStep(nodes, [COM, LC]);
    assert [COM, LC][1..] == [LC];
    LocateStep(nodes[0].Kids(), [LC]);
  }

  lemma FamilyAppended()
    ensures var r := AppendAt(InitAll(Family(), None), [0], Third(), 7); Separate(r) && !Uses(r, 1)
  {
    var r := AppendAt(InitAll(Family(), None), [0], Third(), 7);
    assert [0][1..] == [];
    var w := r.nodes[0].children.value;
    var x := w.nodes[1].children.value;
    assert Separate(x) && !Uses(x, 7) && !Uses(x, 0) && !Uses(x, 1);
    assert Separate(w) && !Uses(w, 0) && !Uses(w, 1);
  }

  /** Where "c.com" is created in the family of "com": below the root, in another buffer. */
  lemma FamilyExtends()
    ensures var v := InitAll(Family(), None);
            Extends(v, [COM, LC], [0], Third(), 7) && Allocated(v, [0], Third(), 7) && VecAt(v, [0]).buf == 1 &&
            |VecAt(v, [0]).nodes| == 2
  {
    var v := InitAll(Family(), None);
    var w := v.nodes[0].children.value;
    assert [0][1..] == [] && [0][..0] == [];
    assert HasLevel(v, [0]) && VecAt(v, [0]) == w;
    FamilyLeads(Unlinked(v));
    assert [COM, LC][..1] == [COM] && [COM, LC][..2] == [COM, LC] && [COM, LC][1..] == [LC];
    assert Placed(v, None, [0], Third(), 7);
    FamilyAppended();
  }

  /** The tree that the create commits. */
  function Three(): seq<ZoneNode> {
    [ZoneNode(Authoritative(COM, 2),
              Engaged([Leaf(Blank(LA)), ZoneNode(Blank(LB), Engaged([Leaf(Blank(LA))])), Leaf(Assigned(Blank(LC)))]))]
  }

  /** The zones below "com" after the create, before the new one has data. */
  function Siblings(): seq<ZoneNode> {
    [Leaf(Blank(LA)), ZoneNode(Blank(LB), Engaged([Leaf(Blank(LA))])), Leaf(Blank(LC))]
  }

  lemma ThirdIsThere(g: seq<ZoneNode>)
    requires |g| == 1 && g[0].zone.name == COM && |g[0].Kids()| == 3 && g[0].Kids()[2].zone.name == LC
    ensures Locate(g, [COM, LC]) == Some([0, 2])
  {
    assert [COM, LC][1..] == [LC] && [0] + [2] == [0, 2];
    FindOnly(g, 0);
    LocateStep(g, [COM, LC]);
    LocateStep(g[0].Kids(), [LC]);
  }

  lemma ThirdIsRenewed(g: seq<ZoneNode>)
    requires g == [ZoneNode(Authoritative(COM, 1), Engaged(Siblings()))]
    ensures ValidCursor(g, [0, 2]) && Renewed(g, [0, 2], Blank(LC), true) == Ok(Three())
  {
    assert [0, 2][1..] == [2] && [0, 2][..1] == [0] && [0, 2][..2] == [0, 2];
    assert NextSerial(Authoritative(COM, 1)) == Authoritative(COM, 2);
    var kids, x := g[0].Kids(), Leaf(Assigned(Blank(LC)));
    assert With(kids, [2], x) == [kids[0], kids[1], x];
    var h := [ZoneNode(Authoritative(COM, 1), Engaged([kids[0], kids[1], x]))];
    assert SetData(g, [0, 2], Assigned(Blank(LC))) == h;
    assert HolderAt(h, [0, 2]) == 1;
    assert BumpAt(h, [0, 2]) == Three();
  }

  lemma ThreeIsGrown(nodes: seq<ZoneNode>)
    requires nodes == Unlinked(Family())
    ensures Locate(nodes, [COM, LC]).None?
    ensures Grown(nodes, [COM, LC]) == [ZoneNode(Authoritative(COM, 1), Engaged(Siblings()))]
  {
    assert nodes[0].Kids()[1].Kids() == [Leaf(Blank(LA))];
    FamilyLeads(nodes);
    assert [COM, LC][..1] == [COM] && [COM, LC][..2] == [COM, LC] && [COM, LC][1..] == [LC];
    hide Grown, Locate, Leads;
    GrownAt(nodes, [COM, LC], [0]);
    assert Level(nodes, [0]) + [Chained([LC])] == Siblings();
  }

  lemma ThreeIsCommitted()
    ensures CreateSection(Unlinked(InitAll(Family(), None)), [COM, LC], Blank(LC), true) == Ok(Three())
  {
    hide Grown, Locate, Unlinked, Family, InitAll, Renewed;
    InitIsCoherent(Family(), None);
    ThreeIsGrown(Unlinked(Family()));
    var g := [ZoneNode(Authoritative(COM, 1), Engaged(Siblings()))];
    ThirdIsThere(g);
    ThirdIsRenewed(g);
  }

  lemma CousinInThree()
    ensures Locate(Three(), [COM, LB, LA]) == Some([0, 1, 0])
  {
    var kids := Three()[0].Kids();
    assert kids[0].zone.name != LB && kids[2].zone.name != LB;
    assert [COM, LB, LA][1..] == [LB, LA] && [LB, LA][1..] == [LA];
    LocateStep(Three(), [COM, LB, LA]);
    LocateStep(kids, [LB, LA]);
    LocateStep(kids[1].Kids(), [LA]);
    FindOnly(Three(), 0);
    FindOnly(kids[1].Kids(), 0);
    assert [1] + [0] == [1, 0] && [0] + [1, 0] == [0, 1, 0];
  }

  /** After a create of "c.com" that moves its siblings, "a.b.com" is in the tree, but LookupName does not find it. */
  lemma CreateHidesCousin()
    ensures var v, domain, host := InitAll(Family(), None), Join([LA, LB, COM]), Join([LC, COM]);
            Coherent(v, None) && Sound(Unlinked(v)) && Hosts(host) == [COM, LC] && Validate(host, Blank(LC)) &&
            Extends(v, Hosts(host), [0], Third(), 7) && Allocated(v, [0], Third(), 7) &&
            CreateSection(Unlinked(v), Hosts(host), Blank(LC), true).Ok? &&
            (var w := Created(v, Hosts(host), [0], Third(), 7, Blank(LC));
             Unlinked(w) == Three() &&
             Hosts(domain) in Entries(Three()) && Join(Key(domain)) == domain && !FoundByName(w, domain))
  {
    hide InitAll, Family, Unlinked, Coherent, Separate, Sound, HasNode, FoundByName, Join, Key, Hosts, Locate, Level,
         Extends, Allocated, CreateSection, Created, VecAt, Three;
    var v, domain, host := InitAll(Family(), None), Join([LA, LB, COM]), Join([LC, COM]);
    FamilyExtends();
    ThreeIsCommitted();
    InitIsCoherent(Family(), None);
    FamilyIsSound();
    HostsOf([LA, LB, COM]);
    HostsOf([LC, COM]);
    assert Reverse([LA, LB, COM]) == [COM, LB, LA] && Reverse([LC, COM]) == [COM, LC];
    CousinInThree();
    EntryOf(Three(), [COM, LB, LA]);
    assert [0, 1, 0][..1] == [0];
    FoundAfterCreate(v, host, [0], Third(), 7, Blank(LC), true, domain);
  }

  // ---- An SOA record that is not found ----

  /** The family after a delete of "a.com", with its pointers. */
  lemma FamilyDeleted()
    ensures var v := InitAll(Family(), None);
            HasNode(v, [0, 0]) &&
            var w := Deleted(v, [0, 0]);
            HasNode(w, [0, 0, 0]) && NodeAt(w, [0, 0, 0]).zone == Blank(LA) &&
            HasLevel(w, [0]) && |VecAt(w, [0]).nodes| == 1
  {
    var v := InitAll(Family(), None);
    var k := v.nodes[0].children.value;
    assert [0, 0][..1] == [0] && [0, 0][1..] == [0] && [0][..0] == [] && [0][1..] == [];
    assert HasLevel(v, [0]) && VecAt(v, [0]) == k;
    SameCursors(v, [0, 0]);
    assert HasNode(v, [0]) && HolderAt(Unlinked(v), [0, 0]) == 1 by { SameCursors(v, [0]); }
    var r := CountAt(v, [0, 0]);
    assert r == SetDataAt(v, [0], NextSerial(NodeAt(v, [0]).zone));
    assert r.nodes[0].children.value == k;
    var w := EraseAt(r, [0, 0]);
    assert HasLevel(r, [0]) && VecAt(r, [0]) == k;
    assert w.nodes[0].children == Some(EraseAt(k, [0]));
    var l := EraseAt(k, [0]);
    assert l.nodes == [k.nodes[1]];
    assert HasLevel(w, [0]) && VecAt(w, [0]) == l;
    assert [0, 0, 0][..2] == [0, 0];
    assert HasLevel(w, [0, 0]) && VecAt(w, [0, 0]) == k.nodes[1].children.value;
  }

  /**
   * On that tree the SOA record of "a.b.com" is not found: the pointer of the zone leads to where its parent
   * was, and there nothing lies. It is in "com".
   */
  lemma DeleteLosesSoa()
    ensures var v := InitAll(Family(), None);
            Coherent(v, None) && Separate(v) && HasNode(v, [0, 0]) &&
            var w, was := Deleted(v, [0, 0]), LessOne(Slots(VecAt(v, [0])), 0);
            LeftBehind(w, [0], was) && HasNode(w, [0, 0, 0]) &&
            SoaAlong(w, [0], was, [0, 0, 0]) != SoaAbove(w, [0, 0, 0])
  {
    var v := InitAll(Family(), None);
    hide InitAll, Family, Coherent, Separate, HasNode, HasLevel, NodeAt, VecAt, Deleted, LeftBehind, SoaAlong, SoaAbove;
    InitIsCoherent(Family(), None);
    FamilyIsSound();
    FamilyDeleted();
    var w := Deleted(v, [0, 0]);
    assert [0, 0][..1] == [0] && [0, 0, 0][..1] == [0] && [0, 0, 0][..2] == [0, 0];
    SoaAfterDelete(v, [0, 0], [0, 0, 0]);
    assert !SoaBelow(w, 2, [0, 0, 0]);
  }
}
