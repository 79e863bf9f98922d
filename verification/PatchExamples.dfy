/** Runs in which a patch, merged with what it read before it had the mutex, writes what nobody asked for. */
module PatchExamples {
  import opened Bytes
  import opened DomainNames
  import opened Zones
  import opened ZoneTrees
  import opened ZoneMaps
  import opened ZoneSections
  import opened RestHandlers
  import opened ZoneRuns
  import opened PatchRuns
  import opened ZoneExamples

  // ---- A zone deleted between the reading and the turn ----

  /** "com" with "a.com", "b.a.com" and "b.com". */
  function Branches(): seq<ZoneNode> {
    [ZoneNode(Authoritative(COM, 1), Engaged([ZoneNode(Blank(LA), Engaged([Leaf(Blank(LB))])), Leaf(Blank(LB))]))]
  }

  /** The same after a delete of "b.a.com". */
  function Pruned(): seq<ZoneNode> {
    [ZoneNode(Authoritative(COM, 2), Engaged([ZoneNode(Blank(LA), Engaged([])), Leaf(Blank(LB))]))]
  }

  /** The text "a" for a zone of this name. */
  function Texted(l: bytes): ZoneData {
    Blank(l).(txt := Some(LA))
  }

  lemma BranchesAreSound()
    ensures Sound(Branches())
  {
    var kids := Branches()[0].Kids();
    LeafIsSound(Blank(LB));
    assert Sound(kids[0].Kids());
    SoundNodeIs(kids[0]);
    assert kids[0].zone.name[0] != kids[1].zone.name[0];
    assert Sound(kids);
    SoundNodeIs(Branches()[0]);
  }

  lemma BranchIsThere()
    ensures Locate(Branches(), [COM, LA, LB]) == Some([0, 0, 0]) && At(Branches(), [0, 0, 0]).zone == Blank(LB)
  {
    var nodes := Branches();
    var kids := nodes[0].Kids();
    BranchesAreSound();
    SoundAt(nodes, [0]);
    FindOnly(nodes, 0);
    FindOnly(kids, 0);
    FindOnly(kids[0].Kids(), 0);
    assert [COM, LA, LB][1..] == [LA, LB] && [LA, LB][1..] == [LB];
    LocateStep(nodes, [COM, LA, LB]);
    LocateStep(kids, [LA, LB]);
    LocateStep(kids[0].Kids(), [LB]);
    assert [0] + [0] == [0, 0] && [0] + [0, 0] == [0, 0, 0];
    assert [0, 0, 0][1..] == [0, 0] && [0, 0][1..] == [0];
  }

  function Counted(): seq<ZoneNode> {
    [ZoneNode(Authoritative(COM, 2), Branches()[0].children)]
  }

  lemma BranchIsCounted()
    ensures ValidCursor(Branches(), [0, 0, 0]) && HolderAt(Branches(), [0, 0, 0]) == 1
    ensures BumpAt(Branches(), [0, 0, 0]) == Counted()
  {
    var nodes, c := Branches(), [0, 0, 0];
    assert c[..1] == [0] && c[..2] == [0, 0] && c[1..] == [0, 0] && [0, 0][1..] == [0] && [0, 0][..1] == [0];
    assert HolderAt(nodes, c) == 1;
    assert NextSerial(Authoritative(COM, 1)) == Authoritative(COM, 2);
  }

  lemma BranchIsErased()
    ensures ValidCursor(Counted(), [0, 0, 0]) && Erased(Counted(), [0, 0, 0]) == Pruned()
  {
    var nodes, c := Counted(), [0, 0, 0];
    var kids, bare := nodes[0].Kids(), ZoneNode(Blank(LA), Engaged([]));
    assert c[..2] == [0, 0] && c[1..] == [0, 0] && [0, 0][1..] == [0] && c[2] == 0;
    assert Without([Leaf(Blank(LB))], 0) == [];
    assert At(nodes, [0, 0]) == kids[0] && Level(nodes, [0, 0]) == [Leaf(Blank(LB))];
    assert With(kids, [0], bare) == [bare, Leaf(Blank(LB))];
    assert WithLevel(nodes, [0, 0], []) == With(nodes, [0, 0], bare) == Pruned();
  }

  lemma BranchIsPruned()
    ensures DeleteSection(Branches(), [COM, LA, LB], true) == Ok(Pruned())
  {
    var nodes, p, c := Branches(), [COM, LA, LB], [0, 0, 0];
    BranchesAreSound();
    BranchIsThere();
    SearchIsExact(nodes, p);
    hide SearchFrom, Locate, Sound, Branches, Pruned, HolderAt, BumpAt, ValidCursor, At;
    BranchIsCounted();
    BranchIsErased();
  }

  lemma PrunedIsSound()
    ensures Sound(Pruned())
  {
    BranchesAreSound();
    DeleteRefines(Branches(), [COM, LA, LB], true);
    BranchIsPruned();
  }

  lemma PrunedStalls()
    ensures SearchFrom(Pruned(), [COM, LA, LB]) == Some([0, 1]) && PathOf(Pruned(), [0, 1]) == [COM, LB]
  {
    var nodes := Pruned();
    var kids := nodes[0].Kids();
    PrunedIsSound();
    SoundAt(nodes, [0]);
    FindOnly(nodes, 0);
    FindOnly(kids, 0);
    FindOnly(kids, 1);
    OnlyFull(nodes, COM);
    OnlyFull(kids, LA);
    assert [COM, LA, LB][1..] == [LA, LB] && [LA, LB][1..] == [LB];
    SearchUnfold(nodes, [COM, LA, LB]);
    SearchUnfold(kids, [LA, LB]);
    SearchUnfold(kids, [LB]);
    assert [0] + [1] == [0, 1] && [0, 1][1..] == [1];
  }

  /** The domain "b.a.com", the patch that reads it, and the delete that comes first. */
  function BranchName(): bytes {
    Join([LB, LA, COM])
  }

  function PatchAndDelete(): seq<Request> {
    [Patch(BranchName(), Texted(LB)), Ask(Delete(BranchName()))]
  }

  lemma BranchHosts()
    ensures Key(BranchName()) == [LB, LA, COM] && Hosts(BranchName()) == [COM, LA, LB] && Plain(BranchName())
  {
    HostsOf([LB, LA, COM]);
    assert Reverse([LB, LA, COM]) == [COM, LA, LB];
    assert Join([]) == [];
  }

  lemma PatchReads()
    ensures Key(BranchName()) != [] &&
            Resolved(BranchName(), Texted(LB), Branches()) == Update(BranchName(), Merged(Texted(LB), Blank(LB)))
    ensures Validate(BranchName(), Merged(Texted(LB), Blank(LB)))
  {
    hide Plain, Hosts, Key, BranchName, Sound, Locate, At;
    BranchHosts();
    BranchesAreSound();
    BranchIsThere();
    EntryOf(Branches(), [COM, LA, LB]);
    PatchDecision(Branches(), BranchName(), Texted(LB));
  }

  /** A root with this label is in the map. */
  lemma RootEntry(nodes: seq<ZoneNode>, l: bytes)
    requires |nodes| == 1 && nodes[0].zone.name == l
    ensures [l] in Entries(nodes) && Entries(nodes)[[l]] == nodes[0].zone
  {
    FindOnly(nodes, 0);
    LocateStep(nodes, [l]);
    EntryOf(nodes, [l]);
  }

  lemma RootHolds(m: ZoneMap, p: Path)
    requires |p| > 0 && Authority(m, p[..1])
    ensures Holder(m, p) > 0
  {
  }

  lemma SectionIs(op: Operation, tree: seq<ZoneNode>)
    requires Section(op, tree, true).Ok?
    ensures FailureIn(op, tree) == None && After(op, tree) == Section(op, tree, true).value
  {
  }

  /** An entry elsewhere does not take away the authority at the root. */
  lemma RootRules(nodes: seq<ZoneNode>, p: Path, d: ZoneData)
    requires [COM] in Entries(nodes) && Entries(nodes)[[COM]].IsAuthority() && p != [COM]
    ensures Authority(Entries(nodes)[p := d], [COM])
  {
    hide Entries;
  }

  lemma PrunedTarget()
    ensures Sound(Pruned()) && Target(Pruned(), Hosts(BranchName())) == Some([COM, LB])
    ensures [COM, LA, LB] !in Entries(Pruned())
    ensures [COM] in Entries(Pruned()) && Entries(Pruned())[[COM]].IsAuthority()
  {
    PrunedIsSound();
    PrunedStalls();
    RootEntry(Pruned(), COM);
    BranchHosts();
    TargetIs(Pruned(), [COM, LA, LB]);
  }

  /** The update that the patch has become, on the tree without its zone. */
  lemma StrayUpdate()
    ensures var op := Update(BranchName(), Merged(Texted(LB), Blank(LB)));
            FailureIn(op, Pruned()) == None &&
            var now := Entries(After(op, Pruned()));
            [COM, LB] in now && now[[COM, LB]].Text() == LA && [COM, LA, LB] !in now
  {
    hide Section, Sound, Pruned, BranchName, Key, Plain, Validate, Holder, After, FailureIn, Hosts, Authority;
    var nodes, x := Pruned(), Merged(Texted(LB), Blank(LB));
    PrunedTarget();
    PatchReads();
    assert [COM, LB][..1] == [COM];
    RootRules(nodes, [COM, LB], Assigned(x));
    RootHolds(Entries(nodes)[[COM, LB] := Assigned(x)], [COM, LB]);
    UpdateStoresAt(nodes, BranchName(), x, true, [COM, LB]);
    SectionIs(Update(BranchName(), x), nodes);
  }

  lemma BothAreReady()
    ensures var requests, tree := PatchAndDelete(), Branches();
            var x, y := Update(BranchName(), Merged(Texted(LB), Blank(LB))), Delete(BranchName());
            |requests| == 2 &&
            Run(requests, Initial(requests, tree), ToTheMutex(requests)) == Some(AtTheMutex(requests, tree, x, y))
  {
    hide Run, Branches, BranchName, Key, Validate, Resolved, Initial, AtTheMutex, ToTheMutex;
    PatchReads();
    BothCome(PatchAndDelete(), Branches(), Update(BranchName(), Merged(Texted(LB), Blank(LB))), Delete(BranchName()));
  }

  lemma DeleteComesFirst()
    ensures var y := Delete(BranchName());
            After(y, Branches()) == Pruned() && FailureIn(y, Branches()) == None
  {
    hide Branches, Pruned, BranchName, Hosts, DeleteSection;
    BranchHosts();
    BranchIsPruned();
  }

  /**
   * A patch of "b.a.com" reads the zone, another thread deletes it, and then the patch commits, without an
   * error: the text that was meant for "b.a.com" is that of "b.com".
   */
  lemma PatchOfDeletedZone()
    ensures var run := Run(PatchAndDelete(), Initial(PatchAndDelete(), Branches()),
                           ToTheMutex(PatchAndDelete()) + Turn(1) + Turn(0));
            Sound(Branches()) && run.Some? && |run.value.threads| == 2 &&
            run.value.threads[0] == Done(None, Some(1)) && run.value.threads[1] == Done(None, Some(0)) &&
            (var now := Entries(run.value.zones);
             [COM, LB] in now && now[[COM, LB]].Text() == LA && [COM, LA, LB] !in now)
  {
    var requests, tree := PatchAndDelete(), Branches();
    var x, y := Update(BranchName(), Merged(Texted(LB), Blank(LB))), Delete(BranchName());
    BothAreReady();
    hide *;
    BranchesAreSound();
    TwoTurns(requests, tree, x, y, 1);
    DeleteComesFirst();
    StrayUpdate();
  }

  // ---- Two patches of one zone ----

  /** One patch gives "a.com" a text, the other one says that it has no name servers. */
  function TwoPatches(): seq<Request> {
    [Patch(Join([LA, COM]), Texted(LA)), Patch(Join([LA, COM]), Blank(LA).(ns := Some([])))]
  }

  lemma LeafName()
    ensures var d := Join([LA, COM]); Key(d) == [LA, COM] && Hosts(d) == [COM, LA] && Plain(d)
  {
    HostsOf([LA, COM]);
    assert Reverse([LA, COM]) == [COM, LA];
    assert Join([]) == [];
  }

  lemma LeafIsThere()
    ensures [COM, LA] in Entries(OneZone()) && Entries(OneZone())[[COM, LA]] == Blank(LA)
  {
    var nodes := OneZone();
    var kids := nodes[0].Kids();
    OneZoneIsSound();
    SoundAt(nodes, [0]);
    FindOnly(nodes, 0);
    FindOnly(kids, 0);
    assert [COM, LA][1..] == [LA];
    LocateStep(nodes, [COM, LA]);
    LocateStep(kids, [LA]);
    assert [0] + [0] == [0, 0] && [0, 0][1..] == [0];
    EntryOf(nodes, [COM, LA]);
  }

  lemma LeafPatch(body: ZoneData)
    requires body.name == LA && !body.HaveCname()
    ensures var d := Join([LA, COM]);
            Resolved(d, body, OneZone()) == Update(d, Merged(body, Blank(LA))) &&
            Validate(d, Merged(body, Blank(LA)))
  {
    hide Entries, Plain, Hosts, Key, Join, Sound, OneZone;
    LeafName();
    OneZoneIsSound();
    LeafIsThere();
    PatchDecision(OneZone(), Join([LA, COM]), body);
  }

  /** What the two patches have become. */
  function GivenText(): ZoneData {
    Merged(Texted(LA), Blank(LA))
  }

  function GivenServers(): ZoneData {
    Merged(Blank(LA).(ns := Some([])), Blank(LA))
  }

  lemma BothPatchesAreReady()
    ensures var d, requests, tree := Join([LA, COM]), TwoPatches(), OneZone();
            |requests| == 2 &&
            Run(requests, Initial(requests, tree), ToTheMutex(requests)) ==
              Some(AtTheMutex(requests, tree, Update(d, GivenText()), Update(d, GivenServers())))
  {
    hide Run, OneZone, Join, Key, Validate, Resolved, Initial, AtTheMutex, ToTheMutex;
    LeafName();
    LeafPatch(Texted(LA));
    LeafPatch(Blank(LA).(ns := Some([])));
    BothCome(TwoPatches(), OneZone(), Update(Join([LA, COM]), GivenText()), Update(Join([LA, COM]), GivenServers()));
  }

  lemma LeafRoot()
    ensures Sound(OneZone()) && [COM] in Entries(OneZone()) && Entries(OneZone())[[COM]].IsAuthority()
  {
    OneZoneIsSound();
    RootEntry(OneZone(), COM);
  }

  lemma TextIsLost()
    ensures var d, tree := Join([LA, COM]), OneZone();
            var x, y := Update(d, GivenText()), Update(d, GivenServers());
            FailureIn(x, tree) == None && FailureIn(y, After(x, tree)) == None &&
            var now := Entries(After(y, After(x, tree)));
            [COM, LA] in now && now[[COM, LA]].Text() == []
  {
    var d, tree, p := Join([LA, COM]), OneZone(), [COM, LA];
    var x, y := GivenText(), GivenServers();
    var m := Entries(tree);
    LeafRoot();
    LeafPatch(Texted(LA));
    LeafPatch(Blank(LA).(ns := Some([])));
    hide Entries, Sound, OneZone, Hosts, Key, Join, Validate, Section, Holder, Plain, Bumped, After, FailureIn,
         Authority;
    LeafName();
    LeafIsThere();
    assert p[..1] == [COM];
    RootRules(tree, p, Assigned(x));
    RootHolds(m[p := Assigned(x)], p);
    RootRules(tree, p, Assigned(y));
    RootHolds(m[p := Assigned(y)], p);
    UpdateStores(tree, d, x, true);
    SectionKeepsSound(Update(d, x), tree, true);
    SectionIs(Update(d, x), tree);
    SameAuthorities(m, p, Assigned(x), Assigned(y));
    UpdateStores(After(Update(d, x), tree), d, y, true);
    SectionIs(Update(d, y), After(Update(d, x), tree));
  }

  /** Both patches have committed, and the text that the first one gave is gone. */
  lemma LaterPatchWins()
    ensures var run := Run(TwoPatches(), Initial(TwoPatches(), OneZone()),
                           ToTheMutex(TwoPatches()) + Turn(0) + Turn(1));
            Sound(OneZone()) && run.Some? && |run.value.threads| == 2 &&
            run.value.threads[0] == Done(None, Some(0)) && run.value.threads[1] == Done(None, Some(1)) &&
            (var now := Entries(run.value.zones); [COM, LA] in now && now[[COM, LA]].Text() == [])
  {
    var d, requests, tree := Join([LA, COM]), TwoPatches(), OneZone();
    BothPatchesAreReady();
    hide *;
    OneZoneIsSound();
    TwoTurns(requests, tree, Update(d, GivenText()), Update(d, GivenServers()), 0);
    TextIsLost();
  }
}
