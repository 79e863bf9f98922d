/** Questions to which the name server gives an answer that its zones do not, and one that it gets right. */
module ServingExamples {
  import opened Bytes
  import opened DomainNames
  import opened Zones
  import opened ZoneTrees
  import opened ZoneMaps
  import opened ZoneSections
  import opened LabelHeaders
  import opened Messages
  import opened Answers
  import opened DnsPlans
  import opened AnswersByType
  import opened ZoneExamples
  import opened ZoneServing

  function Ask(labels: seq<bytes>, qtype: uint16): Question {
    Question(labels, 0, 0, qtype, CLASS_IN, 12)
  }

  // ---- A name that is not there ----

  /** "com" with "a.com", and with "b.com" that has the text "a". */
  function TextZone(): seq<ZoneNode> {
    [ZoneNode(Authoritative(COM, 1), Engaged([Leaf(Blank(LA)), Leaf(Blank(LB).(txt := Some(LA)))]))]
  }

  lemma TextZoneIsSound()
    ensures Sound(TextZone())
  {
    var kids := TextZone()[0].Kids();
    LeafIsSound(Blank(LA));
    LeafIsSound(Blank(LB).(txt := Some(LA)));
    assert kids[0].zone.name[0] != kids[1].zone.name[0];
    assert Sound(kids);
    SoundNodeIs(TextZone()[0]);
  }

  lemma TextIsFound()
    ensures Locate(TextZone(), [COM, LA, LB]).None? && SearchFrom(TextZone(), [COM, LA, LB]) == Some([0, 1])
  {
    var nodes := TextZone();
    var kids := nodes[0].Kids();
    TextZoneIsSound();
    SoundAt(nodes, [0]);
    FindOnly(nodes, 0);
    FindOnly(kids, 0);
    FindOnly(kids, 1);
    OnlyFull(nodes, COM);
    OnlyFull(kids, LA);
    assert [COM, LA, LB][1..] == [LA, LB] && [LA, LB][1..] == [LB] && [0] + [1] == [0, 1];
    SearchUnfold(nodes, [COM, LA, LB]);
    SearchUnfold(kids, [LA, LB]);
    SearchUnfold(kids, [LB]);
    LocateStep(nodes, [COM, LA, LB]);
    LocateStep(kids, [LA, LB]);
  }

  /** Asked for the text of "b.a.com", which does not exist, the json store has that of "b.com". */
  lemma MissingNameIsAnswered()
    ensures var tree, q := TextZone(), Ask([LB, LA, COM], TYPE_TXT);
            Sound(tree) && Reverse(q.labels) !in Entries(tree) &&
            JsonStore(tree).PlanQuestion(q).Ok? &&
            JsonStore(tree).PlanQuestion(q).value.answers == [Planned(AtQuestion(q), Txt(LA))]
  {
    var tree, q := TextZone(), Ask([LB, LA, COM], TYPE_TXT);
    TextZoneIsSound();
    TextIsFound();
    assert Reverse(q.labels) == [COM, LA, LB];
    EntryOf(tree, [COM, LA, LB]);
    assert [0, 1][1..] == [1];
    assert At(tree, [0, 1]).zone == Blank(LB).(txt := Some(LA));
    hide SearchFrom, Locate;
    assert JsonStore(tree).MainAnswers(q, ZoneAt(tree, [0, 1])) == [];
    assert [] + [Planned(AtQuestion(q), Txt(LA))] == [Planned(AtQuestion(q), Txt(LA))];
  }

  // ---- A query for everything ----

  function AddressedRoot(): seq<ZoneNode> {
    [Leaf(Authoritative(COM, 1).(a := Some([[10, 0, 0, 1]])))]
  }

  lemma RootIsSearched(tree: seq<ZoneNode>)
    requires |tree| == 1 && tree[0].zone.name == COM
    ensures SearchFrom(tree, [COM]) == Some([0])
  {
    FindOnly(tree, 0);
    SearchUnfold(tree, [COM]);
  }

  lemma RootIsFound(q: Question)
    requires q.labels == [COM]
    ensures var z := AddressedRoot()[0].zone;
            JsonStore(AddressedRoot()).lookup(q.labels).zone == Some(Zone([0], z, None)) &&
            z.HaveAddress() && !z.HaveCname() && !z.HaveTxt()
  {
    var tree := AddressedRoot();
    assert tree[0].zone.a.value != [] && tree[0].zone.Cname() == [] == tree[0].zone.Text();
    RootIsSearched(tree);
    hide SearchFrom, AddressedRoot, Authoritative;
    assert Reverse(q.labels) == [COM];
    assert ZoneAt(tree, [0]) == Zone([0], tree[0].zone, None);
  }

  /** Asked for all types of "com", which has an address, the server has nothing to say. */
  lemma AddressIsWithheld()
    ensures var tree, q := AddressedRoot(), Ask([COM], QTYPE_ALL);
            JsonStore(tree).PlanQuestion(q).Ok? && JsonStore(tree).PlanQuestion(q).value.answers == [] &&
            JsonStore(tree).lookup(q.labels).zone.Some? &&
            JsonStore(tree).lookup(q.labels).zone.value.data.HaveAddress()
  {
    var mgr, q := JsonStore(AddressedRoot()), Ask([COM], QTYPE_ALL);
    var z := Zone([0], AddressedRoot()[0].zone, None);
    RootIsFound(q);
    hide JsonStore, AddressedRoot, PlanA, PlanAaaa;
    assert mgr.AddressAnswers(q, z) == [] && mgr.TextAnswers(q, z) == [];
    assert mgr.MainAnswers(q, z) == [];
    hide ZoneMgr.AddressAnswers, ZoneMgr.TextAnswers, ZoneMgr.MainAnswers;
    assert mgr.PlanQuestion(q).Ok?;
  }

  /** Asked for the address itself, it answers with that. */
  lemma AddressIsServed()
    ensures var tree, q := AddressedRoot(), Ask([COM], 1);
            JsonStore(tree).PlanQuestion(q).Ok? &&
            JsonStore(tree).PlanQuestion(q).value.answers == [Planned(AtQuestion(q), A([10, 0, 0, 1]))]
  {
    var mgr, q := JsonStore(AddressedRoot()), Ask([COM], 1);
    RootIsFound(q);
    QuestionIs(mgr, q);
    var data := AddressedRoot()[0].zone;
    assert ListOf(data.a) == [[10, 0, 0, 1]] && data.a.value[0] == [10, 0, 0, 1];
    hide JsonStore, AddressedRoot, ZoneMgr.PlanQuestion, AliasOf, Ancestor, Nearest, NoSoa;
    assert !IsAlias(data);
  }
}
