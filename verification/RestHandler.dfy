/** What a request to the REST interface does to the zone store: create, update, or merge and update. */
module RestHandlers {
  import opened Bytes
  import opened DomainNames
  import opened Zones
  import opened ZoneTrees
  import opened ZoneMaps
  import opened ZoneSections
  import opened AuthorityFields
  import opened ZoneMgrJsons

  // ---- Merge ----

  function Or<T>(a: Option<T>, b: Option<T>): Option<T> {
    if a.Some? then a else b
  }

  /** Whether a zone says anything about where its name leads. */
  predicate Directs(zone: ZoneData) {
    zone.a.Some? || zone.aaaa.Some? || zone.cname.Some?
  }

  /** The zone with the fields it leaves open filled from the existing one; an alias shuts out addresses. */
  function Merged(zone: ZoneData, existing: ZoneData): ZoneData {
    ZoneData(zone.name, Or(zone.soa, existing.soa), zone.authorative, Or(zone.txt, Some(existing.Text())),
             if zone.HaveCname() then zone.a else Or(zone.a, existing.a),
             if zone.HaveCname() then zone.aaaa else Or(zone.aaaa, existing.aaaa),
             if Directs(zone) then zone.cname else Some(existing.Cname()),
             Or(zone.ns, existing.ns), Or(zone.mx, existing.mx))
  }

  method Merge(zone: ZoneData, existing: ZoneData) returns (r: ZoneData)
    ensures r == Merged(zone, existing)
  {
    r := zone;
    if r.soa.None? { r := r.(soa := existing.soa); }
    if r.a.None? && r.aaaa.None? && r.cname.None? {
      r := r.(a := existing.a);
      r := r.(aaaa := existing.aaaa);
      r := r.(cname := Some(existing.Cname()));
    } else if r.cname.None? || r.cname.value == [] {
      if r.a.None? { r := r.(a := existing.a); }
      if r.aaaa.None? { r := r.(aaaa := existing.aaaa); }
    }
    if r.txt.None? { r := r.(txt := Some(existing.Text())); }
    if r.ns.None? { r := r.(ns := existing.ns); }
    if r.mx.None? { r := r.(mx := existing.mx); }
  }

  /** Whatever a patch gives is stored as given, name and authority flag in any case. */
  lemma GivenIsStored(zone: ZoneData, existing: ZoneData)
    ensures var r := Merged(zone, existing);
            r.name == zone.name && r.authorative == zone.authorative &&
            (zone.soa.Some? ==> r.soa == zone.soa) && (zone.txt.Some? ==> r.txt == zone.txt) &&
            (zone.a.Some? ==> r.a == zone.a) && (zone.aaaa.Some? ==> r.aaaa == zone.aaaa) &&
            (zone.cname.Some? ==> r.cname == zone.cname) && (zone.ns.Some? ==> r.ns == zone.ns) &&
            (zone.mx.Some? ==> r.mx == zone.mx)
  {
  }

  /**
   * What it leaves open stays as it is. But a patch that gives an alias takes no address over, and one that
   * gives an address takes no alias over.
   */
  lemma OpenIsKept(zone: ZoneData, existing: ZoneData)
    ensures var r := Merged(zone, existing);
            var alias := zone.cname.Some? && zone.cname.value != [];
            (zone.soa.None? ==> r.soa == existing.soa) && (zone.ns.None? ==> r.ns == existing.ns) &&
            (zone.mx.None? ==> r.mx == existing.mx) &&
            (zone.txt.None? ==> r.txt == Some(if existing.txt.Some? then existing.txt.value else [])) &&
            (zone.a.None? ==> r.a == if alias then None else existing.a) &&
            (zone.aaaa.None? ==> r.aaaa == if alias then None else existing.aaaa) &&
            (zone.cname.None? ==>
               r.cname == if zone.a.Some? || zone.aaaa.Some? then None
                          else Some(if existing.cname.Some? then existing.cname.value else []))
  {
  }

  predicate OneWay(zone: ZoneData) {
    !(zone.HaveCname() && zone.HaveAddress())
  }

  /** Not both an alias and addresses: decided by the patch if it leads anywhere, else by the existing zone. */
  lemma MergeKeepsOneWay(zone: ZoneData, existing: ZoneData)
    ensures OneWay(Merged(zone, existing)) <==> OneWay(if Directs(zone) then zone else existing)
  {
  }

  /** The patch of a valid zone by a valid zone passes validation. */
  lemma PatchIsValid(domain: bytes, zone: ZoneData, existing: ZoneData)
    requires Validate(domain, zone) && ValidEntry(existing)
    ensures Validate(domain, Merged(zone, existing))
  {
    MergeKeepsOneWay(zone, existing);
  }

  /** A zone decoded from an empty body: the authority flag is on unless the body turns it off. */
  function Unset(host: bytes): ZoneData {
    Blank(host).(authorative := true)
  }

  /** A patch that says nothing changes nothing, if and only if the zone has authority. */
  lemma EmptyPatch(existing: ZoneData)
    ensures Assigned(Merged(Unset(existing.name), existing)) == Assigned(existing) <==> existing.authorative
  {
  }

  /** A patch made twice is a patch made once. */
  lemma PatchTwice(zone: ZoneData, existing: ZoneData)
    ensures Assigned(Merged(zone, Assigned(Merged(zone, existing)))) == Assigned(Merged(zone, existing))
  {
  }

  /** Two zones agree on all that a patch leaves open. */
  predicate AgreeBeside(zone: ZoneData, x: ZoneData, y: ZoneData) {
    (zone.soa.None? ==> x.soa == y.soa) &&
    (zone.txt.None? ==> x.Text() == y.Text()) &&
    (zone.ns.None? ==> x.ns == y.ns) &&
    (zone.mx.None? ==> x.mx == y.mx) &&
    (!zone.HaveCname() && zone.a.None? ==> x.a == y.a) &&
    (!zone.HaveCname() && zone.aaaa.None? ==> x.aaaa == y.aaaa) &&
    (!Directs(zone) ==> x.Cname() == y.Cname())
  }

  /**
   * A patch is merged with a zone read before the mutex is taken. What it then writes is what it would
   * write had it read under the mutex just when no field that it leaves open was changed in between.
   */
  lemma PatchOfAnOldReading(zone: ZoneData, read: ZoneData, now: ZoneData)
    ensures Assigned(Merged(zone, read)) == Assigned(Merged(zone, now)) <==> AgreeBeside(zone, read, now)
  {
  }

  // ---- Create or update ----

  datatype Mode = POST | PUT | PATCH

  /** What is asked of the store; NoSuchFile is the error that LookupName throws for a name that is not the zone's. */
  datatype Decision = NoName | NoSuchFile | ToCreate(zone: ZoneData) | ToUpdate(zone: ZoneData)

  function WithLabel(zone: ZoneData, domain: bytes): ZoneData
    requires Key(domain) != []
  {
    if zone.name == [] then zone.(name := Key(domain)[0]) else zone
  }

  function Decide(mode: Mode, tree: seq<ZoneNode>, domain: bytes, body: ZoneData): Decision {
    if Key(domain) == [] then NoName
    else
      var zone := WithLabel(body, domain);
      match mode
      case POST => ToCreate(zone)
      case PUT =>
        if LookupNameIn(tree, domain).Some? then ToUpdate(zone)
        else if LookupIn(tree, Key(domain)).zone.Some? then NoSuchFile
        else ToCreate(zone)
      case PATCH =>
        var found := LookupNameIn(tree, domain);
        if found.Some? then ToUpdate(Merged(zone, found.value.data)) else ToCreate(zone)
  }

  /** A domain written with no empty labels. */
  predicate Plain(domain: bytes) {
    domain != [] && Join(Key(domain)) == domain
  }

  lemma ZoneAtPath(nodes: seq<ZoneNode>, p: Path)
    requires p in Entries(nodes)
    ensures Locate(nodes, p).Some? && ZoneAt(nodes, CursorOf(nodes, p)).data == Entries(nodes)[p]
    ensures p != []
  {
    EntryOf(nodes, p);
  }

  lemma PlainHasKey(domain: bytes)
    requires Plain(domain)
    ensures Key(domain) != []
  {
  }

  /** PATCH updates the zones that are there, merged with what is there, and creates the others. */
  lemma PatchDecision(tree: seq<ZoneNode>, domain: bytes, body: ZoneData)
    requires Sound(tree) && Plain(domain)
    ensures var p := Hosts(domain);
            Key(domain) != [] &&
            Decide(PATCH, tree, domain, body) ==
              if p in Entries(tree) then ToUpdate(Merged(WithLabel(body, domain), Entries(tree)[p]))
              else ToCreate(WithLabel(body, domain))
  {
    PlainHasKey(domain);
    LookupNameIsExact(tree, domain);
    if Hosts(domain) in Entries(tree) { ZoneAtPath(tree, Hosts(domain)); }
  }

  /** PUT updates the zones that are there and creates the others, unless Search stalls on a missing one. */
  lemma PutDecision(tree: seq<ZoneNode>, domain: bytes, body: ZoneData)
    requires Sound(tree) && Plain(domain)
    ensures var p := Hosts(domain);
            Key(domain) != [] &&
            Decide(PUT, tree, domain, body) ==
              if p in Entries(tree) then ToUpdate(WithLabel(body, domain))
              else if Stalls(tree, p) then NoSuchFile
              else ToCreate(WithLabel(body, domain))
  {
    PlainHasKey(domain);
    LookupNameIsExact(tree, domain);
    TargetIs(tree, Hosts(domain));
    assert Reverse(Key(domain)) == Hosts(domain);
  }

  /** A name with empty labels is never patched: its zone, if there is one, is found to exist already. */
  lemma PatchOfUntidyName(tree: seq<ZoneNode>, domain: bytes, body: ZoneData, saves: bool)
    requires Sound(tree) && !Plain(domain) && Key(domain) != [] && Hosts(domain) in Entries(tree)
    requires Validate(domain, WithLabel(body, domain))
    ensures Decide(PATCH, tree, domain, body) == ToCreate(WithLabel(body, domain))
    ensures CreateAlone(tree, domain, WithLabel(body, domain), saves) == Err(AlreadyExists)
  {
    LookupNameIsExact(tree, domain);
    EntryOf(tree, Hosts(domain));
  }

  /** A valid patch of a zone that is there stores the merged zone, and needs only an authority and a disk. */
  lemma PatchStores(tree: seq<ZoneNode>, domain: bytes, body: ZoneData, saves: bool)
    requires Sound(tree) && Plain(domain) && Hosts(domain) in Entries(tree)
    requires Key(domain) != [] && Validate(domain, WithLabel(body, domain))
    ensures var m, p := Entries(tree), Hosts(domain);
            var merged := Merged(WithLabel(body, domain), m[p]);
            Decide(PATCH, tree, domain, body) == ToUpdate(merged) &&
            MapOf(UpdateAlone(tree, domain, merged, saves)) == Publish(m[p := Assigned(merged)], p, saves)
  {
    var p := Hosts(domain);
    PatchDecision(tree, domain, body);
    ZoneAtPath(tree, p);
    SoundAt(tree, CursorOf(tree, p));
    PatchIsValid(domain, WithLabel(body, domain), Entries(tree)[p]);
    UpdateIsExact(tree, domain, Merged(WithLabel(body, domain), Entries(tree)[p]), saves);
  }

  datatype Reply = Refused(decision: Decision) | Answered(result: Result<Zone, Failure>)

  // ---- What a request leaves in the map ----

  /** A create of a domain: refused if it is there, or if the zone is not valid, and else done as stated. */
  ghost predicate Creates(tree: seq<ZoneNode>, domain: bytes, zone: ZoneData, saves: bool, r: Reply, now: ZoneMap) {
    var m, p := Entries(tree), Hosts(domain);
    r.Answered? &&
    if Plain(domain) && p in m then r.result == Err(AlreadyExists) && now == m
    else if !Validate(domain, zone) then r.result == Err(Validation) && now == m
    else Created(m, p, zone, saves, r.result, now)
  }

  ghost predicate Updates(tree: seq<ZoneNode>, domain: bytes, zone: ZoneData, saves: bool, r: Reply, now: ZoneMap) {
    var m, p := Entries(tree), Hosts(domain);
    r.Answered? &&
    if !Validate(domain, zone) then r.result == Err(Validation) && now == m
    else Updated(m, p, zone, saves, r.result, now)
  }

  /**
   * POST creates. PUT updates what is there and creates what is not; it throws for a domain written with empty
   * labels, and where Search stalls. PATCH updates what is there with the merged zone, and creates what is not.
   */
  ghost predicate Handled(mode: Mode, tree: seq<ZoneNode>, domain: bytes, body: ZoneData, saves: bool, r: Reply,
                          now: ZoneMap)
    requires Key(domain) != []
  {
    var m, p := Entries(tree), Hosts(domain);
    var zone := if body.name == [] then body.(name := Key(domain)[0]) else body;
    match mode
    case POST => Creates(tree, domain, zone, saves, r, now)
    case PUT =>
      if p in m && Plain(domain) then Updates(tree, domain, zone, saves, r, now)
      else if p in m || Stalls(tree, p) then r == Refused(NoSuchFile) && now == m
      else Creates(tree, domain, zone, saves, r, now)
    case PATCH =>
      if p in m && Plain(domain) then Updates(tree, domain, Merged(zone, m[p]), saves, r, now)
      else Creates(tree, domain, zone, saves, r, now)
  }

  /** What CreateZone reports, and the tree after it, on the map. */
  lemma CreateReported(tree: seq<ZoneNode>, domain: bytes, zone: ZoneData, saves: bool, r: Result<Zone, Failure>,
                       now: seq<ZoneNode>)
    requires Sound(tree) && Key(domain) != []
    requires Reports(r, CreateAlone(tree, domain, zone, saves), Hosts(domain), now) && (r.Err? ==> now == tree)
    ensures Creates(tree, domain, zone, saves, Answered(r), Entries(now))
  {
    LookupNameIsExact(tree, domain);
    if Validate(domain, zone) { CreateRefines(tree, domain, zone, saves); }
    CreateByFields(Entries(tree), Hosts(domain), zone, saves);
    hide Sound, LookupNameIn, Validate, CreateSection, Create, Entries, Key, Hosts, NoneCounts, AllBooked;
  }

  lemma UpdateReported(tree: seq<ZoneNode>, domain: bytes, zone: ZoneData, saves: bool, r: Result<Zone, Failure>,
                       now: seq<ZoneNode>)
    requires Sound(tree) && Hosts(domain) in Entries(tree)
    requires Reports(r, UpdateAlone(tree, domain, zone, saves), Hosts(domain), now) && (r.Err? ==> now == tree)
    ensures Updates(tree, domain, zone, saves, Answered(r), Entries(now))
  {
    if Validate(domain, zone) { UpdateIsExact(tree, domain, zone, saves); }
    ReplaceByFields(Entries(tree), Hosts(domain), zone, saves);
    hide Sound, Validate, UpdateSection, Replace, Entries, Hosts, NoneCounts, AllBooked, Stalls;
  }

  /** PUT and PATCH of a domain that is written with empty labels. */
  lemma UntidyDecision(mode: Mode, tree: seq<ZoneNode>, domain: bytes, body: ZoneData)
    requires Sound(tree) && Key(domain) != [] && !Plain(domain)
    ensures var p, zone := Hosts(domain), WithLabel(body, domain);
            Decide(mode, tree, domain, body) ==
              if mode == PUT && (p in Entries(tree) || Stalls(tree, p)) then NoSuchFile else ToCreate(zone)
  {
    LookupNameIsExact(tree, domain);
    TargetIs(tree, Hosts(domain));
    assert Reverse(Key(domain)) == Hosts(domain);
    hide Sound, LookupNameIn, Entries, Stalls, Key, SearchFrom;
  }

  /** What is decided and reported, on the map. */
  lemma HandledAsDecided(mode: Mode, tree: seq<ZoneNode>, domain: bytes, body: ZoneData, saves: bool, r: Reply,
                         now: seq<ZoneNode>)
    requires Sound(tree) && Key(domain) != [] && (!r.Answered? || r.result.Err? ==> now == tree)
    requires match Decide(mode, tree, domain, body)
             case NoName => false
             case NoSuchFile => r == Refused(NoSuchFile)
             case ToCreate(z) =>
               r.Answered? && Reports(r.result, CreateAlone(tree, domain, z, saves), Hosts(domain), now)
             case ToUpdate(z) =>
               r.Answered? && Reports(r.result, UpdateAlone(tree, domain, z, saves), Hosts(domain), now)
    ensures Handled(mode, tree, domain, body, saves, r, Entries(now))
  {
    if Plain(domain) {
      PutDecision(tree, domain, body);
      PatchDecision(tree, domain, body);
    } else {
      UntidyDecision(mode, tree, domain, body);
    }
    var decision := Decide(mode, tree, domain, body);
    assert mode == POST ==> decision == ToCreate(WithLabel(body, domain));
    hide Sound, Decide, Merged, CreateAlone, UpdateAlone, Entries, Stalls, Key, Hosts, Reports, Creates, Updates, Plain;
    match decision {
      case NoSuchFile =>
      case ToCreate(z) => CreateReported(tree, domain, z, saves, r.result, now);
      case ToUpdate(z) => UpdateReported(tree, domain, z, saves, r.result, now);
    }
  }

  class RestHandler {
    const zoneMgr: ZoneMgrJson

    constructor (zoneMgr: ZoneMgrJson)
      ensures this.zoneMgr == zoneMgr
    {
      this.zoneMgr := zoneMgr;
    }

    /** The zone of the request, decoded from the body, under the name in its path. */
    method ProcessSet(mode: Mode, domain: bytes, body: ZoneData, saves: bool) returns (r: Reply)
      requires zoneMgr.Valid()
      modifies zoneMgr`zones
      ensures zoneMgr.Valid() && old(zoneMgr.zones).roots == old(zoneMgr.zones.roots)
      ensures var tree, p := old(zoneMgr.zones.roots), Hosts(domain);
              match Decide(mode, tree, domain, body)
              case NoName => r == Refused(NoName) && zoneMgr.zones == old(zoneMgr.zones)
              case NoSuchFile => r == Refused(NoSuchFile) && zoneMgr.zones == old(zoneMgr.zones)
              case ToCreate(z) =>
                r.Answered? && Reports(r.result, CreateAlone(tree, domain, z, saves), p, zoneMgr.zones.roots) &&
                (r.result.Err? ==> zoneMgr.zones == old(zoneMgr.zones))
              case ToUpdate(z) =>
                r.Answered? && Reports(r.result, UpdateAlone(tree, domain, z, saves), p, zoneMgr.zones.roots) &&
                (r.result.Err? ==> zoneMgr.zones == old(zoneMgr.zones))
      ensures Key(domain) == [] ==> r == Refused(NoName) && zoneMgr.zones == old(zoneMgr.zones)
      ensures Key(domain) != [] ==>
                Handled(mode, old(zoneMgr.zones.roots), domain, body, saves, r, Entries(zoneMgr.zones.roots))
    {
      hide CreateAlone, UpdateAlone, LookupNameIn, LookupIn, Key, Merged, Reports, Handled;
      ghost var tree := zoneMgr.zones.roots;
      var parts := Split(domain);
      if parts == [] {
        return Refused(NoName);
      }
      var zone := body;
      if zone.name == [] { zone := zone.(name := parts[0]); }
      var create := true;
      match mode {
        case POST =>
        case PUT =>
          var found, thrown := zoneMgr.LookupName(domain, true);
          if thrown {
            r := Refused(NoSuchFile);
            HandledAsDecided(mode, tree, domain, body, saves, r, zoneMgr.zones.roots);
            return;
          }
          create := found.None?;
        case PATCH =>
          var current, _ := zoneMgr.LookupName(domain, false);
          if current.Some? {
            zone := Merge(zone, current.value.data);
            create := false;
          }
      }
      var result;
      if create {
        result := zoneMgr.CreateZone(domain, zone, saves);
      } else {
        result := zoneMgr.Update(domain, zone, saves);
      }
      r := Answered(result);
      HandledAsDecided(mode, tree, domain, body, saves, r, zoneMgr.zones.roots);
    }
  }
}
