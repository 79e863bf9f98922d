/**
 * Creating, updating and deleting zones, field by field: which entry is counted, which are not, and what is
 * left of every other one.
 */
module AuthorityFields {
  import opened Bytes
  import opened DomainNames
  import opened Zones
  import opened ZoneTrees
  import opened ZoneMaps
  import opened ZoneSections

  // ---- Who counts ----

  /** What the first k labels of the path lead to; new data, if there is any, stands at the end of the path. */
  ghost function DataAt(m: ZoneMap, p: Path, zone: Option<ZoneData>, k: nat): Option<ZoneData>
    requires k <= |p|
  {
    if k == |p| && zone.Some? then zone else if p[..k] in m then Some(m[p[..k]]) else None
  }

  /** There is an SOA record, and the authority flag is on. */
  ghost predicate Counts(m: ZoneMap, p: Path, zone: Option<ZoneData>, k: nat) {
    0 < k <= |p| && DataAt(m, p, zone, k).Some? && DataAt(m, p, zone, k).value.soa.Some? &&
    DataAt(m, p, zone, k).value.authorative
  }

  /** The longest part of the path that counts. */
  ghost predicate CountsLast(m: ZoneMap, p: Path, zone: Option<ZoneData>, k: nat) {
    Counts(m, p, zone, k) && forall j :: k < j <= |p| ==> !Counts(m, p, zone, j)
  }

  ghost predicate NoneCounts(m: ZoneMap, p: Path, zone: Option<ZoneData>) {
    forall k: nat :: !Counts(m, p, zone, k)
  }

  // ---- What is stored ----

  /** Beside the SOA record, the entry is the zone as given; a text or an alias that is not given is empty. */
  predicate Stores(d: ZoneData, zone: ZoneData) {
    d.name == zone.name && d.authorative == zone.authorative && d.a == zone.a && d.aaaa == zone.aaaa &&
    d.ns == zone.ns && d.mx == zone.mx && d.txt == Some(if zone.txt.Some? then zone.txt.value else []) &&
    d.cname == Some(if zone.cname.Some? then zone.cname.value else [])
  }

  /** One more, modulo 2^32, and nothing else of the record changed. */
  predicate OneUp(now: Option<Soa>, before: Option<Soa>) {
    now.Some? && before.Some? && now.value.serial == (before.value.serial + 1) % 4294967296 &&
    now.value == before.value.(serial := now.value.serial)
  }

  /** An entry that was there, if only its SOA record may have changed. */
  predicate SameBeside(d: ZoneData, before: ZoneData) {
    d == before.(soa := d.soa)
  }

  predicate Nothing(d: ZoneData) {
    d.soa.None? && !d.authorative && d.txt.None? && d.a.None? && d.aaaa.None? && d.cname.None? && d.ns.None? &&
    d.mx.None?
  }

  /** One entry after the change of path p that was counted at its first k labels. */
  ghost predicate Booked(m: ZoneMap, p: Path, zone: Option<ZoneData>, k: nat, q: Path, d: ZoneData)
    requires k <= |p|
  {
    var before := if q == p && zone.Some? then zone else Entry(m, q);
    if before.None? then q != [] && d.name == q[|q| - 1] && Nothing(d)
    else
      (if q == p && zone.Some? then Stores(d, zone.value) else SameBeside(d, before.value)) &&
      if q == p[..k] then OneUp(d.soa, before.value.soa) else d.soa == before.value.soa
  }

  ghost predicate AllBooked(m: ZoneMap, p: Path, zone: Option<ZoneData>, now: ZoneMap) {
    exists k :: CountsLast(m, p, zone, k) && forall q: Path :: q in now ==> Booked(m, p, zone, k, q, now[q])
  }

  /** What the k-th part of the path says of authority is what the map with the data in place says. */
  ghost predicate InPlace(m: ZoneMap, p: Path, zone: Option<ZoneData>, m': ZoneMap) {
    forall k :: 0 < k <= |p| ==> (Authority(m', p[..k]) <==> Counts(m, p, zone, k))
  }

  lemma HolderCounts(m: ZoneMap, p: Path, zone: Option<ZoneData>, m': ZoneMap)
    requires InPlace(m, p, zone, m')
    ensures Holder(m', p) == 0 <==> NoneCounts(m, p, zone)
    ensures Holder(m', p) > 0 ==> CountsLast(m, p, zone, Holder(m', p))
  {
    hide Authority;
    var k := Holder(m', p);
    assert forall j :: k < j <= |p| ==> !Counts(m, p, zone, j);
    if k == 0 { assert forall j: nat :: Counts(m, p, zone, j) ==> 0 < j <= |p|; }
    hide DataAt;
  }

  // ---- The operations on the map ----

  lemma CreateInPlace(m: ZoneMap, p: Path, zone: ZoneData)
    requires p != []
    ensures InPlace(m, p, Some(zone), WithPrefixes(m, p)[p := Assigned(zone)])
  {
    var m' := WithPrefixes(m, p)[p := Assigned(zone)];
    forall k | 0 < k <= |p| ensures Authority(m', p[..k]) <==> Counts(m, p, Some(zone), k) {
      assert p[..|p|] == p;
      assert |p[..k]| == k;
    }
  }

  lemma ReplaceInPlace(m: ZoneMap, p: Path, zone: ZoneData)
    ensures InPlace(m, p, Some(zone), m[p := Assigned(zone)])
  {
    var m' := m[p := Assigned(zone)];
    forall k | 0 < k <= |p| ensures Authority(m', p[..k]) <==> Counts(m, p, Some(zone), k) {
      assert p[..|p|] == p;
      assert |p[..k]| == k;
    }
  }

  lemma RemoveInPlace(m: ZoneMap, p: Path)
    ensures InPlace(m, p, None, m)
  {
  }

  /** The map with data in place, counted at the first k labels of the path. */
  lemma BookedBy(m: ZoneMap, p: Path, zone: Option<ZoneData>, m': ZoneMap, q: Path)
    requires Holder(m', p) > 0 && q in Bumped(m', p)
    requires q in m' && if q == p && zone.Some? then m'[q] == Assigned(zone.value)
                        else if q in m then m'[q] == m[q]
                        else q != [] && m'[q] == Blank(q[|q| - 1])
    ensures Booked(m, p, zone, Holder(m', p), q, Bumped(m', p)[q])
  {
    var a := p[..Holder(m', p)];
    assert Authority(m', a);
  }

  /** A create: the missing parts of the path come in blank, and the zone at its end. */
  lemma CreateByFields(m: ZoneMap, p: Path, zone: ZoneData, saves: bool)
    ensures var r := Create(m, p, zone, saves);
            if p == [] || p in m then r == Err(AlreadyExists)
            else if NoneCounts(m, p, Some(zone)) then r == Err(Validation)
            else if !saves then r == Err(SaveFailed)
            else
              r.Ok? && AllBooked(m, p, Some(zone), r.value) &&
              forall q: Path :: q in r.value <==> q in m || (q != [] && q <= p)
  {
    if p != [] && p !in m {
      CreateInPlace(m, p, zone);
      var m' := WithPrefixes(m, p)[p := Assigned(zone)];
      HolderCounts(m, p, Some(zone), m');
      if Holder(m', p) > 0 {
        forall q: Path | q in Bumped(m', p) ensures Booked(m, p, Some(zone), Holder(m', p), q, Bumped(m', p)[q]) {
          BookedBy(m, p, Some(zone), m', q);
        }
      }
      hide Booked, CountsLast, NoneCounts, Assigned, Blank, NextSerial;
    }
  }

  /** An update: the data of the path is the zone; no path comes or goes. */
  lemma ReplaceByFields(m: ZoneMap, p: Path, zone: ZoneData, saves: bool)
    ensures var r := Replace(m, p, zone, saves);
            if p !in m then r == Err(NotFound)
            else if NoneCounts(m, p, Some(zone)) then r == Err(Validation)
            else if !saves then r == Err(SaveFailed)
            else r.Ok? && AllBooked(m, p, Some(zone), r.value) && forall q: Path :: q in r.value <==> q in m
  {
    if p in m {
      ReplaceInPlace(m, p, zone);
      var m' := m[p := Assigned(zone)];
      HolderCounts(m, p, Some(zone), m');
      if Holder(m', p) > 0 {
        forall q: Path | q in Bumped(m', p) ensures Booked(m, p, Some(zone), Holder(m', p), q, Bumped(m', p)[q]) {
          BookedBy(m, p, Some(zone), m', q);
        }
      }
      hide Booked, CountsLast, NoneCounts, Assigned, NextSerial;
    }
  }

  /** A delete: the path is gone with all below it; a root is not deleted. */
  lemma RemoveByFields(m: ZoneMap, p: Path, saves: bool)
    ensures var r := Remove(m, p, saves);
            if p !in m then r == Err(NotFound)
            else if NoneCounts(m, p, None) then r == Err(Validation)
            else if |p| == 1 then r == Err(NotFound)
            else if !saves then r == Err(SaveFailed)
            else r.Ok? && AllBooked(m, p, None, r.value) && forall q: Path :: q in r.value <==> q in m && !(p <= q)
  {
    if p in m {
      RemoveInPlace(m, p);
      HolderCounts(m, p, None, m);
      if Holder(m, p) > 0 {
        forall q: Path | q in Bumped(m, p) ensures Booked(m, p, None, Holder(m, p), q, Bumped(m, p)[q]) {
          BookedBy(m, p, None, m, q);
        }
      }
      hide Booked, CountsLast, NoneCounts, NextSerial;
    }
  }

  /** An entry whose flag is off, or without an SOA record, never has its serial counted. */
  lemma FlagOffIsNotCounted(m: ZoneMap, p: Path, zone: Option<ZoneData>, now: ZoneMap, q: Path)
    requires AllBooked(m, p, zone, now) && q in now && ((q == p && zone.Some?) || q in m)
    ensures var before := if q == p && zone.Some? then zone.value else m[q];
            !before.authorative || before.soa.None? ==> now[q].soa == before.soa
  {
    var k: nat :| CountsLast(m, p, zone, k) && forall r: Path :: r in now ==> Booked(m, p, zone, k, r, now[r]);
    assert Booked(m, p, zone, k, q, now[q]);
    if q == p[..k] {
      assert k == |p| <==> q == p;
    }
  }

  /** What a zone is refused for before the tree is looked at. */
  lemma ValidateIs(domain: bytes, zone: ZoneData)
    ensures Validate(domain, zone) <==>
              !(zone.cname.Some? && zone.cname.value != [] &&
                ((zone.a.Some? && zone.a.value != []) || (zone.aaaa.Some? && zone.aaaa.value != []))) &&
              (Key(domain) != [] ==> Key(domain)[0] == zone.name)
  {
    hide Key;
  }

  // ---- The same with what is reported ----

  /** A create as it is reported, and the map after it. */
  ghost predicate Created(m: ZoneMap, p: Path, zone: ZoneData, saves: bool, r: Result<Zone, Failure>, now: ZoneMap) {
    if p == [] || p in m then r == Err(AlreadyExists) && now == m
    else if NoneCounts(m, p, Some(zone)) then r == Err(Validation) && now == m
    else if !saves then r == Err(SaveFailed) && now == m
    else
      r.Ok? && AllBooked(m, p, Some(zone), now) && forall q: Path :: q in now <==> q in m || (q != [] && q <= p)
  }

  /** An update as it is reported, and the map after it. */
  ghost predicate Updated(m: ZoneMap, p: Path, zone: ZoneData, saves: bool, r: Result<Zone, Failure>, now: ZoneMap) {
    if p !in m then r == Err(NotFound) && now == m
    else if NoneCounts(m, p, Some(zone)) then r == Err(Validation) && now == m
    else if !saves then r == Err(SaveFailed) && now == m
    else r.Ok? && AllBooked(m, p, Some(zone), now) && forall q: Path :: q in now <==> q in m
  }

  // ---- The walk through the parents ----

  /** The node n steps down the cursor has an SOA record, and its flag is on. */
  predicate CountsAt(nodes: seq<ZoneNode>, c: Cursor, n: nat) {
    0 < n <= |c| && ValidCursor(nodes, c[..n]) && At(nodes, c[..n]).zone.soa.Some? &&
    At(nodes, c[..n]).zone.authorative
  }

  /** The walk ends at the first node on the way up that has both, and before the roots only there. */
  lemma {:induction false} HolderAtIs(nodes: seq<ZoneNode>, c: Cursor)
    requires ValidCursor(nodes, c)
    ensures var k := HolderAt(nodes, c);
            (k > 0 ==> CountsAt(nodes, c, k)) && forall n :: k < n <= |c| ==> !CountsAt(nodes, c, n)
    decreases |c|
  {
    assert c[..|c|] == c;
    if !At(nodes, c).zone.IsAuthority() && |c| > 1 {
      var d := c[..|c| - 1];
      CursorPrefix(nodes, c, |c| - 1);
      HolderAtIs(nodes, d);
      assert forall n :: 0 < n <= |d| ==> d[..n] == c[..n];
      assert forall n :: 0 < n <= |d| ==> CountsAt(nodes, d, n) == CountsAt(nodes, c, n);
      assert HolderAt(nodes, c) == HolderAt(nodes, d);
    }
  }

  /** Exactly that node has its serial one higher; no other node is touched. */
  predicate CountedUp(nodes: seq<ZoneNode>, c: Cursor, n: nat, now: seq<ZoneNode>)
    requires CountsAt(nodes, c, n)
  {
    var node := At(nodes, c[..n]);
    var soa := node.zone.soa.value;
    now == With(nodes, c[..n], node.(zone := node.zone.(soa := Some(soa.(serial := (soa.serial + 1) % 4294967296)))))
  }

  lemma SerialIs(z: ZoneData)
    requires z.soa.Some? && z.authorative
    ensures z.IsAuthority() &&
            NextSerial(z) == z.(soa := Some(z.soa.value.(serial := (z.soa.value.serial + 1) % 4294967296)))
  {
  }

  lemma BumpIsWith(nodes: seq<ZoneNode>, c: Cursor)
    requires ValidCursor(nodes, c) && HolderAt(nodes, c) > 0
    ensures var a := c[..HolderAt(nodes, c)];
            ValidCursor(nodes, a) && At(nodes, a).zone.IsAuthority() &&
            BumpAt(nodes, c) == With(nodes, a, At(nodes, a).(zone := NextSerial(At(nodes, a).zone)))
  {
    hide With, At, ValidCursor;
  }

  lemma BumpAtIs(nodes: seq<ZoneNode>, c: Cursor)
    requires ValidCursor(nodes, c) && HolderAt(nodes, c) > 0
    ensures CountsAt(nodes, c, HolderAt(nodes, c)) && CountedUp(nodes, c, HolderAt(nodes, c), BumpAt(nodes, c))
  {
    HolderAtIs(nodes, c);
    BumpIsWith(nodes, c);
    SerialIs(At(nodes, c[..HolderAt(nodes, c)]).zone);
    hide With, At, ValidCursor, HolderAt, BumpAt, NextSerial;
  }

  /** The walk succeeds just when some node on the way counts, and then the lowest of them is counted up. */
  ghost predicate Walked(nodes: seq<ZoneNode>, c: Cursor, ok: bool, now: seq<ZoneNode>) {
    if ok then
      exists n: nat :: CountsAt(nodes, c, n) && (forall j :: n < j <= |c| ==> !CountsAt(nodes, c, j)) &&
                  CountedUp(nodes, c, n, now)
    else now == nodes && forall n: nat :: !CountsAt(nodes, c, n)
  }

  lemma WalkIs(nodes: seq<ZoneNode>, c: Cursor)
    requires ValidCursor(nodes, c)
    ensures var k := HolderAt(nodes, c); Walked(nodes, c, k > 0, if k > 0 then BumpAt(nodes, c) else nodes)
  {
    HolderAtIs(nodes, c);
    if HolderAt(nodes, c) > 0 { BumpAtIs(nodes, c); }
    hide HolderAt, BumpAt, CountedUp, At, ValidCursor;
    assert forall n: nat :: CountsAt(nodes, c, n) ==> 0 < n <= |c|;
  }
}
