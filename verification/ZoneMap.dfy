/**
 * A tree of zones stands for a map from label paths to zone data. Each edit of the tree is an edit of the
 * map that the map alone describes.
 */
module ZoneMaps {
  import opened Bytes
  import opened DomainNames
  import opened Zones
  import opened ZoneTrees

  type ZoneMap = imap<Path, ZoneData>

  ghost function Entries(nodes: seq<ZoneNode>): ZoneMap {
    imap q: Path | Get(nodes, q).Some? :: Get(nodes, q).value
  }

  /** What a map says of a path. */
  ghost function Entry(m: ZoneMap, q: Path): Option<ZoneData> {
    if q in m then Some(m[q]) else None
  }

  /** A map with the same entry everywhere is the map of the tree. */
  lemma SameEntries(nodes: seq<ZoneNode>, m: ZoneMap)
    requires forall q: Path :: Get(nodes, q) == Entry(m, q)
    ensures Entries(nodes) == m
  {
    hide Get;
    assert forall q: Path :: Get(nodes, q) == Entry(m, q);
    assert forall q: Path :: q in m <==> Get(nodes, q).Some?;
  }

  lemma EntryOf(nodes: seq<ZoneNode>, q: Path)
    ensures Entry(Entries(nodes), q) == Get(nodes, q)
  {
  }

  // ---- Missing labels ----

  /** A node created for a label on the way: no data, and no authority. */
  function Blank(l: bytes): ZoneData {
    ZoneData(l, None, false, None, None, None, None, None, None)
  }

  /** Every missing prefix of the path, blank. */
  ghost function WithPrefixes(m: ZoneMap, p: Path): (r: ZoneMap)
    ensures forall q: Path :: q in r <==> q in m || (q != [] && q <= p)
    ensures forall q: Path :: q in r ==> r[q] == if q in m then m[q] else Blank(q[|q| - 1])
  {
    imap q: Path | q in m || (q != [] && q <= p) :: if q in m then m[q] else Blank(q[|q| - 1])
  }

  /** The level under the cursor with a node for the label. */
  function AddLabel(nodes: seq<ZoneNode>, c: Cursor, h: bytes): seq<ZoneNode>
    requires c == [] || ValidCursor(nodes, c)
  {
    if FindLast(Level(nodes, c), h).Some? then nodes
    else WithLevel(nodes, c, Level(nodes, c) + [ZoneNode(Blank(h), Absent)])
  }

  lemma GetAppended(kids: seq<ZoneNode>, h: bytes, q: Path)
    requires FindLast(kids, h).None? && q != []
    ensures Get(kids + [ZoneNode(Blank(h), Absent)], q) == if q == [h] then Some(Blank(h)) else Get(kids, q)
  {
    var n := ZoneNode(Blank(h), Absent);
    FindAppended(kids, n, q[0]);
    GetIsBelow(kids, q);
    GetIsBelow(kids + [n], q);
  }

  /** A label added under a path is one more entry, if it was missing. */
  lemma GetAdded(nodes: seq<ZoneNode>, p: Path, c: Cursor, h: bytes, q: Path)
    requires Leads(nodes, p, c) && q != []
    ensures Get(AddLabel(nodes, c, h), q) ==
            if q == p + [h] && Get(nodes, q).None? then Some(Blank(h)) else Get(nodes, q)
  {
    var kids := Level(nodes, c);
    LocateSnoc(nodes, p, c, h);
    if FindLast(kids, h).None? {
      GetWithLevel(nodes, p, c, kids + [ZoneNode(Blank(h), Absent)], q);
      if p < q {
        GetAppended(kids, h, q[|p|..]);
        GetUnder(nodes, p, c, q);
        assert q == p + q[|p|..];
        assert q[|p|..] == [h] <==> q == p + [h];
      }
    }
  }

  /** Below a blank node there is nothing to find, so the path now leads to it. */
  lemma AddedLeads(nodes: seq<ZoneNode>, p: Path, c: Cursor, h: bytes)
    requires Leads(nodes, p, c)
    ensures Locate(AddLabel(nodes, c, h), p + [h]).Some?
  {
    GetAdded(nodes, p, c, h, p + [h]);
  }

  lemma {:induction false} AtWith(nodes: seq<ZoneNode>, c: Cursor, n: ZoneNode)
    requires ValidCursor(nodes, c)
    ensures ValidCursor(With(nodes, c, n), c) && At(With(nodes, c, n), c) == n
    decreases |c|
  {
    if |c| > 1 { AtWith(nodes[c[0]].Kids(), c[1..], n); }
  }

  /** The path of an added label leads to the end of its level. */
  lemma LocateAdded(nodes: seq<ZoneNode>, p: Path, c: Cursor, h: bytes)
    requires Leads(nodes, p, c) && FindLast(Level(nodes, c), h).None?
    ensures Locate(AddLabel(nodes, c, h), p + [h]) == Some(c + [|Level(nodes, c)|])
    ensures ValidCursor(AddLabel(nodes, c, h), c + [|Level(nodes, c)|])
    ensures At(AddLabel(nodes, c, h), c + [|Level(nodes, c)|]) == ZoneNode(Blank(h), Absent)
  {
    var kids, r := Level(nodes, c), AddLabel(nodes, c, h);
    if c != [] {
      var n := At(nodes, c).(children := Engaged(kids + [ZoneNode(Blank(h), Absent)]));
      AtWith(nodes, c, n);
      LocateWith(nodes, p, n);
    }
    FindAppended(kids, ZoneNode(Blank(h), Absent), h);
    assert Leads(r, p, c) && Level(r, c) == kids + [ZoneNode(Blank(h), Absent)];
    hide Locate, FindLast, ValidCursor, At, With;
    LocateSnoc(r, p, c, h);
    AtSnoc(r, c, |kids|);
  }

  /** Of two replacements of a node, the second stands. */
  lemma {:induction false} WithWith(nodes: seq<ZoneNode>, c: Cursor, m: ZoneNode, n: ZoneNode)
    requires ValidCursor(nodes, c) && ValidCursor(With(nodes, c, m), c)
    ensures With(With(nodes, c, m), c, n) == With(nodes, c, n)
    decreases |c|
  {
    if |c| > 1 { WithWith(nodes[c[0]].Kids(), c[1..], m, n); }
  }

  /** A node without children first gets an empty vector, and then its first child. */
  lemma Emplaced(nodes: seq<ZoneNode>, c: Cursor, kids: seq<ZoneNode>)
    requires ValidCursor(nodes, c) && At(nodes, c).children.Absent?
    ensures var e := WithLevel(nodes, c, []);
            ValidCursor(e, c) && Level(e, c) == [] && WithLevel(e, c, kids) == WithLevel(nodes, c, kids)
  {
    var n := At(nodes, c).(children := Engaged([]));
    AtWith(nodes, c, n);
    WithWith(nodes, c, n, At(nodes, c).(children := Engaged(kids)));
  }

  function CursorOf(nodes: seq<ZoneNode>, p: Path): (c: Cursor)
    requires p == [] || Locate(nodes, p).Some?
    ensures Leads(nodes, p, c) && |c| == |p| && (c == [] || ValidCursor(nodes, c))
  {
    if p == [] then [] else Locate(nodes, p).value
  }

  /** The tree after the labels of the path have been added from the top down. */
  function Grown(nodes: seq<ZoneNode>, p: Path): (r: seq<ZoneNode>)
    ensures p != [] ==> Locate(r, p).Some?
    decreases |p|
  {
    if p == [] then nodes
    else
      var up := p[..|p| - 1];
      var r := Grown(nodes, up);
      GrownLeads(r, p);
      AddLabel(r, CursorOf(r, up), p[|p| - 1])
  }

  lemma GrownLeads(r: seq<ZoneNode>, p: Path)
    requires p != [] && (|p| > 1 ==> Locate(r, p[..|p| - 1]).Some?)
    ensures Locate(AddLabel(r, CursorOf(r, p[..|p| - 1]), p[|p| - 1]), p).Some?
  {
    var up, h := p[..|p| - 1], p[|p| - 1];
    assert up + [h] == p;
    var c := CursorOf(r, up);
    assert Leads(r, up, c);
    hide *;
    AddedLeads(r, up, c, h);
  }

  lemma GrownIs(nodes: seq<ZoneNode>)
    ensures Grown(nodes, []) == nodes
  {
  }

  /** One more label of the path: it is on the level that the labels before it lead to, or it is missing. */
  lemma AddHost(nodes: seq<ZoneNode>, hosts: Path, k: nat)
    requires k < |hosts|
    ensures var r, c := Grown(nodes, hosts[..k]), CursorOf(Grown(nodes, hosts[..k]), hosts[..k]);
            var i := FindLast(Level(r, c), hosts[k]);
            Grown(nodes, hosts[..k + 1]) == AddLabel(r, c, hosts[k]) &&
            hosts[..k + 1] == hosts[..k] + [hosts[k]] &&
            (i.Some? ==> Locate(r, hosts[..k + 1]) == Some(c + [i.value])) &&
            (i.None? <==> Locate(nodes, hosts[..k + 1]).None?)
  {
    var r, c := Grown(nodes, hosts[..k]), CursorOf(Grown(nodes, hosts[..k]), hosts[..k]);
    var p := hosts[..k + 1];
    assert p[..|p| - 1] == hosts[..k] && p == hosts[..k] + [hosts[k]];
    LocateSnoc(r, hosts[..k], c, hosts[k]);
    GetGrown(nodes, hosts[..k], p);
  }

  lemma {:induction false} GetGrown(nodes: seq<ZoneNode>, p: Path, q: Path)
    requires q != []
    ensures Get(Grown(nodes, p), q) ==
            if q <= p && Get(nodes, q).None? then Some(Blank(q[|q| - 1])) else Get(nodes, q)
    decreases |p|
  {
    if p != [] {
      var up := p[..|p| - 1];
      var r := Grown(nodes, up);
      assert up + [p[|p| - 1]] == p;
      var c := CursorOf(r, up);
      assert Leads(r, up, c) && Grown(nodes, p) == AddLabel(r, c, p[|p| - 1]);
      hide Grown, CursorOf, AddLabel, Leads, Locate, Get, Blank;
      GetGrown(nodes, up, q);
      GetAdded(r, up, c, p[|p| - 1], q);
      assert q <= p <==> q <= up || q == p;
    }
  }

  lemma EntriesOfGrown(nodes: seq<ZoneNode>, p: Path)
    ensures Entries(Grown(nodes, p)) == WithPrefixes(Entries(nodes), p)
  {
    var m := WithPrefixes(Entries(nodes), p);
    forall q: Path
      ensures Get(Grown(nodes, p), q) == Entry(m, q)
    {
      hide Grown;
      EntryOf(nodes, q);
      if q != [] { GetGrown(nodes, p, q); }
    }
    SameEntries(Grown(nodes, p), m);
  }

  lemma SoundAdded(nodes: seq<ZoneNode>, c: Cursor, h: bytes)
    requires Sound(nodes) && (c == [] || ValidCursor(nodes, c)) && h != [] && DOT !in h
    ensures Sound(AddLabel(nodes, c, h))
  {
    var kids, n := Level(nodes, c), ZoneNode(Blank(h), Absent);
    if c != [] { SoundAt(nodes, c); }
    if FindLast(kids, h).None? {
      SoundNodeIs(n);
      assert forall k :: k in kids + [n] ==> k in kids || k == n;
      SoundWithLevel(nodes, c, kids + [n]);
    }
  }

  predicate CleanPath(p: Path) {
    forall k :: 0 <= k < |p| ==> p[k] != [] && DOT !in p[k]
  }

  lemma {:induction false} SoundGrown(nodes: seq<ZoneNode>, p: Path)
    requires Sound(nodes) && CleanPath(p)
    ensures Sound(Grown(nodes, p))
    decreases |p|
  {
    if p != [] {
      var up := p[..|p| - 1];
      SoundGrown(nodes, up);
      SoundAdded(Grown(nodes, up), CursorOf(Grown(nodes, up), up), p[|p| - 1]);
    }
  }

  // ---- One entry ----

  function SetData(nodes: seq<ZoneNode>, c: Cursor, d: ZoneData): seq<ZoneNode>
    requires ValidCursor(nodes, c)
  {
    With(nodes, c, At(nodes, c).(zone := d))
  }

  /** New data in a node is new data at its path, and nowhere else. */
  lemma EntriesOfSet(nodes: seq<ZoneNode>, p: Path, d: ZoneData)
    requires Locate(nodes, p).Some? && d.name == At(nodes, Locate(nodes, p).value).zone.name
    ensures Entries(SetData(nodes, Locate(nodes, p).value, d)) == Entries(nodes)[p := d]
    ensures Locate(SetData(nodes, Locate(nodes, p).value, d), p) == Locate(nodes, p)
  {
    var c := Locate(nodes, p).value;
    var n := At(nodes, c).(zone := d);
    forall q: Path
      ensures Get(With(nodes, c, n), q) == Entry(Entries(nodes)[p := d], q)
    {
      EntryOf(nodes, q);
      if q != [] {
        GetWith(nodes, p, n, q);
        if p < q { GetUnder(nodes, p, c, q); }
      }
    }
    SameEntries(With(nodes, c, n), Entries(nodes)[p := d]);
    LocateWith(nodes, p, n);
  }

  lemma {:induction false} LocateWith(nodes: seq<ZoneNode>, p: Path, n: ZoneNode)
    requires Locate(nodes, p).Some? && n.zone.name == At(nodes, Locate(nodes, p).value).zone.name
    ensures Locate(With(nodes, Locate(nodes, p).value, n), p) == Locate(nodes, p)
    decreases |p|
  {
    var c := Locate(nodes, p).value;
    SameMatch(nodes, With(nodes, c, n), p[0]);
    if |p| > 1 {
      assert c[1..] == Locate(nodes[c[0]].Kids(), p[1..]).value;
      LocateWith(nodes[c[0]].Kids(), p[1..], n);
    }
  }

  // ---- Serials ----

  function NextSerial(z: ZoneData): ZoneData
    requires z.IsAuthority()
  {
    z.(soa := Some(z.soa.value.(serial := (z.soa.value.serial + 1) % 0x1_0000_0000)))
  }

  ghost predicate Authority(m: ZoneMap, p: Path) {
    p in m && m[p].IsAuthority()
  }

  /** The length of the longest prefix of the path that is an authority; 0 if there is none. */
  ghost function Holder(m: ZoneMap, p: Path): (k: nat)
    ensures k <= |p|
    ensures k > 0 ==> Authority(m, p[..k])
    ensures forall j :: k < j <= |p| ==> !Authority(m, p[..j])
    decreases |p|
  {
    assert p[..|p|] == p;
    if p == [] then 0
    else if Authority(m, p) then |p|
    else
      assert forall j :: 0 <= j < |p| ==> p[..|p| - 1][..j] == p[..j];
      Holder(m, p[..|p| - 1])
  }

  /** The nearest authority from the path up has its serial one higher. */
  ghost function Bumped(m: ZoneMap, p: Path): ZoneMap
    requires Holder(m, p) > 0
  {
    var a := p[..Holder(m, p)];
    m[a := NextSerial(m[a])]
  }

  lemma {:induction false} CursorPrefix(nodes: seq<ZoneNode>, c: Cursor, k: nat)
    requires ValidCursor(nodes, c) && 0 < k <= |c|
    ensures ValidCursor(nodes, c[..k])
    decreases |c|
  {
    if |c| > 1 && k > 1 {
      CursorPrefix(nodes[c[0]].Kids(), c[1..], k - 1);
      assert c[..k][1..] == c[1..][..k - 1];
    }
  }

  /** The walk through the parents: the length of the first cursor on the way up that is an authority. */
  function HolderAt(nodes: seq<ZoneNode>, c: Cursor): (k: nat)
    requires c == [] || ValidCursor(nodes, c)
    ensures k <= |c| && (k > 0 ==> ValidCursor(nodes, c[..k]) && At(nodes, c[..k]).zone.IsAuthority())
    decreases |c|
  {
    assert c[..|c|] == c;
    if c == [] then 0
    else if At(nodes, c).zone.IsAuthority() then |c|
    else
      assert forall j :: 0 <= j < |c| ==> c[..|c| - 1][..j] == c[..j];
      if |c| > 1 then
        CursorPrefix(nodes, c, |c| - 1);
        HolderAt(nodes, c[..|c| - 1])
      else 0
  }

  function BumpAt(nodes: seq<ZoneNode>, c: Cursor): seq<ZoneNode>
    requires ValidCursor(nodes, c) && HolderAt(nodes, c) > 0
  {
    var a := c[..HolderAt(nodes, c)];
    SetData(nodes, a, NextSerial(At(nodes, a).zone))
  }

  lemma {:induction false} HolderOfPath(nodes: seq<ZoneNode>, p: Path)
    requires Locate(nodes, p).Some?
    ensures HolderAt(nodes, Locate(nodes, p).value) == Holder(Entries(nodes), p)
    decreases |p|
  {
    var c := Locate(nodes, p).value;
    if !At(nodes, c).zone.IsAuthority() && |p| > 1 {
      LocatePrefix(nodes, p, |p| - 1);
      HolderOfPath(nodes, p[..|p| - 1]);
    }
  }

  /** The walk through the parents is the longest authoritative prefix, and its serial alone changes. */
  lemma EntriesOfBump(nodes: seq<ZoneNode>, p: Path)
    requires Locate(nodes, p).Some?
    ensures HolderAt(nodes, Locate(nodes, p).value) == Holder(Entries(nodes), p)
    ensures Holder(Entries(nodes), p) > 0 ==>
              Entries(BumpAt(nodes, Locate(nodes, p).value)) == Bumped(Entries(nodes), p)
  {
    HolderOfPath(nodes, p);
    var k := Holder(Entries(nodes), p);
    if k > 0 {
      LocatePrefix(nodes, p, k);
      EntriesOfSet(nodes, p[..k], NextSerial(At(nodes, Locate(nodes, p).value[..k]).zone));
    }
  }

  // ---- A subtree removed ----

  ghost function Removed(m: ZoneMap, p: Path): ZoneMap {
    imap q: Path | q in m && !(p <= q) :: m[q]
  }

  function Without(kids: seq<ZoneNode>, i: nat): seq<ZoneNode>
    requires i < |kids|
  {
    kids[..i] + kids[i + 1..]
  }

  function Erased(nodes: seq<ZoneNode>, c: Cursor): seq<ZoneNode>
    requires ValidCursor(nodes, c) && |c| > 1
  {
    CursorPrefix(nodes, c, |c| - 1);
    LastOfCursor(nodes, c);
    WithLevel(nodes, c[..|c| - 1], Without(Level(nodes, c[..|c| - 1]), c[|c| - 1]))
  }

  lemma {:induction false} LastOfCursor(nodes: seq<ZoneNode>, c: Cursor)
    requires ValidCursor(nodes, c) && |c| > 1
    ensures ValidCursor(nodes, c[..|c| - 1])
    ensures c[|c| - 1] < |Level(nodes, c[..|c| - 1])|
    ensures At(nodes, c) == Level(nodes, c[..|c| - 1])[c[|c| - 1]]
    decreases |c|
  {
    var d := c[1..];
    CursorPrefix(nodes, c, |c| - 1);
    assert c[..|c| - 1][1..] == d[..|d| - 1];
    if |c| > 2 { LastOfCursor(nodes[c[0]].Kids(), d); }
  }

  /** Without one of several siblings with different labels the others are found as before. */
  lemma FindWithout(kids: seq<ZoneNode>, i: nat, l: bytes)
    requires Distinct(kids) && i < |kids|
    ensures var j, k := FindLast(kids, l), FindLast(Without(kids, i), l);
            if l == kids[i].zone.name then k == None
            else k.Some? == j.Some? && (k.Some? ==> Without(kids, i)[k.value] == kids[j.value])
    ensures Distinct(Without(kids, i))
  {
    var less := Without(kids, i);
    assert forall j :: 0 <= j < |less| ==> less[j] == kids[if j < i then j else j + 1];
    var j := FindLast(kids, l);
    if l != kids[i].zone.name && j.Some? {
      var k := if j.value < i then j.value else j.value - 1;
      assert less[k] == kids[j.value];
      FindOnly(less, k);
    }
  }

  /** Just the label of the node removed is gone. */
  lemma GetWithout(kids: seq<ZoneNode>, i: nat, q: Path)
    requires Distinct(kids) && i < |kids| && q != []
    ensures Get(Without(kids, i), q) == if q[0] == kids[i].zone.name then None else Get(kids, q)
  {
    GetIsBelow(kids, q);
    GetIsBelow(Without(kids, i), q);
    FindWithout(kids, i, q[0]);
    hide FindLast, Locate, Get, Distinct, Without;
  }

  lemma EntriesOfErased(nodes: seq<ZoneNode>, p: Path)
    requires Sound(nodes) && Locate(nodes, p).Some? && |p| > 1
    ensures Entries(Erased(nodes, Locate(nodes, p).value)) == Removed(Entries(nodes), p)
  {
    var c := Locate(nodes, p).value;
    var up, d, i := p[..|p| - 1], c[..|c| - 1], c[|c| - 1];
    LocatePrefix(nodes, p, |p| - 1);
    LastOfCursor(nodes, c);
    SoundAt(nodes, d);
    PathOfLocated(nodes, p);
    LastOfPath(nodes, c);
    var less := Without(Level(nodes, d), i);
    forall q: Path
      ensures Get(WithLevel(nodes, d, less), q) == Entry(Removed(Entries(nodes), p), q)
    {
      EntryOf(nodes, q);
      if q != [] { GetErased(nodes, p, d, i, q); }
    }
    SameEntries(WithLevel(nodes, d, less), Removed(Entries(nodes), p));
  }

  lemma GetErased(nodes: seq<ZoneNode>, p: Path, d: Cursor, i: nat, q: Path)
    requires |p| > 1 && Leads(nodes, p[..|p| - 1], d) && (d == [] || ValidCursor(nodes, d)) && q != []
    requires i < |Level(nodes, d)| && Level(nodes, d)[i].zone.name == p[|p| - 1] && Distinct(Level(nodes, d))
    ensures Get(WithLevel(nodes, d, Without(Level(nodes, d), i)), q) == if p <= q then None else Get(nodes, q)
  {
    hide Locate, WithLevel, Without, Get, FindLast, Distinct;
    var up, kids := p[..|p| - 1], Level(nodes, d);
    GetWithLevel(nodes, up, d, Without(kids, i), q);
    assert p == up + [p[|p| - 1]];
    if up < q {
      GetWithout(kids, i, q[|up|..]);
      GetUnder(nodes, up, d, q);
      assert p <= q <==> q[|up|] == p[|p| - 1];
    }
  }

  lemma SoundErased(nodes: seq<ZoneNode>, c: Cursor)
    requires Sound(nodes) && ValidCursor(nodes, c) && |c| > 1
    ensures Sound(Erased(nodes, c))
  {
    var d, i := c[..|c| - 1], c[|c| - 1];
    LastOfCursor(nodes, c);
    SoundAt(nodes, d);
    var kids := Level(nodes, d);
    FindWithout(kids, i, []);
    assert forall k :: k in Without(kids, i) ==> k in kids;
    SoundWithLevel(nodes, d, Without(kids, i));
  }
}
