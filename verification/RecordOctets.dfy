/**
 * Records by their octets (sections 3.3 and 3.4 of RFC 1035): what a record that reads as planned has at
 * which place, in numbers and positions alone.
 */
module RecordOctets {
  import opened Bytes
  import opened Compression
  import opened DomainNames
  import opened Messages
  import opened Zones
  import opened LabelHeaders
  import opened Answers
  import opened DnsPlans

  /** Two and four octets as a number, the most significant one first. */
  function Short(b: bytes, i: nat): int
    requires i + 2 <= |b|
  {
    b[i] as int * 256 + b[i + 1]
  }

  function Long(b: bytes, i: nat): int
    requires i + 4 <= |b|
  {
    ((b[i] as int * 256 + b[i + 1]) * 256 + b[i + 2]) * 256 + b[i + 3]
  }

  /** The octets of a 32-bit number stand for it; with nothing lost, and nothing exchanged. */
  lemma LongIs(b: bytes, i: nat, n: uint32)
    requires OctetsAt(b, i, U32(n))
    ensures Long(b, i) == n == GetU32(b, i)
  {
    var x := U32(n);
    assert b[i..i + 4] == x;
    assert b[i] == x[0] && b[i + 1] == x[1] && b[i + 2] == x[2] && b[i + 3] == x[3];
    Digits(n);
  }

  lemma Digits(n: uint32)
    ensures ((n / 0x100_0000 * 256 + n / 0x1_0000 % 0x100) * 256 + n / 0x100 % 0x100) * 256 + n % 0x100 == n
  {
    var a, b := n / 0x100, n / 0x1_0000;
    assert b == a / 256 && n / 0x100_0000 == b / 256;
    assert n == a * 256 + n % 0x100 && a == b * 256 + a % 256 && b == b / 256 * 256 + b % 256;
  }

  lemma ShortIs(b: bytes, i: nat, n: uint16)
    requires OctetsAt(b, i, U16(n))
    ensures Short(b, i) == n == GetU16(b, i)
  {
    var x := U16(n);
    assert b[i..i + 2] == x;
    assert b[i] == x[0] && b[i + 1] == x[1];
  }

  /** Big-endian, by an example that no other order gives. */
  lemma MostSignificantFirst()
    ensures U16(0x102) == [1, 2] && U32(0x1020304) == [1, 2, 3, 4]
  {
  }

  /** The numbers that stand for the types of records on the wire. */
  lemma TypeNumbers(r: Rdata)
    ensures r.Type() == (if r.A? then 1 else if r.Ns? then 2 else if r.Cname? then 5 else if r.Soa? then 6
                         else if r.Mx? then 15 else if r.Txt? then 16 else 28)
  {
  }

  /** Type, class, time to live and length stand behind the owner name; the data follows, up to the end. */
  lemma FrameOctets(b: bytes, pos: nat, r: Record, end: nat)
    requires RecordAt(b, pos, r, end)
    ensures var e := NameEnd(b, pos);
            NameAt(b, NO_HOLE, pos, pos) == Some(r.owner) && e + 10 <= end <= |b| &&
            Short(b, e) == r.rtype && Short(b, e + 2) == 1 && Long(b, e + 4) == 300 &&
            Short(b, e + 8) == end - (e + 10) && Holds(b, ReadFrame(b, pos).value, r) &&
            ReadFrame(b, pos).value.data == e + 10 && ReadFrame(b, pos).value.next == end
  {
    hide NameAt, NameEnd, ContentAt;
  }

  /** One name, and nothing else. */
  predicate NameIs(b: bytes, i: nat, labels: seq<bytes>, end: nat) {
    NameAt(b, NO_HOLE, i, i) == Some(labels) && NameEnd(b, i) == end
  }

  lemma FourteenBits(b: bytes, i: nat)
    requires i + 2 <= |b| && b[i] >= 192
    ensures Offset(GetU16(b, i)) == (b[i] as int - 192) * 256 + b[i + 1]
  {
    var hi, lo: int := b[i], b[i + 1];
    assert GetU16(b, i) == 3 * 0x4000 + ((hi - 192) * 256 + lo);
  }

  /** Two octets from 192 on are a pointer: fourteen bits that say where the name goes on. */
  lemma PointerOctets(b: bytes, i: nat)
    requires 12 <= i && i + 2 <= |b| && b[i] >= 192
    ensures var j := (b[i] as int - 192) * 256 + b[i + 1];
            NameEnd(b, i) == i + 2 && NameAt(b, NO_HOLE, i, i) == if j < i then NameAt(b, NO_HOLE, j, j) else None
  {
    NameStep(b, NO_HOLE, i, i);
    FourteenBits(b, i);
    hide NameAt, NameEnd, Offset, GetU16;
  }

  /** An octet below 64 is the length of a label, and 0 is the end. */
  lemma LabelOctets(b: bytes, i: nat)
    requires 12 <= i < |b| && b[i] < 64 && i + 1 + b[i] <= |b|
    ensures var j := i + 1 + b[i];
            if b[i] == 0 then NameAt(b, NO_HOLE, i, i) == Some([]) && NameEnd(b, i) == i + 1
            else
              NameAt(b, NO_HOLE, i, i) == Before([b[i + 1..j]], NameAt(b, NO_HOLE, i, j)) &&
              NameEnd(b, i) == NameEnd(b, j)
  {
    NameStep(b, NO_HOLE, i, i);
  }

  lemma NoName(b: bytes, c: Content, i: nat, end: nat)
    requires ContentAt(b, i, c, end) && c.names == [] && c.suffix == []
    ensures i + |c.prefix| == end <= |b| && b[i..end] == c.prefix
  {
  }

  lemma NextName(b: bytes, i: nat, names: seq<seq<bytes>>, end: nat)
    requires NamesAt(b, NO_HOLE, i, names, end) && names != []
    ensures NameAt(b, NO_HOLE, i, i) == Some(names[0]) && NamesAt(b, NO_HOLE, NameEnd(b, i), names[1..], end)
    ensures |names| == 1 ==> NameEnd(b, i) == end
  {
    hide NameAt, NameEnd;
    assert |names| == 1 ==> names[1..] == [];
  }

  lemma OneName(b: bytes, c: Content, i: nat, end: nat)
    requires ContentAt(b, i, c, end) && |c.names| == 1
    ensures OctetsAt(b, i, c.prefix) && |c.suffix| <= end && OctetsAt(b, end - |c.suffix|, c.suffix)
    ensures NameIs(b, i + |c.prefix|, c.names[0], end - |c.suffix|)
  {
    hide NameAt, NameEnd, AfterNames;
    NextName(b, i + |c.prefix|, c.names, end - |c.suffix|);
  }

  lemma TwoNames(b: bytes, c: Content, i: nat, end: nat)
    requires ContentAt(b, i, c, end) && |c.names| == 2
    ensures |c.suffix| <= end && OctetsAt(b, end - |c.suffix|, c.suffix)
    ensures var j := i + |c.prefix|;
            NameIs(b, j, c.names[0], NameEnd(b, j)) && NameIs(b, NameEnd(b, j), c.names[1], end - |c.suffix|)
  {
    hide NameAt, NameEnd, AfterNames;
    NextName(b, i + |c.prefix|, c.names, end - |c.suffix|);
    NextName(b, NameEnd(b, i + |c.prefix|), c.names[1..], end - |c.suffix|);
  }

  // ---- What each kind of record holds ----

  /** An address record holds the octets of the address, and no more. */
  lemma AddressOctets(b: bytes, f: Framed, p: Planned)
    requires Holds(b, f, p.Says()) && (p.rdata.A? || p.rdata.Aaaa?)
    ensures f.owner == p.OwnerLabels() && f.next <= |b|
    ensures p.rdata.A? ==> f.rtype == 1 && f.next == f.data + 4 && b[f.data..f.next] == p.rdata.ip4
    ensures p.rdata.Aaaa? ==> f.rtype == 28 && f.next == f.data + 16 && b[f.data..f.next] == p.rdata.ip6
  {
    NoName(b, p.Says().content, f.data, f.next);
  }

  /** An alias or a name server is one name. */
  lemma TargetOctets(b: bytes, f: Framed, p: Planned)
    requires Holds(b, f, p.Says()) && (p.rdata.Cname? || p.rdata.Ns?)
    ensures f.owner == p.OwnerLabels()
    ensures p.rdata.Cname? ==> f.rtype == 5 && NameIs(b, f.data, Fragments(p.rdata.target), f.next)
    ensures p.rdata.Ns? ==> f.rtype == 2 && NameIs(b, f.data, Fragments(p.rdata.host), f.next)
  {
    hide NameAt, NameEnd, AfterNames, Fragments;
    OneName(b, p.Says().content, f.data, f.next);
  }

  /** The preference, most significant octet first, and the name of the exchanger. */
  lemma MxOctets(b: bytes, f: Framed, p: Planned)
    requires Holds(b, f, p.Says()) && p.rdata.Mx?
    ensures f.owner == p.OwnerLabels() && f.rtype == 15 && f.data + 2 <= |b|
    ensures Short(b, f.data) == p.rdata.priority == GetU16(b, f.data)
    ensures NameIs(b, f.data + 2, Fragments(p.rdata.exchange), f.next)
  {
    hide NameAt, NameEnd, AfterNames, Fragments;
    OneName(b, p.Says().content, f.data, f.next);
    ShortIs(b, f.data, p.rdata.priority);
  }

  /** A length octet, modulo 256, and the text. */
  lemma TextOctets(b: bytes, f: Framed, p: Planned)
    requires Holds(b, f, p.Says()) && p.rdata.Txt?
    ensures f.owner == p.OwnerLabels() && f.rtype == 16 && f.data < f.next <= |b|
    ensures b[f.data] == |p.rdata.text| % 256 && b[f.data + 1..f.next] == p.rdata.text
  {
    NoName(b, p.Says().content, f.data, f.next);
    var data := b[f.data..f.next];
    assert data[0] == |p.rdata.text| % 256 && data[1..] == p.rdata.text;
  }

  // ---- SOA ----

  /** The person responsible; "hostnamster" where none is given. */
  function Responsible(s: Zones.Soa): bytes {
    if s.rname == [] then [104, 111, 115, 116, 110, 97, 109, 115, 116, 101, 114] else s.rname
  }

  /** A name, and behind it a dot and a label for each label of the zone. */
  function Continued(name: bytes, zone: seq<bytes>): bytes
    decreases |zone|
  {
    if zone == [] then name else Continued(name, zone[..|zone| - 1]) + [46] + zone[|zone| - 1]
  }

  /** A name that does not end in a dot goes on with the labels of the zone. */
  function Full(name: bytes, zone: seq<bytes>): bytes {
    if name == [] || name[|name| - 1] == 46 then name else Continued(name, zone)
  }

  lemma {:induction false} QualifiedIsFull(name: bytes, zone: seq<bytes>)
    ensures Qualified(name, zone) == Full(name, zone)
  {
    ContinuedIs(name, zone);
  }

  lemma {:induction false} ContinuedIs(name: bytes, zone: seq<bytes>)
    ensures Join([name] + zone) == Continued(name, zone)
    decreases |zone|
  {
    if zone == [] {
      assert [name] + zone == [name];
    } else {
      var last := |zone| - 1;
      ContinuedIs(name, zone[..last]);
      JoinSnoc([name] + zone[..last], zone[last]);
      assert [name] + zone[..last] + [zone[last]] == [name] + zone;
    }
  }

  /** The labels of a text with a dot in it are those before the dot and those behind it. */
  lemma {:induction false} FragmentsOfTwo(s: bytes, t: bytes)
    requires s != [] && s[|s| - 1] != 46
    ensures Fragments(s + [46] + t) == Fragments(s) + Fragments(t)
    decreases |s|
  {
    hide Fragments, FindDot;
    var d, whole := FindDot(s), s + [46] + t;
    Cut(s, d);
    DotIs(s);
    CutWhole(s, t, d);
    if d == |s| {
      assert whole[d + 1..] == t;
    } else {
      FragmentsOfTwo(s[d + 1..], t);
      assert whole[d + 1..] == s[d + 1..] + [46] + t;
      assert [s[..d]] + (Fragments(s[d + 1..]) + Fragments(t)) == [s[..d]] + Fragments(s[d + 1..]) + Fragments(t);
    }
  }

  lemma DotIs(s: bytes)
    ensures var d := FindDot(s); d <= |s| && 46 !in s[..d] && (d < |s| ==> s[d] == 46)
  {
  }

  lemma CutWhole(s: bytes, t: bytes, d: nat)
    requires d <= |s| && 46 !in s[..d] && (d < |s| ==> s[d] == 46)
    ensures var whole := s + [46] + t; Fragments(whole) == [s[..d]] + Fragments(whole[d + 1..])
  {
    hide Fragments, FindDot;
    var whole := s + [46] + t;
    assert whole[..d] == s[..d] && whole[d] == 46;
    FindDotIs(whole, d);
    Cut(whole, d);
  }

  /** So the labels of a full name are its own, and then those of the zone. */
  lemma FullLabels(name: bytes, zone: seq<bytes>)
    requires DotFree(zone) && forall k :: 0 <= k < |zone| ==> zone[k] != []
    ensures Fragments(Full(name, zone)) ==
            Fragments(name) + if name == [] || name[|name| - 1] == 46 then [] else zone
  {
    hide Fragments;
    if name != [] && name[|name| - 1] != 46 && zone != [] {
      ContinuedIs(name, zone);
      JoinCons(name, zone);
      FragmentsOfTwo(name, Join(zone));
      FragmentsOfJoin(zone);
    }
  }

  lemma FiveNumbers(b: bytes, i: nat, s: Zones.Soa)
    requires OctetsAt(b, i, U32(s.serial) + U32(s.refresh) + U32(s.retry) + U32(s.expire) + U32(s.minimum))
    ensures i + 20 <= |b|
    ensures Long(b, i) == s.serial == GetU32(b, i) && Long(b, i + 4) == s.refresh == GetU32(b, i + 4)
    ensures Long(b, i + 8) == s.retry == GetU32(b, i + 8) && Long(b, i + 12) == s.expire == GetU32(b, i + 12)
    ensures Long(b, i + 16) == s.minimum == GetU32(b, i + 16)
  {
    var v, w, x, y, z := U32(s.serial), U32(s.refresh), U32(s.retry), U32(s.expire), U32(s.minimum);
    hide U32, OctetsAt, Long, GetU32;
    OctetsSplit(b, i, v + w + x + y, z);
    OctetsSplit(b, i, v + w + x, y);
    OctetsSplit(b, i, v + w, x);
    OctetsSplit(b, i, v, w);
    LongIs(b, i, s.serial);
    LongIs(b, i + 4, s.refresh);
    LongIs(b, i + 8, s.retry);
    LongIs(b, i + 12, s.expire);
    LongIs(b, i + 16, s.minimum);
  }

  /**
   * The last twenty octets of an SOA record are its five numbers, serial first; in front of them stand the
   * primary server, if one is named, and the person responsible, both continued by the zone.
   */
  lemma SoaOctets(b: bytes, f: Framed, p: Planned)
    requires Holds(b, f, p.Says()) && p.rdata.Soa?
    ensures f.owner == p.OwnerLabels() && f.rtype == 6 && 20 <= f.next <= |b|
    ensures var s, e := p.rdata.soa, f.next;
            GetU32(b, e - 20) == s.serial == Long(b, e - 20) && GetU32(b, e - 16) == s.refresh == Long(b, e - 16) &&
            GetU32(b, e - 12) == s.retry == Long(b, e - 12) && GetU32(b, e - 8) == s.expire == Long(b, e - 8) &&
            GetU32(b, e - 4) == s.minimum == Long(b, e - 4)
    ensures var s, zone, e := p.rdata.soa, p.rdata.zone, f.next;
            var person := Fragments(Full(Responsible(s), zone));
            if s.mname.None? then NameIs(b, f.data, person, e - 20)
            else
              NameIs(b, f.data, Fragments(Full(s.mname.value, zone)), NameEnd(b, f.data)) &&
              NameIs(b, NameEnd(b, f.data), person, e - 20)
  {
    hide NameAt, NameEnd, AfterNames, Fragments, U32, Qualified, Full, GetU32, Long;
    var s, c := p.rdata.soa, p.Says().content;
    QualifiedIsFull(s.GetRname(), p.rdata.zone);
    if s.mname.Some? {
      QualifiedIsFull(s.mname.value, p.rdata.zone);
      TwoNames(b, c, f.data, f.next);
    } else {
      OneName(b, c, f.data, f.next);
    }
    FiveNumbers(b, f.next - 20, s);
  }
}
