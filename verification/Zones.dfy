/** The data of one zone, shared by both zone stores and the name server. */
module Zones {
  import opened Bytes
  import opened DomainNames

  type Ip4 = b: bytes | |b| == 4 witness [0, 0, 0, 0]
  type Ip6 = b: bytes | |b| == 16 witness seq(16, _ => 0)

  // "hostnamster"
  const HOSTMASTER: bytes := [104, 111, 115, 116, 110, 97, 109, 115, 116, 101, 114]

  datatype Soa = Soa(mname: Option<bytes>, rname: bytes, serial: uint32, refresh: uint32, retry: uint32,
                     expire: uint32, minimum: uint32)
  {
    function GetRname(): bytes {
      if rname == [] then HOSTMASTER else rname
    }
  }

  datatype Mx = Mx(fqdn: bytes, priority: uint32)

  datatype ZoneData = ZoneData(name: bytes, soa: Option<Soa>, authorative: bool, txt: Option<bytes>,
                               a: Option<seq<Ip4>>, aaaa: Option<seq<Ip6>>, cname: Option<bytes>,
                               ns: Option<seq<bytes>>, mx: Option<seq<Mx>>)
  {
    /** The cname() and txt() accessors: absent reads as empty. */
    function Cname(): bytes {
      if cname.Some? then cname.value else []
    }

    function Text(): bytes {
      if txt.Some? then txt.value else []
    }

    predicate HaveCname() {
      Cname() != []
    }

    predicate HaveTxt() {
      Text() != []
    }

    predicate HaveAddress() {
      (a.Some? && a.value != []) || (aaaa.Some? && aaaa.value != [])
    }

    /** The authority whose serial counts changes. */
    predicate IsAuthority() {
      soa.Some? && authorative
    }
  }

  /** Ns::GetFdqn */
  function Fqdn(host: bytes, domainName: bytes): bytes {
    if domainName != [] then host + [DOT] + domainName else host
  }

  /** A zone as the name server sees it: its data, and the zones it lies in. `id` tells zones apart. */
  datatype Zone = Zone(id: seq<nat>, data: ZoneData, parent: Option<Zone>)
  {
    /** The labels from this zone up. */
    function Labels(): seq<bytes> {
      [data.name] + if parent.Some? then parent.value.Labels() else []
    }

    function GetDomainName(): bytes {
      Join(Labels())
    }

    /** The nearest zone from here up that has an SOA record. */
    function SoaZone(): (r: Option<Zone>)
      ensures r.Some? ==> r.value.data.soa.Some?
    {
      if data.soa.Some? then Some(this)
      else if parent.Some? then parent.value.SoaZone()
      else None
    }
  }

  /** What a zone manager's Lookup returns; `authority` is the flag it leaves behind. */
  datatype Found = Found(zone: Option<Zone>, authority: bool)
}
