/** A patch in a run: it is merged with the zone it read before it took the mutex. */
module PatchRuns {
  import opened Bytes
  import opened DomainNames
  import opened Zones
  import opened ZoneTrees
  import opened ZoneMaps
  import opened ZoneSections
  import opened RestHandlers
  import opened ZoneRuns

  /** An update stores what assign makes of the zone, and nothing else of it. */
  lemma SameAssigned(tree: seq<ZoneNode>, p: Path, x: ZoneData, y: ZoneData, saves: bool)
    requires Assigned(x) == Assigned(y)
    ensures UpdateSection(tree, p, x, saves) == UpdateSection(tree, p, y, saves)
  {
    hide Assigned, ValidCursor, SearchFrom, HolderAt, BumpAt, With;
  }

  /** What is stored at a path tells what was given, the count included. */
  lemma StoredTells(m: ZoneMap, p: Path, x: ZoneData, y: ZoneData)
    requires p != [] && x.authorative == y.authorative
    requires Holder(m[p := x], p) > 0 && Holder(m[p := y], p) > 0
    requires Bumped(m[p := x], p) == Bumped(m[p := y], p)
    ensures x == y
  {
    var mx, my := m[p := x], m[p := y];
    assert p[..|p|] == p;
    AtPath(mx, p);
    AtPath(my, p);
    hide Holder, Bumped;
    if x.IsAuthority() && y.IsAuthority() {
      SameSerial(x.soa.value.serial, y.soa.value.serial);
    }
  }

  lemma AtPath(m: ZoneMap, p: Path)
    requires p in m && p != [] && Holder(m, p) > 0
    ensures p in Bumped(m, p) && Bumped(m, p)[p] == if m[p].IsAuthority() then NextSerial(m[p]) else m[p]
  {
    assert p[..|p|] == p;
    var k := Holder(m, p);
    if k < |p| { assert |p[..k]| == k; }
  }

  lemma SameSerial(s: uint32, t: uint32)
    requires (s + 1) % 0x1_0000_0000 == (t + 1) % 0x1_0000_0000
    ensures s == t
  {
  }

  /** Two updates of one zone that agree on the authority flag leave the same tree just when they give the same data. */
  lemma SameUpdate(tree: seq<ZoneNode>, domain: bytes, x: ZoneData, y: ZoneData, saves: bool)
    requires Sound(tree) && Hosts(domain) in Entries(tree) && Validate(domain, x) && Validate(domain, y)
    requires x.authorative == y.authorative && UpdateSection(tree, Hosts(domain), x, saves).Ok?
    ensures UpdateSection(tree, Hosts(domain), x, saves) == UpdateSection(tree, Hosts(domain), y, saves)
            <==> Assigned(x) == Assigned(y)
  {
    var p := Hosts(domain);
    UpdateIsExact(tree, domain, x, saves);
    UpdateIsExact(tree, domain, y, saves);
    EntryOf(tree, p);
    if Assigned(x) == Assigned(y) {
      SameAssigned(tree, p, x, y, saves);
    } else if UpdateSection(tree, p, x, saves) == UpdateSection(tree, p, y, saves) {
      hide Entries, UpdateSection, Sound, Validate, Hosts, Locate, Get;
      StoredTells(Entries(tree), p, Assigned(x), Assigned(y));
    }
  }

  lemma ThereIsValid(tree: seq<ZoneNode>, p: Path)
    requires Sound(tree) && p in Entries(tree)
    ensures ValidEntry(Entries(tree)[p])
  {
    ZoneAtPath(tree, p);
    SoundAt(tree, CursorOf(tree, p));
  }

  /**
   * What a patch would read of two trees comes to the same: its zone is in both or in neither, and they
   * agree on all fields that it leaves open. A name that is not tidy is found in no tree.
   */
  ghost predicate SameReading(before: seq<ZoneNode>, now: seq<ZoneNode>, domain: bytes, body: ZoneData)
    requires Key(domain) != []
  {
    var p, m, n := Hosts(domain), Entries(before), Entries(now);
    Plain(domain) ==>
      (p in m <==> p in n) && (p in m && p in n ==> AgreeBeside(WithLabel(body, domain), m[p], n[p]))
  }

  /** A merge with a valid zone validates only if what is merged does. */
  lemma MergedIsValid(domain: bytes, zone: ZoneData, existing: ZoneData)
    requires Validate(domain, Merged(zone, existing)) && ValidEntry(existing)
    ensures Validate(domain, zone)
  {
    MergeKeepsOneWay(zone, existing);
  }

  lemma HolderIsOne(m: ZoneMap, p: Path)
    requires Holder(m, p) > 0
    ensures Holder(m, p) <= |p| && Authority(m, p[..Holder(m, p)])
  {
  }

  lemma StoredAt(m: ZoneMap, p: Path, d: ZoneData)
    requires Holder(m[p := d], p) > 0
    ensures var r := Bumped(m[p := d], p);
            p in r && r[p] == (if d.IsAuthority() then NextSerial(d) else d) &&
            forall q: Path :: q in r ==> q == p || q in m
  {
    HolderIsOne(m[p := d], p);
    AtPath(m[p := d], p);
    hide Holder;
  }

  /** What an update stores at the path that Search answers with; nothing else comes into the map. */
  lemma UpdateStoresAt(tree: seq<ZoneNode>, domain: bytes, zone: ZoneData, saves: bool, p: Path)
    requires Sound(tree) && Validate(domain, zone) && Target(tree, Hosts(domain)) == Some(p)
    ensures var d, r := Assigned(zone), Section(Update(domain, zone), tree, saves);
            (r.Ok? <==> Holder(Entries(tree)[p := d], p) > 0 && saves) &&
            (r.Ok? ==> Entries(r.value) == Bumped(Entries(tree)[p := d], p) && p in Entries(r.value) &&
                       Entries(r.value)[p] == (if d.IsAuthority() then NextSerial(d) else d) &&
                       forall q: Path :: q in Entries(r.value) ==> q == p || q in Entries(tree))
  {
    var op, d := Update(domain, zone), Assigned(zone);
    assert Changed(op, tree) == Some(p) && WithData(op, tree) == Entries(tree)[p := d];
    hide Section, Entries, Sound, Target, Hosts, Holder, Validate, Changed, WithData, Assigned;
    TargetIs(tree, Hosts(domain));
    Refusals(op, tree, saves);
    if Section(op, tree, saves).Ok? {
      Accounting(op, tree, saves);
      StoredAt(Entries(tree), p, d);
    }
  }

  /** A zone that was there when it was read and still is. */
  lemma PatchOfStayingZone(before: seq<ZoneNode>, now: seq<ZoneNode>, domain: bytes, body: ZoneData, saves: bool)
    requires Sound(before) && Sound(now) && Plain(domain) && Key(domain) != []
    requires Hosts(domain) in Entries(before) && Hosts(domain) in Entries(now)
    requires Checked(Resolved(domain, body, before)) && Section(Resolved(domain, body, before), now, saves).Ok?
    ensures Section(Resolved(domain, body, before), now, saves) == Section(Resolved(domain, body, now), now, saves)
            <==> AgreeBeside(WithLabel(body, domain), Entries(before)[Hosts(domain)], Entries(now)[Hosts(domain)])
  {
    var p, zone := Hosts(domain), WithLabel(body, domain);
    var x, y := Merged(zone, Entries(before)[p]), Merged(zone, Entries(now)[p]);
    PatchDecision(before, domain, body);
    PatchDecision(now, domain, body);
    ThereIsValid(before, p);
    ThereIsValid(now, p);
    MergedIsValid(domain, zone, Entries(before)[p]);
    PatchIsValid(domain, zone, Entries(now)[p]);
    PatchOfAnOldReading(zone, Entries(before)[p], Entries(now)[p]);
    hide Entries, Sound, Validate, Hosts, UpdateSection, AgreeBeside, Decide;
    SameUpdate(now, domain, x, y, saves);
  }

  /** A zone that was there when it was read and is gone: a committed update has gone to another one. */
  lemma PatchOfVanishedZone(before: seq<ZoneNode>, now: seq<ZoneNode>, domain: bytes, body: ZoneData, saves: bool)
    requires Sound(before) && Sound(now) && Plain(domain) && Key(domain) != []
    requires Hosts(domain) in Entries(before) && Hosts(domain) !in Entries(now)
    requires Checked(Resolved(domain, body, before)) && Section(Resolved(domain, body, before), now, saves).Ok?
    ensures Stalls(now, Hosts(domain))
    ensures Changed(Resolved(domain, body, before), now).Some?
    ensures Changed(Resolved(domain, body, before), now).value != Hosts(domain)
    ensures Section(Resolved(domain, body, before), now, saves) != Section(Resolved(domain, body, now), now, saves)
  {
    var p, op, late := Hosts(domain), Resolved(domain, body, before), Resolved(domain, body, now);
    PatchDecision(before, domain, body);
    PatchDecision(now, domain, body);
    ThereIsValid(before, p);
    MergedIsValid(domain, WithLabel(body, domain), Entries(before)[p]);
    assert op.Update? && late.CreateZone? && Checked(late);
    hide Decide, Resolved, Section, Entries, Sound, Validate, Hosts, Stalls, Target, Merged, Holder, Bumped;
    Accounting(op, now, saves);
    TargetIs(now, p);
    UpdateStoresAt(now, domain, op.zone, saves, Target(now, p).value);
    if Section(late, now, saves).Ok? { CreatedIsThere(late, now, saves); }
  }

  /** A zone that was not there when it was looked for and is now: the create is refused. */
  lemma PatchOfAppearedZone(before: seq<ZoneNode>, now: seq<ZoneNode>, domain: bytes, body: ZoneData, saves: bool)
    requires Sound(before) && Sound(now) && Plain(domain) && Key(domain) != []
    requires Hosts(domain) !in Entries(before) && Hosts(domain) in Entries(now)
    requires Checked(Resolved(domain, body, before))
    ensures Section(Resolved(domain, body, before), now, saves) == Err(AlreadyExists)
  {
    PatchDecision(before, domain, body);
    Refusals(Resolved(domain, body, before), now, saves);
  }

  /**
   * A committed patch does what it would do had it read its zone under the mutex, if and only if the
   * reading would have come to the same.
   */
  lemma PatchAtItsTurn(before: seq<ZoneNode>, now: seq<ZoneNode>, domain: bytes, body: ZoneData, saves: bool)
    requires Sound(before) && Sound(now) && Key(domain) != []
    requires Checked(Resolved(domain, body, before)) && Section(Resolved(domain, body, before), now, saves).Ok?
    ensures Section(Resolved(domain, body, before), now, saves) == Section(Resolved(domain, body, now), now, saves)
            <==> SameReading(before, now, domain, body)
  {
    var p := Hosts(domain);
    if !Plain(domain) {
      LookupNameIsExact(before, domain);
      LookupNameIsExact(now, domain);
    } else if p in Entries(before) {
      hide Section, Resolved, AgreeBeside, Checked, Sound, Entries, Plain;
      if p in Entries(now) {
        PatchOfStayingZone(before, now, domain, body, saves);
      } else {
        PatchOfVanishedZone(before, now, domain, body, saves);
      }
    } else if p in Entries(now) {
      PatchOfAppearedZone(before, now, domain, body, saves);
      assert false;
    } else {
      PatchDecision(before, domain, body);
      PatchDecision(now, domain, body);
    }
  }

  lemma SameHolder(m: ZoneMap, n: ZoneMap, p: Path)
    requires forall j :: 0 <= j <= |p| ==> (Authority(m, p[..j]) <==> Authority(n, p[..j]))
    ensures Holder(m, p) == Holder(n, p)
  {
    var j, k := Holder(m, p), Holder(n, p);
    assert j > 0 ==> Authority(n, p[..j]);
    assert k > 0 ==> Authority(m, p[..k]);
  }

  /** A change of the zone, and its count, leave the authorities as they are but for the zone itself. */
  lemma SameAuthorities(m: ZoneMap, p: Path, x: ZoneData, y: ZoneData)
    requires Holder(m[p := x], p) > 0
    ensures Holder(Bumped(m[p := x], p)[p := y], p) == Holder(m[p := y], p)
  {
    hide Holder;
    var mx := m[p := x];
    assert Authority(mx, p[..Holder(mx, p)]) by { HolderIsOne(mx, p); }
    SameHolder(Bumped(mx, p)[p := y], m[p := y], p);
  }

  lemma UpdateStores(tree: seq<ZoneNode>, domain: bytes, zone: ZoneData, saves: bool)
    requires Sound(tree) && Hosts(domain) in Entries(tree) && Validate(domain, zone)
    ensures var p, d, r := Hosts(domain), Assigned(zone), Section(Update(domain, zone), tree, saves);
            (r.Ok? <==> Holder(Entries(tree)[p := d], p) > 0 && saves) &&
            (r.Ok? ==> Entries(r.value) == Bumped(Entries(tree)[p := d], p) && p in Entries(r.value) &&
                       Entries(r.value)[p] == if d.IsAuthority() then NextSerial(d) else d)
  {
    TargetIs(tree, Hosts(domain));
    hide Section, Entries, Hosts, Sound, Holder, Bumped;
    UpdateStoresAt(tree, domain, zone, saves, Hosts(domain));
  }

  /**
   * Of two patches of a zone that both read it before either changed it, the later one stores the zone as
   * if the earlier one had never been: what that one wrote is undone, the count of the serial included.
   */
  lemma LaterPatchUndoes(tree: seq<ZoneNode>, domain: bytes, first: ZoneData, later: ZoneData, s0: bool, s1: bool)
    requires Sound(tree) && Plain(domain) && Key(domain) != [] && Hosts(domain) in Entries(tree)
    requires Checked(Resolved(domain, first, tree)) && Checked(Resolved(domain, later, tree))
    requires Section(Resolved(domain, first, tree), tree, s0).Ok?
    requires Section(Resolved(domain, later, tree), Section(Resolved(domain, first, tree), tree, s0).value, s1).Ok?
    ensures var p, op := Hosts(domain), Resolved(domain, later, tree);
            var both := Section(op, Section(Resolved(domain, first, tree), tree, s0).value, s1).value;
            Section(op, tree, s1).Ok? && p in Entries(both) && p in Entries(Section(op, tree, s1).value) &&
            Entries(both)[p] == Entries(Section(op, tree, s1).value)[p]
  {
    var p := Hosts(domain);
    PatchDecision(tree, domain, first);
    PatchDecision(tree, domain, later);
    var x := Merged(WithLabel(first, domain), Entries(tree)[p]);
    var y := Merged(WithLabel(later, domain), Entries(tree)[p]);
    SectionKeepsSound(Update(domain, x), tree, s0);
    hide Section, Sound, Entries, Hosts, Decide, Holder, Bumped, Plain, Validate;
    UpdateStores(tree, domain, x, s0);
    var t := Section(Update(domain, x), tree, s0).value;
    UpdateStores(tree, domain, y, s1);
    UpdateStores(t, domain, y, s1);
    SameAuthorities(Entries(tree), p, Assigned(x), Assigned(y));
  }

  lemma RunLogIsChecked(requests: seq<Request>, tree: seq<ZoneNode>, s: State)
    requires Serialized(requests, tree, s)
    ensures CheckedLog(s.log)
  {
    hide Section, Replay, Checked;
    forall k | 0 <= k < |s.log| ensures Checked(s.log[k].op) { assert EntryHasThread(s, k); }
  }

  /**
   * The same for every patch of every run: the tree that the patch of thread i read was in force when the
   * log was j long, and its turn comes at the k-th entry of the log.
   */
  lemma PatchInRun(requests: seq<Request>, tree: seq<ZoneNode>, events: seq<Event>, i: nat)
    requires Sound(tree) && i < |requests| && requests[i].Patch? && Run(requests, Initial(requests, tree), events).Some?
    ensures var s := Run(requests, Initial(requests, tree), events).value;
            i < |s.threads| &&
            (Place(s.threads[i]).Some? ==>
              i < |s.read| && s.read[i].Some? && s.read[i].value <= |s.log| && Place(s.threads[i]).value < |s.log| &&
              var domain, body, k := requests[i].domain, requests[i].body, Place(s.threads[i]).value;
              var before, now := Replay(tree, s.log[..s.read[i].value]), Replay(tree, s.log[..k]);
              Key(domain) != [] && s.log[k].op == Resolved(domain, body, before) &&
              (Committed(tree, s.log, k) ==>
                (Section(s.log[k].op, now, s.log[k].saves) == Section(Resolved(domain, body, now), now, s.log[k].saves)
                 <==> SameReading(before, now, domain, body))))
  {
    EveryRunIsSerial(requests, tree, events);
    var s := Run(requests, Initial(requests, tree), events).value;
    assert ThreadDoes(requests, tree, s, i);
    if Place(s.threads[i]).Some? {
      assert ThreadHasEntry(tree, s, i);
      var k := Place(s.threads[i]).value;
      assert EntryHasThread(s, k);
      var before, now := Replay(tree, s.log[..s.read[i].value]), Replay(tree, s.log[..k]);
      RunLogIsChecked(requests, tree, s);
      EveryReplayIsSound(tree, s.log[..s.read[i].value]);
      EveryReplayIsSound(tree, s.log[..k]);
      hide Entries, Sound, Hosts, Resolved, Section, Replay, SameReading, Serialized, Checked;
      if Committed(tree, s.log, k) {
        PatchAtItsTurn(before, now, requests[i].domain, requests[i].body, s.log[k].saves);
      }
    }
  }

  // ---- Runs in which every thread has its turn alone ----

  lemma {:induction false} RunThen(requests: seq<Request>, s: State, a: seq<Event>, b: seq<Event>)
    requires Run(requests, s, a).Some?
    ensures Run(requests, s, a + b) == Run(requests, Run(requests, s, a).value, b)
    decreases |b|
  {
    hide Next;
    if b == [] {
      assert a + b == a;
    } else {
      var last := |b| - 1;
      assert (a + b)[..|a| + last] == a + b[..last];
      RunThen(requests, s, a, b[..last]);
    }
  }

  lemma RunOne(requests: seq<Request>, s: State, e: Event)
    ensures Run(requests, s, [e]) == Next(requests, s, e)
  {
    hide Next;
    assert [e][..0] == [];
  }

  function Turn(i: nat): seq<Event> {
    [Acquire(i)] + [Copy(i)] + [Commit(i, true)] + [Release(i)]
  }

  /** A thread that waits takes the mutex, runs its section, and lets go. */
  lemma TurnRuns(requests: seq<Request>, s: State, i: nat, op: Operation)
    requires i < |requests| == |s.threads| == |s.todo| == |s.read|
    requires s.owner.None? && s.threads[i] == Waiting && s.todo[i] == Some(op)
    ensures var r, t := Section(op, s.zones, true), Run(requests, s, Turn(i));
            t.Some? && t.value.zones == (if r.Ok? then r.value else s.zones) && t.value.owner == None &&
            t.value.log == s.log + [Entry(i, op, true)] && t.value.todo == s.todo && t.value.read == s.read &&
            t.value.threads == s.threads[i := Done(FailureOf(r), Some(|s.log|))]
  {
    hide Section, Resolved, ZoneRuns.Refused, Run;
    var a, b, c := [Acquire(i)], [Acquire(i)] + [Copy(i)], [Acquire(i)] + [Copy(i)] + [Commit(i, true)];
    RunOne(requests, s, Acquire(i));
    var s1 := Run(requests, s, a).value;
    RunThen(requests, s, a, [Copy(i)]);
    RunOne(requests, s1, Copy(i));
    var s2 := Run(requests, s, b).value;
    RunThen(requests, s, b, [Commit(i, true)]);
    RunOne(requests, s2, Commit(i, true));
    var s3 := Run(requests, s, c).value;
    RunThen(requests, s, c, [Release(i)]);
    RunOne(requests, s3, Release(i));
  }

  /** Two threads that come to the mutex before either has changed anything. */
  function ToTheMutex(requests: seq<Request>): seq<Event>
    requires |requests| == 2
  {
    [Read(0)] + (if requests[1].Patch? then [Read(1)] else []) + [Check(0)] + [Check(1)]
  }

  function AtTheMutex(requests: seq<Request>, tree: seq<ZoneNode>, x: Operation, y: Operation): State
    requires |requests| == 2
  {
    State(tree, None, [Waiting, Waiting], [Some(x), Some(y)],
          [Some(0), if requests[1].Patch? then Some(0) else None], [], [])
  }

  lemma RunNone(requests: seq<Request>, s: State)
    ensures Run(requests, s, []) == Some(s)
  {
  }

  lemma BothCome(requests: seq<Request>, tree: seq<ZoneNode>, x: Operation, y: Operation)
    requires |requests| == 2 && requests[0].Patch? && Key(requests[0].domain) != []
    requires x == Resolved(requests[0].domain, requests[0].body, tree)
    requires if requests[1].Ask? then y == requests[1].op
             else Key(requests[1].domain) != [] && y == Resolved(requests[1].domain, requests[1].body, tree)
    requires ZoneRuns.Refused(x, tree).None? && ZoneRuns.Refused(y, tree).None?
    ensures Run(requests, Initial(requests, tree), ToTheMutex(requests)) == Some(AtTheMutex(requests, tree, x, y))
  {
    hide Section, Resolved, ZoneRuns.Refused, Run, Key;
    var s := Initial(requests, tree);
    var a, patch := [Read(0)], requests[1].Patch?;
    RunOne(requests, s, Read(0));
    var s1 := s.(todo := s.todo[0 := Some(x)], read := s.read[0 := Some(0)]);
    assert Run(requests, s, a) == Some(s1);
    var more := if patch then [Read(1)] else [];
    RunNone(requests, s1);
    RunOne(requests, s1, Read(1));
    RunThen(requests, s, a, more);
    var s2 := s1.(todo := [Some(x), Some(y)], read := [Some(0), if patch then Some(0) else None]);
    if patch {
      assert s1.todo[1 := Some(y)] == s2.todo && s1.read[1 := Some(0)] == s2.read;
    } else {
      assert s1.todo == s2.todo && s1.read == s2.read;
    }
    assert Run(requests, s, a + more) == Some(s2);
    RunOne(requests, s2, Check(0));
    RunThen(requests, s, a + more, [Check(0)]);
    var s3 := s2.(threads := s2.threads[0 := Waiting]);
    assert Run(requests, s, a + more + [Check(0)]) == Some(s3);
    RunOne(requests, s3, Check(1));
    RunThen(requests, s, a + more + [Check(0)], [Check(1)]);
    assert s3.threads[1 := Waiting] == [Waiting, Waiting];
  }

  /** The tree after a section that can be saved. */
  function After(op: Operation, tree: seq<ZoneNode>): seq<ZoneNode> {
    var r := Section(op, tree, true);
    if r.Ok? then r.value else tree
  }

  function FailureIn(op: Operation, tree: seq<ZoneNode>): Option<Failure> {
    FailureOf(Section(op, tree, true))
  }

  /** Thread i has its turn, and then the other one. */
  lemma TwoTurns(requests: seq<Request>, tree: seq<ZoneNode>, x: Operation, y: Operation, i: nat)
    requires |requests| == 2 && i < 2
    requires Run(requests, Initial(requests, tree), ToTheMutex(requests)) == Some(AtTheMutex(requests, tree, x, y))
    ensures var op, next := if i == 0 then x else y, if i == 0 then y else x;
            var run := Run(requests, Initial(requests, tree), ToTheMutex(requests) + Turn(i) + Turn(1 - i));
            run.Some? && run.value.zones == After(next, After(op, tree)) && |run.value.threads| == 2 &&
            run.value.threads[i] == Done(FailureIn(op, tree), Some(0)) &&
            run.value.threads[1 - i] == Done(FailureIn(next, After(op, tree)), Some(1))
  {
    var s, m := Initial(requests, tree), AtTheMutex(requests, tree, x, y);
    var op, next := if i == 0 then x else y, if i == 0 then y else x;
    TurnRuns(requests, m, i, op);
    hide Section, Run, Turn, ToTheMutex, Initial;
    RunThen(requests, s, ToTheMutex(requests), Turn(i));
    var m1 := Run(requests, m, Turn(i)).value;
    TurnRuns(requests, m1, 1 - i, next);
    RunThen(requests, s, ToTheMutex(requests) + Turn(i), Turn(1 - i));
  }
}
