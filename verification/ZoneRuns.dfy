/**
 * Runs of the json store with many threads at once. The first check of an operation reads the tree in force
 * without the mutex; copying the tree, changing the copy and committing it are separate steps under the
 * mutex, and the steps of all threads interleave in any order.
 */
module ZoneRuns {
  import opened Bytes
  import opened DomainNames
  import opened Zones
  import opened ZoneTrees
  import opened ZoneMaps
  import opened ZoneSections
  import opened AuthorityFields
  import opened RestHandlers

  datatype Operation =
    | CreateZone(domain: bytes, zone: ZoneData)
    | Update(domain: bytes, zone: ZoneData)
    | Delete(domain: bytes)

  /** A thread comes with an operation, or with a patch that is yet to be merged with the zone it reads. */
  datatype Request = Ask(op: Operation) | Patch(domain: bytes, body: ZoneData)

  /** What a patch asks for once it has read the tree. */
  function Resolved(domain: bytes, body: ZoneData, tree: seq<ZoneNode>): Operation
    requires Key(domain) != []
  {
    match Decide(PATCH, tree, domain, body)
    case ToUpdate(zone) => Update(domain, zone)
    case ToCreate(zone) => CreateZone(domain, zone)
  }

  /** What an operation checks before it asks for the mutex. */
  function Refused(op: Operation, tree: seq<ZoneNode>): Option<Failure> {
    match op
    case CreateZone(domain, zone) =>
      if LookupNameIn(tree, domain).Some? then Some(AlreadyExists)
      else if !Validate(domain, zone) then Some(Validation)
      else None
    case Update(domain, zone) => if !Validate(domain, zone) then Some(Validation) else None
    case Delete(_) => None
  }

  predicate Checked(op: Operation) {
    op.Delete? || Validate(op.domain, op.zone)
  }

  function Section(op: Operation, tree: seq<ZoneNode>, saves: bool): Result<seq<ZoneNode>, Failure> {
    match op
    case CreateZone(domain, zone) => CreateSection(tree, Hosts(domain), zone, saves)
    case Update(domain, zone) => UpdateSection(tree, Hosts(domain), zone, saves)
    case Delete(domain) => DeleteSection(tree, Hosts(domain), saves)
  }

  function FailureOf(r: Result<seq<ZoneNode>, Failure>): Option<Failure> {
    if r.Err? then Some(r.error) else None
  }

  /** A thread that is alone runs its check and its section on the same tree. */
  lemma AloneIsCheckThenSection(op: Operation, tree: seq<ZoneNode>, saves: bool)
    ensures var r := if Refused(op, tree).Some? then Err(Refused(op, tree).value) else Section(op, tree, saves);
            (op.CreateZone? ==> CreateAlone(tree, op.domain, op.zone, saves) == r) &&
            (op.Update? ==> UpdateAlone(tree, op.domain, op.zone, saves) == r)
  {
  }

  // ---- Threads ----

  /** Where a thread is, how its operation failed, if it did, and the place of its locked section in the log. */
  datatype Phase =
    | Start
    | Waiting
    | Locked
    | Copied(work: seq<ZoneNode>)
    | Leaving(failure: Option<Failure>, place: Option<nat>)
    | Done(failure: Option<Failure>, place: Option<nat>)

  /** One locked section that has run. */
  datatype Entry = Entry(thread: nat, op: Operation, saves: bool)

  /**
   * The tree in force, the owner of the mutex, the threads, what each is to do, who got the mutex and what
   * they did; `read` is the length of the log when a patch read its zone.
   */
  datatype State = State(zones: seq<ZoneNode>, owner: Option<nat>, threads: seq<Phase>, todo: seq<Option<Operation>>,
                         read: seq<Option<nat>>, order: seq<nat>, log: seq<Entry>)

  datatype Event =
    | Read(i: nat)
    | Check(i: nat)
    | Acquire(i: nat)
    | Copy(i: nat)
    | Commit(i: nat, saves: bool)
    | Release(i: nat)

  function Asked(requests: seq<Request>): (r: seq<Option<Operation>>)
    ensures |r| == |requests|
    ensures forall i :: 0 <= i < |r| ==> r[i] == if requests[i].Ask? then Some(requests[i].op) else None
  {
    seq(|requests|, i requires 0 <= i < |requests| => if requests[i].Ask? then Some(requests[i].op) else None)
  }

  function Initial(requests: seq<Request>, tree: seq<ZoneNode>): State {
    State(tree, None, seq(|requests|, _ => Start), Asked(requests), seq(|requests|, _ => None), [], [])
  }

  /** One step of one thread; None if the thread cannot take it now. */
  function Next(requests: seq<Request>, s: State, e: Event): Option<State> {
    if !(e.i < |requests| == |s.threads| == |s.todo| == |s.read|) then None
    else
      match (e, s.threads[e.i])
      case (Read(i), Start) =>
        if s.todo[i].Some? || requests[i].Ask? || Key(requests[i].domain) == [] then None
        else
          Some(s.(todo := s.todo[i := Some(Resolved(requests[i].domain, requests[i].body, s.zones))],
                  read := s.read[i := Some(|s.log|)]))
      case (Check(i), Start) =>
        if s.todo[i].None? then None
        else
          var refusal := Refused(s.todo[i].value, s.zones);
          Some(s.(threads := s.threads[i := if refusal.Some? then Done(refusal, None) else Waiting]))
      case (Acquire(i), Waiting) =>
        if s.owner.Some? then None
        else Some(s.(owner := Some(i), threads := s.threads[i := Locked], order := s.order + [i]))
      case (Copy(i), Locked) => Some(s.(threads := s.threads[i := Copied(s.zones)]))
      case (Commit(i, saves), Copied(work)) =>
        if s.todo[i].None? then None
        else
          var r := Section(s.todo[i].value, work, saves);
          Some(s.(zones := if r.Ok? then r.value else s.zones,
                  threads := s.threads[i := Leaving(FailureOf(r), Some(|s.log|))],
                  log := s.log + [Entry(i, s.todo[i].value, saves)]))
      case (Release(i), Leaving(failure, place)) =>
        Some(s.(owner := None, threads := s.threads[i := Done(failure, place)]))
      case _ => None
  }

  function Run(requests: seq<Request>, s: State, events: seq<Event>): Option<State>
    decreases |events|
  {
    if events == [] then Some(s)
    else
      var last := |events| - 1;
      var t := Run(requests, s, events[..last]);
      if t.None? then None else Next(requests, t.value, events[last])
  }

  // ---- The same sections one after the other ----

  /** The sections of the log run one after the other, each on the tree the one before it left. */
  function Replay(tree: seq<ZoneNode>, log: seq<Entry>): seq<ZoneNode>
    decreases |log|
  {
    if log == [] then tree
    else
      var last := |log| - 1;
      var t := Replay(tree, log[..last]);
      var r := Section(log[last].op, t, log[last].saves);
      if r.Ok? then r.value else t
  }

  function Owners(log: seq<Entry>): (r: seq<nat>)
    ensures |r| == |log| && forall k :: 0 <= k < |log| ==> r[k] == log[k].thread
  {
    seq(|log|, k requires 0 <= k < |log| => log[k].thread)
  }

  predicate Inside(p: Phase) {
    p.Locked? || p.Copied?
  }

  /** The log entry that a thread has left. */
  function Place(p: Phase): Option<nat> {
    if p.Leaving? || p.Done? then p.place else None
  }

  predicate MutexHeld(s: State) {
    (s.owner.Some? ==> s.owner.value < |s.threads|) &&
    forall i :: 0 <= i < |s.threads| ==>
      ((Inside(s.threads[i]) || s.threads[i].Leaving?) <==> s.owner == Some(i))
  }

  /** The copy that a thread works on is the tree in force. */
  predicate CopyIsCurrent(s: State) {
    forall i :: 0 <= i < |s.threads| && s.threads[i].Copied? ==> s.threads[i].work == s.zones
  }

  /** The order of the log is the order in which the mutex was taken. */
  predicate InLockOrder(s: State) {
    s.order == Owners(s.log) +
      if s.owner.Some? && s.owner.value < |s.threads| && Inside(s.threads[s.owner.value]) then [s.owner.value] else []
  }

  /** Every entry of the log is that of one thread. */
  predicate EntriesHaveThreads(s: State) {
    forall k :: 0 <= k < |s.log| ==> EntryHasThread(s, k)
  }

  predicate EntryHasThread(s: State, k: nat)
    requires k < |s.log|
  {
    var e := s.log[k];
    e.thread < |s.threads| == |s.todo| && s.todo[e.thread] == Some(e.op) && Checked(e.op) &&
    Place(s.threads[e.thread]) == Some(k)
  }

  /** Every thread that has left the mutex has its entry, and reports what the entry does in its turn. */
  predicate ThreadsHaveEntries(tree: seq<ZoneNode>, s: State) {
    forall i :: 0 <= i < |s.threads| && Place(s.threads[i]).Some? ==> ThreadHasEntry(tree, s, i)
  }

  predicate ThreadHasEntry(tree: seq<ZoneNode>, s: State, i: nat)
    requires i < |s.threads| && Place(s.threads[i]).Some?
  {
    var k := Place(s.threads[i]).value;
    k < |s.log| && s.log[k].thread == i &&
    s.threads[i].failure == FailureOf(Section(s.log[k].op, Replay(tree, s.log[..k]), s.log[k].saves))
  }

  /** Threads come as far as the mutex only with an operation that was checked. */
  predicate WaitersAreChecked(s: State) {
    forall i :: 0 <= i < |s.threads| && (s.threads[i].Waiting? || Inside(s.threads[i])) ==> IsChecked(s, i)
  }

  predicate IsChecked(s: State, i: nat) {
    i < |s.todo| && s.todo[i].Some? && Checked(s.todo[i].value)
  }

  /** What a thread does is what it came with; a patch was merged with a tree that was in force. */
  predicate TodoIsRequested(requests: seq<Request>, tree: seq<ZoneNode>, s: State) {
    |s.threads| == |s.todo| == |s.read| == |requests| &&
    forall i :: 0 <= i < |requests| ==> ThreadDoes(requests, tree, s, i)
  }

  predicate ThreadDoes(requests: seq<Request>, tree: seq<ZoneNode>, s: State, i: nat)
    requires i < |requests| == |s.todo| == |s.read|
  {
    match requests[i]
    case Ask(op) => s.todo[i] == Some(op)
    case Patch(domain, body) =>
      if s.read[i].None? then s.todo[i] == None
      else
        s.read[i].value <= |s.log| && Key(domain) != [] &&
        s.todo[i] == Some(Resolved(domain, body, Replay(tree, s.log[..s.read[i].value])))
  }

  predicate Serialized(requests: seq<Request>, tree: seq<ZoneNode>, s: State) {
    TodoIsRequested(requests, tree, s) && MutexHeld(s) && CopyIsCurrent(s) && InLockOrder(s) && EntriesHaveThreads(s) &&
    ThreadsHaveEntries(tree, s) && WaitersAreChecked(s) && s.zones == Replay(tree, s.log)
  }

  lemma ReplaySnoc(tree: seq<ZoneNode>, log: seq<Entry>, e: Entry)
    ensures Replay(tree, log + [e]) ==
            var r := Section(e.op, Replay(tree, log), e.saves);
            if r.Ok? then r.value else Replay(tree, log)
  {
    assert (log + [e])[..|log|] == log;
  }

  lemma StepKeepsMutex(requests: seq<Request>, s: State, e: Event)
    requires MutexHeld(s) && CopyIsCurrent(s) && Next(requests, s, e).Some?
    ensures MutexHeld(Next(requests, s, e).value) && CopyIsCurrent(Next(requests, s, e).value)
  {
    hide Section, Refused, Resolved;
  }

  lemma StepKeepsOrder(requests: seq<Request>, s: State, e: Event)
    requires MutexHeld(s) && InLockOrder(s) && Next(requests, s, e).Some?
    ensures InLockOrder(Next(requests, s, e).value)
  {
    hide Section, Refused, Resolved;
    var t := Next(requests, s, e).value;
    assert Owners(t.log) + [] == Owners(t.log) && Owners(s.log) + [] == Owners(s.log);
    if e.Commit? { assert Owners(t.log) == Owners(s.log) + [e.i]; }
  }

  lemma StepKeepsWaiters(requests: seq<Request>, s: State, e: Event)
    requires WaitersAreChecked(s) && Next(requests, s, e).Some?
    ensures WaitersAreChecked(Next(requests, s, e).value)
  {
    hide Section, Refused, Checked, Resolved;
    var t := Next(requests, s, e).value;
    if e.Check? { CheckedAfter(s.todo[e.i].value, s.zones); }
    forall i | 0 <= i < |t.threads| && (t.threads[i].Waiting? || Inside(t.threads[i])) ensures IsChecked(t, i) {
      if t.threads[i] == s.threads[i] {
        assert IsChecked(s, i);
        assert !e.Read? ==> t.todo == s.todo;
      } else if !e.Check? {
        assert IsChecked(s, i);
      }
    }
  }

  /** A thread that has its entry never gets another. */
  lemma EntryStays(requests: seq<Request>, s: State, e: Event, k: nat)
    requires Next(requests, s, e).Some? && k < |s.log| && EntryHasThread(s, k)
    ensures |s.log| <= |Next(requests, s, e).value.log| && EntryHasThread(Next(requests, s, e).value, k)
  {
    hide Section, Refused, Checked, Resolved;
    var t := Next(requests, s, e).value;
    assert t.log[k] == s.log[k];
  }

  /** The entry of a commit is that of the thread that commits. */
  lemma NewEntry(requests: seq<Request>, s: State, e: Event)
    requires WaitersAreChecked(s) && Next(requests, s, e).Some? && |Next(requests, s, e).value.log| > |s.log|
    ensures |Next(requests, s, e).value.log| == |s.log| + 1 && EntryHasThread(Next(requests, s, e).value, |s.log|)
  {
    hide Section, Refused, Checked, Resolved;
  }

  lemma StepKeepsEntries(requests: seq<Request>, s: State, e: Event)
    requires EntriesHaveThreads(s) && WaitersAreChecked(s) && Next(requests, s, e).Some?
    ensures EntriesHaveThreads(Next(requests, s, e).value)
  {
    var t := Next(requests, s, e).value;
    if |t.log| > |s.log| { NewEntry(requests, s, e); }
    forall k | 0 <= k < |t.log| ensures EntryHasThread(t, k) {
      hide Next, EntryHasThread, WaitersAreChecked;
      if k < |s.log| {
        assert EntryHasThread(s, k);
        EntryStays(requests, s, e, k);
      }
    }
  }

  lemma StepKeepsThreads(requests: seq<Request>, tree: seq<ZoneNode>, s: State, e: Event)
    requires MutexHeld(s) && CopyIsCurrent(s) && ThreadsHaveEntries(tree, s) && s.zones == Replay(tree, s.log)
    requires Next(requests, s, e).Some?
    ensures ThreadsHaveEntries(tree, Next(requests, s, e).value)
  {
    var t := Next(requests, s, e).value;
    hide Section, Refused, Replay, Resolved;
    assert t.log[..|s.log|] == s.log;
    forall i | 0 <= i < |t.threads| && Place(t.threads[i]).Some? ensures ThreadHasEntry(tree, t, i) {
      if t.threads[i] == s.threads[i] {
        assert ThreadHasEntry(tree, s, i);
        var k := Place(s.threads[i]).value;
        assert t.log[..k] == s.log[..k];
      } else if e.Release? {
        assert ThreadHasEntry(tree, s, i);
      }
    }
  }

  lemma StepKeepsReplay(requests: seq<Request>, tree: seq<ZoneNode>, s: State, e: Event)
    requires CopyIsCurrent(s) && s.zones == Replay(tree, s.log) && Next(requests, s, e).Some?
    ensures Next(requests, s, e).value.zones == Replay(tree, Next(requests, s, e).value.log)
  {
    hide Section, Refused, Replay, Resolved;
    if e.Commit? { ReplaySnoc(tree, s.log, Entry(e.i, s.todo[e.i].value, e.saves)); }
  }

  lemma StepKeepsTodo(requests: seq<Request>, tree: seq<ZoneNode>, s: State, e: Event)
    requires TodoIsRequested(requests, tree, s) && s.zones == Replay(tree, s.log) && Next(requests, s, e).Some?
    ensures TodoIsRequested(requests, tree, Next(requests, s, e).value)
  {
    var t := Next(requests, s, e).value;
    hide Section, Refused, Replay, Resolved;
    assert t.log[..|s.log|] == s.log;
    forall i | 0 <= i < |requests| ensures ThreadDoes(requests, tree, t, i) {
      assert ThreadDoes(requests, tree, s, i);
      if s.read[i].Some? && s.read[i].value <= |s.log| {
        assert t.log[..s.read[i].value] == s.log[..s.read[i].value];
      }
    }
  }

  /** Every step of every thread keeps the run equal to its log. */
  lemma StepSerializes(requests: seq<Request>, tree: seq<ZoneNode>, s: State, e: Event)
    requires Serialized(requests, tree, s) && Next(requests, s, e).Some?
    ensures Serialized(requests, tree, Next(requests, s, e).value)
  {
    StepKeepsTodo(requests, tree, s, e);
    StepKeepsMutex(requests, s, e);
    StepKeepsOrder(requests, s, e);
    StepKeepsWaiters(requests, s, e);
    StepKeepsEntries(requests, s, e);
    StepKeepsThreads(requests, tree, s, e);
    StepKeepsReplay(requests, tree, s, e);
    hide Replay, Section, Refused, Resolved, TodoIsRequested, MutexHeld, CopyIsCurrent, InLockOrder, EntriesHaveThreads,
         ThreadsHaveEntries, WaitersAreChecked;
  }

  lemma CheckedAfter(op: Operation, tree: seq<ZoneNode>)
    ensures Refused(op, tree).None? ==> Checked(op)
  {
  }

  /**
   * No lost updates: in every interleaving the tree in force is what the locked sections make of the first
   * tree when they run one after the other in the order in which their threads took the mutex.
   */
  lemma {:induction false} EveryRunIsSerial(requests: seq<Request>, tree: seq<ZoneNode>, events: seq<Event>)
    requires Run(requests, Initial(requests, tree), events).Some?
    ensures Serialized(requests, tree, Run(requests, Initial(requests, tree), events).value)
    decreases |events|
  {
    if events != [] {
      var last := |events| - 1;
      EveryRunIsSerial(requests, tree, events[..last]);
      StepSerializes(requests, tree, Run(requests, Initial(requests, tree), events[..last]).value, events[last]);
    }
  }

  // ---- What every run keeps ----

  predicate CheckedLog(log: seq<Entry>) {
    forall k :: 0 <= k < |log| ==> Checked(log[k].op)
  }

  /** The path whose entry an operation changes. */
  function Changed(op: Operation, tree: seq<ZoneNode>): Option<Path> {
    if op.CreateZone? then Some(Hosts(op.domain)) else Target(tree, Hosts(op.domain))
  }

  /** The map with the data of an operation in place, before the change is counted. */
  ghost function WithData(op: Operation, tree: seq<ZoneNode>): ZoneMap
    requires Changed(op, tree).Some?
  {
    var m, p := Entries(tree), Changed(op, tree).value;
    match op
    case CreateZone(_, zone) => WithPrefixes(m, p)[p := Assigned(zone)]
    case Update(_, zone) => m[p := Assigned(zone)]
    case Delete(_) => m
  }

  lemma SectionKeepsSound(op: Operation, tree: seq<ZoneNode>, saves: bool)
    requires Sound(tree) && Checked(op) && Section(op, tree, saves).Ok?
    ensures Sound(Section(op, tree, saves).value)
  {
    match op {
      case CreateZone(domain, zone) => CreateRefines(tree, domain, zone, saves);
      case Update(domain, zone) => UpdateRefines(tree, domain, zone, saves);
      case Delete(domain) => DeleteRefines(tree, Hosts(domain), saves);
    }
  }

  /** Sibling labels stay unique, and no zone ever has both an alias and an address. */
  lemma {:induction false} EveryReplayIsSound(tree: seq<ZoneNode>, log: seq<Entry>)
    requires Sound(tree) && CheckedLog(log)
    ensures Sound(Replay(tree, log))
    decreases |log|
  {
    if log != [] {
      var last := |log| - 1;
      EveryReplayIsSound(tree, log[..last]);
      var t := Replay(tree, log[..last]);
      if Section(log[last].op, t, log[last].saves).Ok? { SectionKeepsSound(log[last].op, t, log[last].saves); }
    }
  }

  lemma EveryRunIsSound(requests: seq<Request>, tree: seq<ZoneNode>, events: seq<Event>)
    requires Sound(tree) && Run(requests, Initial(requests, tree), events).Some?
    ensures Sound(Run(requests, Initial(requests, tree), events).value.zones)
  {
    EveryRunIsSerial(requests, tree, events);
    var s := Run(requests, Initial(requests, tree), events).value;
    assert CheckedLog(s.log) by {
      forall k | 0 <= k < |s.log| ensures Checked(s.log[k].op) { assert EntryHasThread(s, k); }
    }
    EveryReplayIsSound(tree, s.log);
  }

  /**
   * Serial accounting: a committed section adds one, modulo 2^32, to the serial of the nearest authority
   * from the changed path up, the new data included; nothing else changes beside the data, and what a
   * delete takes away.
   */
  lemma Accounting(op: Operation, tree: seq<ZoneNode>, saves: bool)
    requires Sound(tree) && Checked(op) && Section(op, tree, saves).Ok?
    ensures Changed(op, tree).Some?
    ensures var p, m := Changed(op, tree).value, WithData(op, tree);
            var a := p[..Holder(m, p)];
            Authority(m, a) &&
            Entries(Section(op, tree, saves).value) ==
              if op.Delete? then Removed(m[a := NextSerial(m[a])], p) else m[a := NextSerial(m[a])]
  {
    match op {
      case CreateZone(domain, zone) =>
        CreateRefines(tree, domain, zone, saves);
        hide Entries, CreateSection, Sound, Holder, NextSerial, Assigned, WithPrefixes, Validate;
      case Update(domain, zone) =>
        UpdateRefines(tree, domain, zone, saves);
        hide Entries, UpdateSection, Sound, Holder, NextSerial, Assigned, Validate;
      case Delete(domain) =>
        DeleteRefines(tree, Hosts(domain), saves);
        hide Entries, DeleteSection, Sound, Holder, NextSerial, Removed;
    }
  }

  /**
   * A refused section would have found no authority to count it, or the wrong state of the path, or
   * could not be saved.
   */
  lemma Refusals(op: Operation, tree: seq<ZoneNode>, saves: bool)
    requires Sound(tree) && Checked(op)
    ensures var at := Changed(op, tree);
            FailureOf(Section(op, tree, saves)) ==
              if op.CreateZone? && (at.value == [] || at.value in Entries(tree)) then Some(AlreadyExists)
              else if at.None? then Some(NotFound)
              else if Holder(WithData(op, tree), at.value) == 0 then Some(Validation)
              else if op.Delete? && |at.value| == 1 then Some(NotFound)
              else if !saves then Some(SaveFailed)
              else None
  {
    TargetIs(tree, Hosts(op.domain));
    match op {
      case CreateZone(domain, zone) => CreateRefines(tree, domain, zone, saves);
      case Update(domain, zone) =>
        UpdateRefines(tree, domain, zone, saves);
        if Changed(op, tree).Some? { EntryOf(tree, Changed(op, tree).value); }
      case Delete(domain) =>
        DeleteRefines(tree, Hosts(domain), saves);
        if Changed(op, tree).Some? { EntryOf(tree, Changed(op, tree).value); }
    }
  }

  /**
   * A locked section on the map, field by field. Without an SOA record under an authority flag on the way up
   * from the changed path, the new data included, it ends in Validation; otherwise the lowest entry with both
   * is the one that is counted, and of all others the SOA record stays.
   */
  lemma SectionByFields(op: Operation, tree: seq<ZoneNode>, saves: bool)
    requires Sound(tree) && Checked(op) && Changed(op, tree).Some?
    ensures var m, p, r := Entries(tree), Changed(op, tree).value, MapOf(Section(op, tree, saves));
            var zone := if op.Delete? then None else Some(op.zone);
            if op.CreateZone? && (p == [] || p in m) then r == Err(AlreadyExists)
            else if NoneCounts(m, p, zone) then r == Err(Validation)
            else if op.Delete? && |p| == 1 then r == Err(NotFound)
            else if !saves then r == Err(SaveFailed)
            else
              r.Ok? && AllBooked(m, p, zone, r.value) &&
              forall q: Path :: q in r.value <==> if op.CreateZone? then q in m || (q != [] && q <= p)
                                                  else if op.Update? then q in m
                                                  else q in m && !(p <= q)
  {
    var m, p := Entries(tree), Changed(op, tree).value;
    TargetIs(tree, Hosts(op.domain));
    EntryOf(tree, p);
    match op {
      case CreateZone(domain, zone) =>
        CreateRefines(tree, domain, zone, saves);
        CreateByFields(m, p, zone, saves);
      case Update(domain, zone) =>
        UpdateRefines(tree, domain, zone, saves);
        ReplaceByFields(m, p, zone, saves);
      case Delete(domain) =>
        DeleteRefines(tree, Hosts(domain), saves);
        RemoveByFields(m, p, saves);
    }
    hide Create, Replace, Remove, AllBooked, NoneCounts, Sound, Entries, CreateSection, UpdateSection, DeleteSection;
  }

  predicate Committed(tree: seq<ZoneNode>, log: seq<Entry>, k: nat)
    requires k < |log|
  {
    Section(log[k].op, Replay(tree, log[..k]), log[k].saves).Ok?
  }

  /** The tree after one more section of the log. */
  lemma ReplayStep(tree: seq<ZoneNode>, log: seq<Entry>, k: nat)
    requires Sound(tree) && CheckedLog(log) && k < |log|
    ensures Sound(Replay(tree, log[..k])) && Checked(log[k].op)
    ensures Replay(tree, log[..k + 1]) ==
            if Committed(tree, log, k) then Section(log[k].op, Replay(tree, log[..k]), log[k].saves).value
            else Replay(tree, log[..k])
  {
    hide Section, Replay, Sound, Checked;
    EveryReplayIsSound(tree, log[..k]);
    assert log[..k + 1] == log[..k] + [log[k]];
    ReplaySnoc(tree, log[..k], log[k]);
  }

  /** A committed delete of the path, or of one above it. */
  predicate Removes(tree: seq<ZoneNode>, log: seq<Entry>, k: nat, p: Path)
    requires k < |log|
  {
    log[k].op.Delete? && Committed(tree, log, k) &&
    (var at := Changed(log[k].op, Replay(tree, log[..k])); at.Some? && at.value <= p)
  }

  /** Once a path is in the tree, only a delete takes it out. */
  lemma {:induction false} PathsStay(tree: seq<ZoneNode>, log: seq<Entry>, i: nat, j: nat, p: Path)
    requires Sound(tree) && CheckedLog(log) && i <= j <= |log|
    requires p in Entries(Replay(tree, log[..i]))
    requires forall k :: i <= k < j ==> !Removes(tree, log, k, p)
    ensures p in Entries(Replay(tree, log[..j]))
    decreases j
  {
    hide Section, Replay, Entries, Sound, Checked, Changed;
    if i < j {
      PathsStay(tree, log, i, j - 1, p);
      ReplayStep(tree, log, j - 1);
      assert !Removes(tree, log, j - 1, p);
      if Committed(tree, log, j - 1) {
        StaysInMap(log[j - 1].op, Replay(tree, log[..j - 1]), log[j - 1].saves, p);
      }
    }
  }

  lemma StaysInMap(op: Operation, tree: seq<ZoneNode>, saves: bool, p: Path)
    requires Sound(tree) && Checked(op) && Section(op, tree, saves).Ok? && p in Entries(tree)
    requires !(op.Delete? && Changed(op, tree).Some? && Changed(op, tree).value <= p)
    ensures p in Entries(Section(op, tree, saves).value)
  {
    Accounting(op, tree, saves);
    hide Entries, Section, Checked, Sound;
  }

  /** A committed create leaves its path in the tree, where it was not before. */
  lemma CreatedIsThere(op: Operation, tree: seq<ZoneNode>, saves: bool)
    requires Sound(tree) && Checked(op) && op.CreateZone? && Section(op, tree, saves).Ok?
    ensures Hosts(op.domain) !in Entries(tree)
    ensures Hosts(op.domain) in Entries(Section(op, tree, saves).value)
  {
    Accounting(op, tree, saves);
    Refusals(op, tree, saves);
  }

  /**
   * Of two creates of one domain that both commit, whatever their first checks saw, a committed delete of
   * that domain or of one above it lies between them.
   */
  lemma RacingCreates(tree: seq<ZoneNode>, log: seq<Entry>, i: nat, j: nat)
    requires Sound(tree) && CheckedLog(log) && i < j < |log|
    requires log[i].op.CreateZone? && log[j].op.CreateZone? && Hosts(log[i].op.domain) == Hosts(log[j].op.domain)
    requires Committed(tree, log, i) && Committed(tree, log, j)
    ensures exists k :: i < k < j && Removes(tree, log, k, Hosts(log[i].op.domain))
  {
    hide Section, Replay, Entries, Sound, Hosts, Checked, Removes;
    var p := Hosts(log[i].op.domain);
    ReplayStep(tree, log, i);
    ReplayStep(tree, log, j);
    CreatedIsThere(log[i].op, Replay(tree, log[..i]), log[i].saves);
    CreatedIsThere(log[j].op, Replay(tree, log[..j]), log[j].saves);
    if forall k :: i + 1 <= k < j ==> !Removes(tree, log, k, p) {
      PathsStay(tree, log, i + 1, j, p);
      assert false;
    }
  }

  // ---- The ledger of one authority ----

  /** The authority that counts the k-th section, if it was committed. */
  ghost function CountedAt(tree: seq<ZoneNode>, log: seq<Entry>, k: nat): Option<Path>
    requires Sound(tree) && CheckedLog(log) && k < |log|
  {
    var t := Replay(tree, log[..k]);
    EveryReplayIsSound(tree, log[..k]);
    if Committed(tree, log, k) then
      Accounting(log[k].op, t, log[k].saves);
      var p := Changed(log[k].op, t).value;
      Some(p[..Holder(WithData(log[k].op, t), p)])
    else None
  }

  ghost function Count(tree: seq<ZoneNode>, log: seq<Entry>, a: Path, n: nat): nat
    requires Sound(tree) && CheckedLog(log) && n <= |log|
  {
    if n == 0 then 0 else Count(tree, log, a, n - 1) + if CountedAt(tree, log, n - 1) == Some(a) then 1 else 0
  }

  /** No section gives the authority new data, or takes it away. */
  predicate LeftAlone(tree: seq<ZoneNode>, log: seq<Entry>, a: Path)
    requires Sound(tree) && CheckedLog(log)
  {
    forall k :: 0 <= k < |log| && Committed(tree, log, k) ==>
      (var op, t := log[k].op, Replay(tree, log[..k]);
       Changed(op, t).Some? && if op.Delete? then !(Changed(op, t).value <= a) else Changed(op, t).value != a)
  }

  ghost function Serial(m: ZoneMap, a: Path): uint32
    requires Authority(m, a)
  {
    m[a].soa.value.serial
  }

  lemma DataElsewhere(op: Operation, tree: seq<ZoneNode>, q: Path)
    requires Changed(op, tree).Some? && q in Entries(tree) && (op.Delete? || Changed(op, tree).value != q)
    ensures q in WithData(op, tree) && WithData(op, tree)[q] == Entries(tree)[q]
  {
    hide Entries, Changed;
  }

  lemma SectionCounts(op: Operation, tree: seq<ZoneNode>, saves: bool, a: Path)
    requires Sound(tree) && Checked(op) && Section(op, tree, saves).Ok? && Authority(Entries(tree), a)
    requires Changed(op, tree).Some?
    requires if op.Delete? then !(Changed(op, tree).value <= a) else Changed(op, tree).value != a
    ensures var m, p := WithData(op, tree), Changed(op, tree).value;
            var now := Entries(Section(op, tree, saves).value);
            Authority(now, a) &&
            Serial(now, a) == (Serial(Entries(tree), a) + if p[..Holder(m, p)] == a then 1 else 0) % 0x1_0000_0000
  {
    hide Entries, Section, Checked, Sound, WithData, Changed, Holder;
    Accounting(op, tree, saves);
    DataElsewhere(op, tree, a);
    var m, p := WithData(op, tree), Changed(op, tree).value;
    var c := p[..Holder(m, p)];
    var counted := m[c := NextSerial(m[c])];
    assert c <= p;
    assert op.Delete? ==> a in Removed(counted, p) && Removed(counted, p)[a] == counted[a];
    assert counted[a] == if c == a then NextSerial(m[a]) else m[a];
  }

  lemma CountStep(tree: seq<ZoneNode>, log: seq<Entry>, a: Path, n: nat)
    requires Sound(tree) && CheckedLog(log) && n <= |log|
    ensures n < |log| ==>
              Count(tree, log, a, n + 1) == Count(tree, log, a, n) + if CountedAt(tree, log, n) == Some(a) then 1 else 0
    ensures Count(tree, log, a, 0) == 0
  {
    hide Section, Sound, Replay;
  }

  lemma Turnover(x: nat, n: nat, d: nat)
    ensures ((x + n) % 0x1_0000_0000 + d) % 0x1_0000_0000 == (x + (n + d)) % 0x1_0000_0000
  {
  }

  lemma CountedIs(tree: seq<ZoneNode>, log: seq<Entry>, n: nat)
    requires Sound(tree) && CheckedLog(log) && n < |log|
    ensures var op, t := log[n].op, Replay(tree, log[..n]);
            if Committed(tree, log, n) then
              Changed(op, t).Some? &&
              CountedAt(tree, log, n) == Some(Changed(op, t).value[..Holder(WithData(op, t), Changed(op, t).value)])
            else CountedAt(tree, log, n) == None
  {
    hide Section, Entries, Sound, Checked, WithData, Changed, CheckedLog, Replay;
    ReplayStep(tree, log, n);
    if Committed(tree, log, n) { Accounting(log[n].op, Replay(tree, log[..n]), log[n].saves); }
  }

  /** What is left alone is left alone by each section. */
  lemma LeftAloneBy(tree: seq<ZoneNode>, log: seq<Entry>, a: Path, n: nat)
    requires Sound(tree) && CheckedLog(log) && LeftAlone(tree, log, a) && n < |log| && Committed(tree, log, n)
    ensures var op, t := log[n].op, Replay(tree, log[..n]);
            Changed(op, t).Some? && if op.Delete? then !(Changed(op, t).value <= a) else Changed(op, t).value != a
  {
    hide Section, Sound, Checked, Changed, CheckedLog, Replay, Committed;
  }

  lemma LedgerStep(tree: seq<ZoneNode>, log: seq<Entry>, a: Path, n: nat)
    requires Sound(tree) && CheckedLog(log) && LeftAlone(tree, log, a) && n < |log|
    requires Authority(Entries(Replay(tree, log[..n])), a)
    ensures Authority(Entries(Replay(tree, log[..n + 1])), a)
    ensures Serial(Entries(Replay(tree, log[..n + 1])), a) ==
            (Serial(Entries(Replay(tree, log[..n])), a) +
               if CountedAt(tree, log, n) == Some(a) then 1 else 0) % 0x1_0000_0000
  {
    hide Section, Entries, Sound, Checked, Holder, WithData, Changed, Authority, Serial, CheckedLog, Replay, LeftAlone,
         CountedAt;
    ReplayStep(tree, log, n);
    CountedIs(tree, log, n);
    if Committed(tree, log, n) {
      LeftAloneBy(tree, log, a, n);
      SectionCounts(log[n].op, Replay(tree, log[..n]), log[n].saves, a);
    }
  }

  /** Over a whole run the serial of an authority goes up by the number of sections it counts. */
  lemma {:induction false} Ledger(tree: seq<ZoneNode>, log: seq<Entry>, a: Path, n: nat)
    requires Sound(tree) && CheckedLog(log) && LeftAlone(tree, log, a) && Authority(Entries(tree), a) && n <= |log|
    ensures Authority(Entries(Replay(tree, log[..n])), a)
    ensures Serial(Entries(Replay(tree, log[..n])), a) ==
            (Serial(Entries(tree), a) + Count(tree, log, a, n)) % 0x1_0000_0000
  {
    hide Section, Entries, Sound, Checked, Authority, Serial, CheckedLog, LeftAlone, CountedAt;
    CountStep(tree, log, a, if n == 0 then 0 else n - 1);
    if n == 0 {
      assert log[..0] == [];
    } else {
      hide Replay, Count;
      Ledger(tree, log, a, n - 1);
      LedgerStep(tree, log, a, n - 1);
      var d := if CountedAt(tree, log, n - 1) == Some(a) then 1 else 0;
      Turnover(Serial(Entries(tree), a), Count(tree, log, a, n - 1), d);
    }
  }
}
