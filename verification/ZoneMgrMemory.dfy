/**
 * The zone store read from a configuration file. Lookup goes down one level per label, takes the node
 * whose label matches, or else a node with an empty label, and never turns back.
 */
module ZoneMgrMemories {
  import opened Bytes
  import opened DomainNames
  import opened Zones
  import opened ZoneTrees
  import opened ZoneSections

  predicate Matches(nodes: seq<ZoneNode>, l: bytes, i: nat)
    requires i < |nodes|
  {
    IEquals(l, nodes[i].zone.name)
  }

  predicate Wild(nodes: seq<ZoneNode>, i: nat)
    requires i < |nodes|
  {
    nodes[i].zone.name == []
  }

  predicate NoMatch(nodes: seq<ZoneNode>, l: bytes) {
    forall j :: 0 <= j < |nodes| ==> !Matches(nodes, l, j)
  }

  /** The first node with this label; if there is none, the last node that matches any name. */
  predicate Chosen(nodes: seq<ZoneNode>, l: bytes, i: nat) {
    i < |nodes| &&
    if Matches(nodes, l, i) then forall j :: 0 <= j < i ==> !Matches(nodes, l, j)
    else NoMatch(nodes, l) && Wild(nodes, i) && forall j :: i < j < |nodes| ==> !Wild(nodes, j)
  }

  predicate NoChoice(nodes: seq<ZoneNode>, l: bytes) {
    NoMatch(nodes, l) && forall j :: 0 <= j < |nodes| ==> !Wild(nodes, j)
  }

  lemma OneChoice(nodes: seq<ZoneNode>, l: bytes, i: nat, j: nat)
    requires Chosen(nodes, l, i)
    ensures Chosen(nodes, l, j) ==> i == j
    ensures !NoChoice(nodes, l)
  {
  }

  /** The choices of the labels of the path, one level after the other, as far as there are any. */
  predicate Greedy(nodes: seq<ZoneNode>, p: Path, c: Cursor)
    decreases |p|
  {
    if c == [] then p == [] || NoChoice(nodes, p[0])
    else p != [] && Chosen(nodes, p[0], c[0]) && Greedy(nodes[c[0]].Kids(), p[1..], c[1..])
  }

  lemma {:induction false} GreedyIsOne(nodes: seq<ZoneNode>, p: Path, c: Cursor, d: Cursor)
    requires Greedy(nodes, p, c) && Greedy(nodes, p, d)
    ensures c == d
    decreases |p|
  {
    if p != [] {
      if c != [] { OneChoice(nodes, p[0], c[0], if d == [] then 0 else d[0]); }
      if d != [] { OneChoice(nodes, p[0], d[0], if c == [] then 0 else c[0]); }
      if c != [] && d != [] {
        GreedyIsOne(nodes[c[0]].Kids(), p[1..], c[1..], d[1..]);
        assert c == [c[0]] + c[1..] && d == [d[0]] + d[1..];
      }
    }
  }

  /** The position of the first match from here on; past the end if there is none. */
  function FirstMatch(nodes: seq<ZoneNode>, l: bytes, from: nat): (i: nat)
    requires from <= |nodes|
    ensures from <= i <= |nodes| && (i < |nodes| ==> Matches(nodes, l, i))
    ensures forall j :: from <= j < i ==> !Matches(nodes, l, j)
    decreases |nodes| - from
  {
    if from == |nodes| || Matches(nodes, l, from) then from else FirstMatch(nodes, l, from + 1)
  }

  function LastWild(nodes: seq<ZoneNode>, n: nat): (i: Option<nat>)
    requires n <= |nodes|
    ensures i.Some? ==> i.value < n && Wild(nodes, i.value)
    ensures forall j :: 0 <= j < n && (i.None? || i.value < j) ==> !Wild(nodes, j)
  {
    if n == 0 then None else if Wild(nodes, n - 1) then Some(n - 1) else LastWild(nodes, n - 1)
  }

  function Choice(nodes: seq<ZoneNode>, l: bytes): (r: Option<nat>)
    ensures r.Some? ==> Chosen(nodes, l, r.value)
    ensures r.None? ==> NoChoice(nodes, l)
  {
    var i := FirstMatch(nodes, l, 0);
    if i < |nodes| then Some(i) else LastWild(nodes, |nodes|)
  }

  /** The greedy path of a name. */
  function GreedyPath(nodes: seq<ZoneNode>, p: Path): (c: Cursor)
    ensures Greedy(nodes, p, c) && |c| <= |p| && (c == [] || ValidCursor(nodes, c))
    decreases |p|
  {
    if p == [] then []
    else
      match Choice(nodes, p[0])
      case None => []
      case Some(i) =>
        var c := GreedyPath(nodes[i].Kids(), p[1..]);
        assert ([i] + c)[1..] == c;
        [i] + c
  }

  /** One scan of a level: it stops at a match, and remembers the last wildcard before. */
  method Choose(nodes: seq<ZoneNode>, l: bytes) returns (rval: Option<nat>)
    ensures match rval
            case Some(i) => Chosen(nodes, l, i)
            case None => NoChoice(nodes, l)
  {
    var wildcard: Option<nat> := None;
    var exact: Option<nat> := None;
    var i := 0;
    while i < |nodes|
      invariant 0 <= i <= |nodes| && exact == None
      invariant forall j :: 0 <= j < i ==> !Matches(nodes, l, j)
      invariant wildcard.Some? ==> wildcard.value < i && Wild(nodes, wildcard.value)
      invariant forall j :: 0 <= j < i && (wildcard.None? || wildcard.value < j) ==> !Wild(nodes, j)
    {
      if nodes[i].zone.name == [] { wildcard := Some(i); }
      if IEquals(l, nodes[i].zone.name) {
        exact := Some(i);
        assert Matches(nodes, l, i);
        break;
      }
      i := i + 1;
    }
    rval := if exact.Some? then exact else wildcard;
  }

  /** What the caller learns: the node, if the greedy path is complete, and the flag of its deepest node. */
  predicate Answer(nodes: seq<ZoneNode>, p: Path, flag: bool, zone: Option<Cursor>, authorative: bool) {
    var c := GreedyPath(nodes, p);
    zone == (if c != [] && |c| == |p| then Some(c) else None) &&
    authorative == if c == [] then flag else At(nodes, c).zone.authorative
  }

  lemma AnswerBelow(nodes: seq<ZoneNode>, p: Path, i: nat, flag: bool, zone: Option<Cursor>, authorative: bool)
    requires |p| > 1 && Chosen(nodes, p[0], i)
    requires Answer(nodes[i].Kids(), p[1..], nodes[i].zone.authorative, zone, authorative)
    ensures Answer(nodes, p, flag, Under([i], zone), authorative)
  {
    var c := GreedyPath(nodes[i].Kids(), p[1..]);
    assert ([i] + c)[1..] == c;
    assert Greedy(nodes, p, [i] + c);
    GreedyIsOne(nodes, p, [i] + c, GreedyPath(nodes, p));
  }

  method LookupOn(nodes: seq<ZoneNode>, p: Path, flag: bool) returns (zone: Option<Cursor>, authorative: bool)
    ensures Answer(nodes, p, flag, zone, authorative)
    decreases |p|
  {
    zone, authorative := None, flag;
    if p == [] {
      return;
    }
    var rval := Choose(nodes, p[0]);
    if rval.Some? {
      var i := rval.value;
      authorative := nodes[i].zone.authorative;
      if |p| > 1 {
        var below;
        below, authorative := LookupOn(nodes[i].Kids(), p[1..], authorative);
        AnswerBelow(nodes, p, i, flag, below, authorative);
        zone := Under([i], below);
      } else {
        zone := Some([i]);
        assert [i][1..] == [] && p[1..] == [] && Greedy(nodes, p, [i]);
        GreedyIsOne(nodes, p, [i], GreedyPath(nodes, p));
      }
    } else {
      GreedyIsOne(nodes, p, [], GreedyPath(nodes, p));
    }
  }

  /** The answer to a key: a node if the greedy path is complete, and the authority of the deepest node on it. */
  function FoundIn(zones: seq<ZoneNode>, key: seq<bytes>): Found {
    var c := GreedyPath(zones, Reverse(key));
    Found(if c != [] && |c| == |key| then Some(ZoneAt(zones, c)) else None, c != [] && At(zones, c).zone.authorative)
  }

  /** The store as the name server asks it, with the flag off at first. */
  method Lookup(zones: seq<ZoneNode>, key: seq<bytes>) returns (r: Found)
    ensures r == FoundIn(zones, key)
  {
    var zone, authorative := LookupOn(zones, Reverse(key), false);
    r := Found(if zone.Some? then Some(ZoneAt(zones, zone.value)) else None, authorative);
  }

  /** The first of several matches is taken, and where nothing matches the last of several wildcards. */
  lemma FirstOrLast(nodes: seq<ZoneNode>, l: bytes, i: nat)
    requires i < |nodes|
    ensures IEquals(l, nodes[i].zone.name) && (forall j :: 0 <= j < i ==> !IEquals(l, nodes[j].zone.name)) ==>
              Choice(nodes, l) == Some(i)
    ensures (forall j :: 0 <= j < |nodes| ==> !IEquals(l, nodes[j].zone.name)) && nodes[i].zone.name == [] &&
            (forall j :: i < j < |nodes| ==> nodes[j].zone.name != []) ==>
              Choice(nodes, l) == Some(i)
    ensures (forall j :: 0 <= j < |nodes| ==> !IEquals(l, nodes[j].zone.name) && nodes[j].zone.name != []) ==>
              Choice(nodes, l) == None
  {
    hide IEquals;
    var c := Choice(nodes, l);
    assert forall j :: 0 <= j < |nodes| ==> Matches(nodes, l, j) == IEquals(l, nodes[j].zone.name);
    assert forall j :: 0 <= j < |nodes| ==> Wild(nodes, j) == (nodes[j].zone.name == []);
    if c.Some? && Chosen(nodes, l, i) { OneChoice(nodes, l, i, c.value); }
  }

  // "a" and "b"
  const LABEL_A: bytes := [97]
  const LABEL_B: bytes := [98]

  /**
   * No backtracking: below a label that matches, names are not found that the wildcard beside it has. Here
   * the path a, b would be there below the wildcard, but the node a without children is taken.
   */
  lemma MatchHidesWildcard(leaf: ZoneData)
    requires leaf.name == LABEL_B
    ensures var nodes := [ZoneNode(leaf.(name := []), Engaged([ZoneNode(leaf, Absent)])),
                          ZoneNode(leaf.(name := LABEL_A), Absent)];
            Greedy(nodes, [LABEL_A, LABEL_B], [1]) && Greedy(nodes[..1], [LABEL_A, LABEL_B], [0, 0])
  {
    var nodes := [ZoneNode(leaf.(name := []), Engaged([ZoneNode(leaf, Absent)])),
                  ZoneNode(leaf.(name := LABEL_A), Absent)];
    var p := [LABEL_A, LABEL_B];
    assert p[1..] == [LABEL_B] && [LABEL_B][1..] == [];
    assert Chosen(nodes, LABEL_A, 1) by { assert !Matches(nodes, LABEL_A, 0) && Matches(nodes, LABEL_A, 1); }
    assert NoChoice([], LABEL_B);
    assert Greedy([], [LABEL_B], []);
    assert Greedy(nodes, p, [1]) by { assert [1][1..] == []; }
    var less := nodes[..1];
    assert Chosen(less, LABEL_A, 0) by { assert !Matches(less, LABEL_A, 0) && Wild(less, 0); }
    var kids := less[0].Kids();
    assert Chosen(kids, LABEL_B, 0) by { assert Matches(kids, LABEL_B, 0); }
    assert Greedy(kids, [LABEL_B], [0]) by { assert [0][1..] == []; }
    assert [0, 0][1..] == [0];
  }
}
