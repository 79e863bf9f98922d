/** Dotted domain names and the lists of labels they stand for. */
module DomainNames {
  import opened Bytes

  const DOT: byte := 46

  /** Position of the first dot, or the length when there is none (std::find). */
  function FindDot(s: bytes): (d: nat)
    ensures d <= |s|
    ensures DOT !in s[..d]
    ensures d < |s| ==> s[d] == DOT
  {
    if s == [] || s[0] == DOT then 0
    else
      var d := FindDot(s[1..]);
      assert s[..d + 1] == [s[0]] + s[1..][..d];
      d + 1
  }

  /** The fragments between dots; one trailing dot ends the last fragment. */
  function Fragments(s: bytes): seq<bytes> {
    if s == [] then []
    else
      var d := FindDot(s);
      [s[..d]] + if d == |s| then [] else Fragments(s[d + 1..])
  }

  function NonEmpty(frags: seq<bytes>): seq<bytes> {
    if frags == [] then []
    else (if frags[0] == [] then [] else [frags[0]]) + NonEmpty(frags[1..])
  }

  /** What toKey makes of a domain: the non-empty fragments, leftmost first. */
  function Key(domain: bytes): seq<bytes> {
    NonEmpty(Fragments(domain))
  }

  /** label, dot, label, ... : the form GetDomainName builds. */
  function Join(labels: seq<bytes>): bytes {
    if labels == [] then []
    else if |labels| == 1 then labels[0]
    else labels[0] + [DOT] + Join(labels[1..])
  }

  lemma {:induction false} JoinSnoc(labels: seq<bytes>, l: bytes)
    requires labels != []
    ensures Join(labels + [l]) == Join(labels) + [DOT] + l
  {
    if |labels| > 1 {
      assert (labels + [l])[1..] == labels[1..] + [l];
      JoinSnoc(labels[1..], l);
    }
  }

  predicate DotFree(labels: seq<bytes>) {
    forall k :: 0 <= k < |labels| ==> DOT !in labels[k]
  }

  function Dots(s: bytes): nat {
    if s == [] then 0 else (if s[0] == DOT then 1 else 0) + Dots(s[1..])
  }

  lemma JoinCons(l: bytes, labels: seq<bytes>)
    requires labels != []
    ensures Join([l] + labels) == l + [DOT] + Join(labels)
  {
    assert ([l] + labels)[1..] == labels;
  }

  lemma NonEmptyCons(l: bytes, frags: seq<bytes>)
    ensures NonEmpty([l] + frags) == (if l == [] then [] else [l]) + NonEmpty(frags)
  {
    assert ([l] + frags)[1..] == frags;
  }

  /** One fragment off the front. */
  lemma Unfold(s: bytes, d: nat)
    requires s != [] && d == FindDot(s)
    ensures Fragments(s) == [s[..d]] + Fragments(s[if d == |s| then d else d + 1..])
  {
  }

  lemma NoFragments()
    ensures Fragments([]) == [] && NonEmpty([]) == []
  {
  }

  lemma CutAt(s: bytes, d: nat)
    requires d < |s|
    ensures s == s[..d] + [s[d]] + s[d + 1..]
  {
  }

  /** A text is its first fragment, a dot and the rest, or its only fragment. */
  lemma Cut(s: bytes, d: nat)
    requires s != [] && d == FindDot(s)
    ensures DOT !in s[..d]
    ensures d == |s| ==> s[..d] == s && Fragments(s) == [s]
    ensures d < |s| ==> s == s[..d] + [DOT] + s[d + 1..] && Fragments(s) == [s[..d]] + Fragments(s[d + 1..])
  {
    assert d < |s| ==> s[d] == DOT;
    Unfold(s, d);
    NoFragments();
    hide FindDot, Fragments;
    if d == |s| {
      assert s[..d] == s && s[d..] == [];
    } else {
      CutAt(s, d);
    }
  }

  method ToFraments(domainName: bytes) returns (frags: seq<bytes>)
    ensures frags == Fragments(domainName)
  {
    hide FindDot, Fragments;
    frags := [];
    var p := 0;
    assert domainName[p..] == domainName;
    while p != |domainName|
      invariant 0 <= p <= |domainName|
      invariant frags + Fragments(domainName[p..]) == Fragments(domainName)
      decreases |domainName| - p
    {
      var rest := domainName[p..];
      var dot := FindDot(rest);
      Unfold(rest, dot);
      frags := frags + [rest[..dot]];
      var was := p;
      p := p + dot;
      if p != |domainName| {
        p := p + 1;
      }
      assert domainName[p..] == rest[p - was..];
    }
    assert Fragments([]) == [] by { NoFragments(); }
    assert domainName[p..] == [];
  }

  method Split(data: bytes) returns (rval: seq<bytes>)
    ensures rval == Key(data)
  {
    hide FindDot, Fragments, NonEmpty;
    rval := [];
    var w := data;
    var first := true;
    NoFragments();
    while first || w != []
      invariant rval + NonEmpty(Fragments(w)) == Key(data)
      decreases |w|, first
    {
      first := false;
      var k: bytes := [];
      var pos := FindDot(w);
      ghost var before, found := w, rval;
      if pos < |w| {
        if pos > 0 {
          k := w[..pos];
        }
        w := w[pos + 1..];
      } else {
        k := w;
        w := [];
      }
      if k != [] {
        rval := rval + [k];
      }
      if before != [] {
        Unfold(before, pos);
        assert before[..pos] == k && before[if pos == |before| then pos else pos + 1..] == w;
        NonEmptyCons(k, Fragments(w));
        assert rval == found + if k == [] then [] else [k];
      }
    }
  }

  lemma FindDotIs(s: bytes, d: nat)
    requires d <= |s| && DOT !in s[..d] && (d < |s| ==> s[d] == DOT)
    ensures FindDot(s) == d
  {
    var e := FindDot(s);
    assert forall i :: 0 <= i < d ==> s[..d][i] in s[..d];
    assert forall i :: 0 <= i < e ==> s[..e][i] in s[..e];
  }

  /** Printing dot-free, non-empty labels and cutting the text again is the identity. */
  lemma {:induction false} FragmentsOfJoin(labels: seq<bytes>)
    requires DotFree(labels) && forall k :: 0 <= k < |labels| ==> labels[k] != []
    ensures Fragments(Join(labels)) == labels
  {
    if |labels| == 1 {
      var s := labels[0];
      assert s[..|s|] == s;
      FindDotIs(s, |s|);
    } else if |labels| > 1 {
      var s := Join(labels);
      var d := |labels[0]|;
      assert s[..d] == labels[0] && s[d] == DOT && s[d + 1..] == Join(labels[1..]);
      FindDotIs(s, d);
      FragmentsOfJoin(labels[1..]);
    }
  }

  /** Cutting a text and printing the fragments gives the text back exactly when it has no trailing dot. */
  lemma {:induction false} JoinOfFragments(s: bytes)
    ensures Join(Fragments(s)) == s <==> s == [] || s[|s| - 1] != DOT
    ensures s != [] && s[|s| - 1] == DOT ==> Join(Fragments(s)) == s[..|s| - 1]
  {
    hide FindDot, Fragments, Join;
    NoFragments();
    NothingJoined();
    if s != [] {
      var d := FindDot(s);
      Cut(s, d);
      var head := s[..d];
      OneJoined(head);
      if d == |s| {
        assert head[|s| - 1] in head;
      } else {
        var t := s[d + 1..];
        JoinOfFragments(t);
        if t != [] {
          SomeFragments(t);
          JoinCons(head, Fragments(t));
          assert s[|s| - 1] == t[|t| - 1];
          if t[|t| - 1] == DOT {
            assert s[..|s| - 1] == head + [DOT] + t[..|t| - 1];
          }
        } else {
          assert Fragments(s) == [head];
        }
      }
    }
  }

  lemma NothingJoined()
    ensures Join([]) == []
  {
  }

  lemma OneJoined(l: bytes)
    ensures Join([l]) == l
  {
  }

  lemma SomeFragments(s: bytes)
    requires s != []
    ensures Fragments(s) != []
  {
  }

  lemma {:induction false} FragmentsAreDotFree(s: bytes)
    ensures DotFree(Fragments(s))
  {
    if s != [] {
      var d := FindDot(s);
      if d < |s| { FragmentsAreDotFree(s[d + 1..]); }
    }
  }

  lemma {:induction false} NonEmptyIsClean(frags: seq<bytes>)
    requires DotFree(frags)
    ensures DotFree(NonEmpty(frags)) && forall k :: 0 <= k < |NonEmpty(frags)| ==> NonEmpty(frags)[k] != []
    ensures |NonEmpty(frags)| <= |frags|
    ensures |NonEmpty(frags)| == |frags| ==> NonEmpty(frags) == frags
  {
    if frags != [] {
      NonEmptyIsClean(frags[1..]);
      assert frags == [frags[0]] + frags[1..];
    }
  }

  lemma {:induction false} NonEmptyOfClean(labels: seq<bytes>)
    requires forall k :: 0 <= k < |labels| ==> labels[k] != []
    ensures NonEmpty(labels) == labels
  {
    if labels != [] {
      NonEmptyOfClean(labels[1..]);
      assert labels == [labels[0]] + labels[1..];
    }
  }

  /** The key of printed labels is these labels. */
  lemma KeyOfJoin(labels: seq<bytes>)
    requires DotFree(labels) && forall k :: 0 <= k < |labels| ==> labels[k] != []
    ensures Key(Join(labels)) == labels
  {
    FragmentsOfJoin(labels);
    NonEmptyOfClean(labels);
  }

  /** The labels of a key are non-empty and hold no dot. */
  lemma KeyIsClean(domain: bytes)
    ensures DotFree(Key(domain)) && forall k :: 0 <= k < |Key(domain)| ==> Key(domain)[k] != []
  {
    FragmentsAreDotFree(domain);
    NonEmptyIsClean(Fragments(domain));
  }

  lemma {:induction false} DotsOfConcat(a: bytes, b: bytes)
    ensures Dots(a + b) == Dots(a) + Dots(b)
  {
    if a == [] {
      assert a + b == b;
    } else {
      assert (a + b)[1..] == a[1..] + b;
      DotsOfConcat(a[1..], b);
    }
  }

  lemma {:induction false} NoDots(a: bytes)
    requires DOT !in a
    ensures Dots(a) == 0
  {
    if a != [] { NoDots(a[1..]); }
  }

  lemma {:induction false} DotsOfJoin(labels: seq<bytes>)
    requires DotFree(labels) && labels != []
    ensures Dots(Join(labels)) == |labels| - 1
  {
    NoDots(labels[0]);
    if |labels| > 1 {
      DotsOfJoin(labels[1..]);
      DotsOfConcat(labels[0] + [DOT], Join(labels[1..]));
      DotsOfConcat(labels[0], [DOT]);
    }
  }

  /** A text holds at least one dot fewer than it has fragments. */
  lemma {:induction false} DotsOfFragments(s: bytes)
    ensures |Fragments(s)| <= Dots(s) + 1
  {
    hide FindDot, Fragments, Dots;
    NoFragments();
    if s != [] {
      var d := FindDot(s);
      Cut(s, d);
      if d < |s| {
        var head, t := s[..d], s[d + 1..];
        DotsOfFragments(t);
        DotsOfConcat(head + [DOT], t);
        DotsOfConcat(head, [DOT]);
        OneDot();
      }
    }
  }

  lemma OneDot()
    ensures Dots([DOT]) == 1
  {
  }

  lemma {:induction false} DotsUpToCase(a: bytes, b: bytes)
    requires IEquals(a, b)
    ensures Dots(a) == Dots(b)
  {
    if a != [] { DotsUpToCase(a[1..], b[1..]); }
  }

  lemma DotDiffers(a: bytes, b: bytes, c: bytes, d: bytes)
    requires DOT !in c && |a| < |c|
    ensures !IEquals(a + [DOT] + b, c + [DOT] + d) && !IEquals(c + [DOT] + d, a + [DOT] + b)
  {
    var x, y := a + [DOT] + b, c + [DOT] + d;
    assert x[|a|] == DOT && y[|a|] == c[|a|];
  }

  lemma SplitUpToCase(a: bytes, b: bytes, c: bytes, d: bytes)
    requires DOT !in a && DOT !in c
    ensures IEquals(a + [DOT] + b, c + [DOT] + d) <==> IEquals(a, c) && IEquals(b, d)
  {
    if |a| < |c| {
      DotDiffers(a, b, c, d);
    } else if |c| < |a| {
      DotDiffers(c, d, a, b);
    } else {
      var x, y := a + [DOT] + b, c + [DOT] + d;
      assert forall i :: 0 <= i < |a| ==> x[i] == a[i] && y[i] == c[i];
      assert forall i :: 0 <= i < |b| ==> x[|a| + 1 + i] == b[i];
      assert forall i :: 0 <= i < |d| ==> y[|a| + 1 + i] == d[i];
    }
  }

  /** Printed labels agree up to case just when each label does. */
  lemma {:induction false} JoinUpToCase(a: seq<bytes>, b: seq<bytes>)
    requires DotFree(a) && DotFree(b) && |a| == |b|
    ensures IEquals(Join(a), Join(b)) <==> forall k :: 0 <= k < |a| ==> IEquals(a[k], b[k])
  {
    if |a| > 1 {
      SplitUpToCase(a[0], Join(a[1..]), b[0], Join(b[1..]));
      JoinUpToCase(a[1..], b[1..]);
      hide IEquals, Join;
      assert forall k :: 1 <= k < |a| ==> a[k] == a[1..][k - 1] && b[k] == b[1..][k - 1];
    }
  }

  /** A text holds at least the dots that its key needs, and no others just when it is its printed key. */
  lemma DotsOfKey(domain: bytes)
    requires Key(domain) != []
    ensures |Key(domain)| - 1 <= Dots(domain)
    ensures |Key(domain)| - 1 == Dots(domain) <==> Join(Key(domain)) == domain
  {
    hide FindDot, Fragments, NonEmpty, Join, Dots, DotFree;
    var frags, key := Fragments(domain), Key(domain);
    FragmentsAreDotFree(domain);
    NonEmptyIsClean(frags);
    DotsOfFragments(domain);
    DotsOfJoin(key);
    JoinOfFragments(domain);
    if key == frags && Join(frags) != domain { DotBehind(Join(frags), domain); }
  }

  lemma DotBehind(s: bytes, t: bytes)
    requires t != [] && t[|t| - 1] == DOT && s == t[..|t| - 1]
    ensures Dots(t) == Dots(s) + 1
  {
    assert t == s + [DOT];
    DotsOfConcat(s, [DOT]);
    OneDot();
  }

  /** A text that is one of at most as many printed labels up to case is its printed key. */
  lemma PrintedLabels(domain: bytes, labels: seq<bytes>)
    requires labels != [] && DotFree(labels) && |labels| <= |Key(domain)|
    ensures IEquals(domain, Join(labels)) ==> |labels| == |Key(domain)| && Join(Key(domain)) == domain
  {
    hide IEquals, Key, Join, Dots;
    DotsOfKey(domain);
    DotsOfJoin(labels);
    if IEquals(domain, Join(labels)) { DotsUpToCase(domain, Join(labels)); }
  }

  /** Two texts of the same length where the first is the printed key of the second are equal. */
  lemma KeyOfSameLength(domain: bytes)
    ensures |Join(Key(domain))| == |domain| <==> Join(Key(domain)) == domain
  {
    JoinOfKey(Fragments(domain));
    JoinOfFragments(domain);
    FragmentsAreDotFree(domain);
    NonEmptyIsClean(Fragments(domain));
  }

  lemma {:induction false} JoinOfKey(frags: seq<bytes>)
    ensures |Join(NonEmpty(frags))| <= |Join(frags)|
    ensures |Join(NonEmpty(frags))| == |Join(frags)| ==> NonEmpty(frags) == frags || Join(frags) == []
    ensures Join(frags) == [] ==> Join(NonEmpty(frags)) == []
  {
    if |frags| == 1 {
    } else if |frags| > 1 {
      JoinOfKey(frags[1..]);
      assert frags == [frags[0]] + frags[1..];
      if frags[0] != [] {
        assert NonEmpty(frags)[1..] == NonEmpty(frags[1..]);
      } else {
        assert NonEmpty(frags) == NonEmpty(frags[1..]);
      }
      if NonEmpty(frags[1..]) == [] {
        assert Join(NonEmpty(frags[1..])) == [];
      }
    }
  }
}
