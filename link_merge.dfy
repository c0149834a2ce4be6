/** The link accumulator of the episode aggregator. Links arrive with their
    endpoints already resolved to names; the accumulator is keyed on the
    string `source-target` and looked up in both orientations, so that a
    link and its reverse share one entry whose weight is their sum. */
module LinkMerge {

  /** A link whose endpoints are character names. */
  datatype NamedLink = NamedLink(source: string, target: string, value: int)

  /** The key the accumulator stores a link under: both names joined by '-'. */
  function LinkKey(source: string, target: string): string {
    source + "-" + target
  }

  /** Position of the first entry stored under `key`, or -1. */
  function IndexOfKey(acc: seq<NamedLink>, key: string): (r: int)
    ensures -1 <= r < |acc|
    ensures 0 <= r ==> LinkKey(acc[r].source, acc[r].target) == key
    ensures forall k {:trigger LinkKey(acc[k].source, acc[k].target)} :: 0 <= k < |acc| && (r == -1 || k < r) ==> LinkKey(acc[k].source, acc[k].target) != key
  {
    if acc == [] then -1
    else if LinkKey(acc[0].source, acc[0].target) == key then 0
    else
      var k := IndexOfKey(acc[1..], key);
      if k == -1 then -1 else k + 1
  }

  /** One step of the link fold: the entry under the link's own key, else
      the entry under its reversed key, absorbs its weight; when neither
      exists the link itself is stored, in its own orientation. */
  function AddLink(acc: seq<NamedLink>, l: NamedLink): seq<NamedLink> {
    var k := IndexOfKey(acc, LinkKey(l.source, l.target));
    var e := if k >= 0 then k else IndexOfKey(acc, LinkKey(l.target, l.source));
    if e >= 0 then acc[e := acc[e].(value := acc[e].value + l.value)] else acc + [l]
  }

  /** The accumulator after folding every link of `ls`, in order. */
  function MergeLinks(ls: seq<NamedLink>): seq<NamedLink> {
    if ls == [] then [] else AddLink(MergeLinks(ls[..|ls| - 1]), ls[|ls| - 1])
  }

  /** Sum of the weights of a list of links. */
  function LinkSum(ls: seq<NamedLink>): int {
    if ls == [] then 0 else LinkSum(ls[..|ls| - 1]) + ls[|ls| - 1].value
  }

  /** Every name that occurs as an endpoint in `ls`. */
  function Endpoints(ls: seq<NamedLink>): set<string> {
    (set k | 0 <= k < |ls| :: ls[k].source) + (set k | 0 <= k < |ls| :: ls[k].target)
  }

  lemma {:induction false} LinkSumUpdate(p: seq<NamedLink>, k: nat, v: int)
    requires k < |p|
    ensures LinkSum(p[k := p[k].(value := v)]) == LinkSum(p) - p[k].value + v
  {
    var n := |p| - 1;
    assert p[k := p[k].(value := v)][..n] == if k < n then p[..n][k := p[k].(value := v)] else p[..n];
    if k < n { LinkSumUpdate(p[..n], k, v); }
  }

  lemma LinkSumSnoc(p: seq<NamedLink>, x: NamedLink)
    ensures LinkSum(p + [x]) == LinkSum(p) + x.value
  {
    assert (p + [x])[..|p|] == p;
  }

  /** One step of the fold adds the link's weight to the total. */
  lemma AddLinkWeight(p: seq<NamedLink>, x: NamedLink)
    ensures LinkSum(AddLink(p, x)) == LinkSum(p) + x.value
  {
    var k := IndexOfKey(p, LinkKey(x.source, x.target));
    var e := if k >= 0 then k else IndexOfKey(p, LinkKey(x.target, x.source));
    if e >= 0 {
      LinkSumUpdate(p, e, p[e].value + x.value);
    } else {
      LinkSumSnoc(p, x);
    }
  }

  /** Folding conserves weight whatever the names: every link's weight
      lands in exactly one entry. */
  lemma {:induction false} MergeLinksConservesWeight(ls: seq<NamedLink>)
    ensures LinkSum(MergeLinks(ls)) == LinkSum(ls)
  {
    if ls != [] {
      var s, x := ls[..|ls| - 1], ls[|ls| - 1];
      MergeLinksConservesWeight(s);
      AddLinkWeight(MergeLinks(s), x);
      assert MergeLinks(ls) == AddLink(MergeLinks(s), x);
      assert LinkSum(ls) == LinkSum(s) + x.value;
    }
  }

  /** No two entries of the accumulator are stored under the same key. */
  lemma {:induction false} MergeLinksKeysDistinct(ls: seq<NamedLink>)
    ensures forall i, j :: 0 <= i < j < |MergeLinks(ls)| ==>
      LinkKey(MergeLinks(ls)[i].source, MergeLinks(ls)[i].target) != LinkKey(MergeLinks(ls)[j].source, MergeLinks(ls)[j].target)
  {
    if ls != [] {
      var s, x := ls[..|ls| - 1], ls[|ls| - 1];
      MergeLinksKeysDistinct(s);
      var p := MergeLinks(s);
      var r := MergeLinks(ls);
      var k := IndexOfKey(p, LinkKey(x.source, x.target));
      var e := if k >= 0 then k else IndexOfKey(p, LinkKey(x.target, x.source));
      if e < 0 {
        assert r == p + [x];
        forall i | 0 <= i < |p| ensures r[i] == p[i] {}
      }
    }
  }

  lemma EndpointsSnoc(s: seq<NamedLink>, x: NamedLink)
    ensures Endpoints(s + [x]) == Endpoints(s) + {x.source, x.target}
  {
    var t := s + [x];
    assert forall k :: 0 <= k < |s| ==> t[k] == s[k];
    assert t[|s|] == x;
  }

  /** One step of the fold introduces no name but the new link's. */
  lemma AddLinkEndpoints(p: seq<NamedLink>, x: NamedLink)
    ensures Endpoints(AddLink(p, x)) <= Endpoints(p) + {x.source, x.target}
  {
    var r := AddLink(p, x);
    assert |r| <= |p| + 1;
    forall n | n in Endpoints(r) ensures n in Endpoints(p) + {x.source, x.target} {
      var i :| 0 <= i < |r| && (r[i].source == n || r[i].target == n);
      if i < |p| {
        assert r[i].source == p[i].source && r[i].target == p[i].target;
        assert p[i].source in Endpoints(p) && p[i].target in Endpoints(p);
      } else {
        assert r[i] == x;
      }
    }
  }

  /** The entries only ever carry endpoint names of the links folded in. */
  lemma {:induction false} MergeLinksEndpoints(ls: seq<NamedLink>)
    ensures Endpoints(MergeLinks(ls)) <= Endpoints(ls)
  {
    if ls != [] {
      var s, x := ls[..|ls| - 1], ls[|ls| - 1];
      MergeLinksEndpoints(s);
      assert ls == s + [x];
      EndpointsSnoc(s, x);
      AddLinkEndpoints(MergeLinks(s), x);
      assert MergeLinks(ls) == AddLink(MergeLinks(s), x);
    }
  }

  // ---------------------------------------------------------------------
  // Reference definition: merging on the unordered pair of names.

  /** `l` joins `a` and `b`, in either orientation. */
  predicate SamePair(l: NamedLink, a: string, b: string) {
    (l.source == a && l.target == b) || (l.source == b && l.target == a)
  }

  /** Position of the first link joining `a` and `b`, or -1. */
  function IndexOfPair(acc: seq<NamedLink>, a: string, b: string): (r: int)
    ensures -1 <= r < |acc|
    ensures 0 <= r ==> SamePair(acc[r], a, b)
    ensures forall k :: 0 <= k < |acc| && (r == -1 || k < r) ==> !SamePair(acc[k], a, b)
  {
    if acc == [] then -1
    else if SamePair(acc[0], a, b) then 0
    else
      var k := IndexOfPair(acc[1..], a, b);
      if k == -1 then -1 else k + 1
  }

  function AddLinkByPair(acc: seq<NamedLink>, l: NamedLink): seq<NamedLink> {
    var e := IndexOfPair(acc, l.source, l.target);
    if e >= 0 then acc[e := acc[e].(value := acc[e].value + l.value)] else acc + [l]
  }

  /** The merge an undirected graph calls for: one entry per unordered pair. */
  function MergeLinksByPair(ls: seq<NamedLink>): seq<NamedLink> {
    if ls == [] then [] else AddLinkByPair(MergeLinksByPair(ls[..|ls| - 1]), ls[|ls| - 1])
  }

  /** Total weight of the links joining `a` and `b`, in either orientation. */
  function PairTotal(ls: seq<NamedLink>, a: string, b: string): int {
    if ls == [] then 0
    else PairTotal(ls[..|ls| - 1], a, b) + (if SamePair(ls[|ls| - 1], a, b) then ls[|ls| - 1].value else 0)
  }

  /** No two entries of `r` join the same two names. */
  ghost predicate PairsDistinct(r: seq<NamedLink>) {
    forall i, j :: 0 <= i < j < |r| ==> !SamePair(r[i], r[j].source, r[j].target)
  }

  /** Each entry of `r` is the first link of `ls` between its two names, in
      that link's orientation, carrying the total weight of the pair. */
  ghost predicate FirstPairCopiesWithTotals(ls: seq<NamedLink>, r: seq<NamedLink>) {
    forall i :: 0 <= i < |r| ==>
      var f := IndexOfPair(ls, r[i].source, r[i].target);
      0 <= f && r[i] == ls[f].(value := PairTotal(ls, ls[f].source, ls[f].target))
  }

  /** The entries of `r` appear in the order their pairs are first seen in `ls`. */
  ghost predicate FirstSeenPairOrder(ls: seq<NamedLink>, r: seq<NamedLink>) {
    forall i, j :: 0 <= i < j < |r| ==>
      IndexOfPair(ls, r[i].source, r[i].target) < IndexOfPair(ls, r[j].source, r[j].target)
  }

  /** Every pair joined in `ls` has an entry in `r`. */
  ghost predicate CoversPairs(ls: seq<NamedLink>, r: seq<NamedLink>) {
    forall k {:trigger IndexOfPair(r, ls[k].source, ls[k].target)} :: 0 <= k < |ls| ==>
      IndexOfPair(r, ls[k].source, ls[k].target) >= 0
  }

  ghost predicate PairFoldInvariant(ls: seq<NamedLink>, r: seq<NamedLink>) {
    PairsDistinct(r) && FirstPairCopiesWithTotals(ls, r) && FirstSeenPairOrder(ls, r) && CoversPairs(ls, r)
  }

  lemma IndexOfPairSnoc(s: seq<NamedLink>, x: NamedLink, a: string, b: string)
    ensures IndexOfPair(s + [x], a, b) ==
      if IndexOfPair(s, a, b) >= 0 then IndexOfPair(s, a, b)
      else if SamePair(x, a, b) then |s| else -1
  {
    var t := s + [x];
    assert forall k :: 0 <= k < |s| ==> t[k] == s[k];
    assert t[|s|] == x;
  }

  lemma PairTotalSnoc(s: seq<NamedLink>, x: NamedLink, a: string, b: string)
    ensures PairTotal(s + [x], a, b) == PairTotal(s, a, b) + if SamePair(x, a, b) then x.value else 0
  {
    assert (s + [x])[..|s|] == s;
  }

  lemma {:induction false} PairTotalAbsent(ls: seq<NamedLink>, a: string, b: string)
    requires IndexOfPair(ls, a, b) == -1
    ensures PairTotal(ls, a, b) == 0
  {
    if ls != [] {
      var s := ls[..|ls| - 1];
      assert ls == s + [ls[|ls| - 1]];
      IndexOfPairSnoc(s, ls[|ls| - 1], a, b);
      PairTotalAbsent(s, a, b);
    }
  }

  lemma PairAbsentFromFolded(s: seq<NamedLink>, p: seq<NamedLink>, a: string, b: string)
    requires CoversPairs(s, p) && IndexOfPair(p, a, b) == -1
    ensures IndexOfPair(s, a, b) == -1
  {
    forall t | 0 <= t < |s| ensures !SamePair(s[t], a, b) {
      var q := IndexOfPair(p, s[t].source, s[t].target);
      assert q >= 0 && SamePair(p[q], s[t].source, s[t].target);
      assert !SamePair(p[q], a, b);
    }
  }

  lemma PairStepDistinct(s: seq<NamedLink>, x: NamedLink, p: seq<NamedLink>)
    requires PairFoldInvariant(s, p)
    ensures PairsDistinct(AddLinkByPair(p, x))
  {
    var k := IndexOfPair(p, x.source, x.target);
    var r := AddLinkByPair(p, x);
    if k < 0 {
      forall i | 0 <= i < |p| ensures !SamePair(r[i], x.source, x.target) {
        assert r[i] == p[i];
      }
    } else {
      forall i, j | 0 <= i < j < |r| ensures !SamePair(r[i], r[j].source, r[j].target) {
        assert r[i].source == p[i].source && r[i].target == p[i].target;
        assert r[j].source == p[j].source && r[j].target == p[j].target;
      }
    }
  }

  /** Entry `i` of the accumulator after one more link still satisfies
      FirstPairCopiesWithTotals. */
  lemma PairStepFirstCopy(s: seq<NamedLink>, x: NamedLink, p: seq<NamedLink>, i: nat)
    requires PairsDistinct(p) && FirstPairCopiesWithTotals(s, p) && CoversPairs(s, p)
    requires i < |AddLinkByPair(p, x)|
    ensures var ns, r := s + [x], AddLinkByPair(p, x);
      var f := IndexOfPair(ns, r[i].source, r[i].target);
      0 <= f && r[i] == ns[f].(value := PairTotal(ns, ns[f].source, ns[f].target))
  {
    var ns, r := s + [x], AddLinkByPair(p, x);
    var k := IndexOfPair(p, x.source, x.target);
    IndexOfPairSnoc(s, x, r[i].source, r[i].target);
    PairTotalSnoc(s, x, r[i].source, r[i].target);
    if i < |p| {
      var f := IndexOfPair(s, p[i].source, p[i].target);
      assert 0 <= f && p[i] == s[f].(value := PairTotal(s, s[f].source, s[f].target));
      assert ns[f] == s[f];
      assert r[i].source == p[i].source && r[i].target == p[i].target;
      if i == k {
        assert r[i] == p[i].(value := p[i].value + x.value);
        assert SamePair(x, p[i].source, p[i].target);
      } else {
        assert r[i] == p[i];
        assert !SamePair(p[i], x.source, x.target);
      }
    } else {
      PairAbsentFromFolded(s, p, x.source, x.target);
      PairTotalAbsent(s, x.source, x.target);
      assert ns[|s|] == x;
    }
  }

  lemma PairStepFirstCopies(s: seq<NamedLink>, x: NamedLink, p: seq<NamedLink>)
    requires PairsDistinct(p) && FirstPairCopiesWithTotals(s, p) && CoversPairs(s, p)
    ensures FirstPairCopiesWithTotals(s + [x], AddLinkByPair(p, x))
  {
    forall i | 0 <= i < |AddLinkByPair(p, x)|
      ensures var ns, r := s + [x], AddLinkByPair(p, x);
        var f := IndexOfPair(ns, r[i].source, r[i].target);
        0 <= f && r[i] == ns[f].(value := PairTotal(ns, ns[f].source, ns[f].target))
    {
      PairStepFirstCopy(s, x, p, i);
    }
  }

  lemma PairStepOrder(s: seq<NamedLink>, x: NamedLink, p: seq<NamedLink>)
    requires PairFoldInvariant(s, p)
    ensures FirstSeenPairOrder(s + [x], AddLinkByPair(p, x))
  {
    var ns, r := s + [x], AddLinkByPair(p, x);
    var k := IndexOfPair(p, x.source, x.target);
    forall i, j | 0 <= i < j < |r|
      ensures IndexOfPair(ns, r[i].source, r[i].target) < IndexOfPair(ns, r[j].source, r[j].target)
    {
      IndexOfPairSnoc(s, x, r[i].source, r[i].target);
      IndexOfPairSnoc(s, x, r[j].source, r[j].target);
      assert r[i].source == p[i].source && r[i].target == p[i].target;
      if j < |p| {
        assert r[j].source == p[j].source && r[j].target == p[j].target;
      } else {
        PairAbsentFromFolded(s, p, x.source, x.target);
        assert r[j] == x;
      }
    }
  }

  lemma PairStepCovers(s: seq<NamedLink>, x: NamedLink, p: seq<NamedLink>)
    requires PairFoldInvariant(s, p)
    ensures CoversPairs(s + [x], AddLinkByPair(p, x))
  {
    var ns, r := s + [x], AddLinkByPair(p, x);
    var k := IndexOfPair(p, x.source, x.target);
    forall t | 0 <= t < |ns| ensures IndexOfPair(r, ns[t].source, ns[t].target) >= 0 {
      if t < |s| {
        assert ns[t] == s[t];
        var q := IndexOfPair(p, s[t].source, s[t].target);
        assert r[q].source == p[q].source && r[q].target == p[q].target;
      } else if k >= 0 {
        assert r[k].source == p[k].source && r[k].target == p[k].target;
      } else {
        assert r[|p|] == x;
      }
    }
  }

  /** What merging on unordered pairs yields: one entry per pair of names,
      in first-seen order, each oriented as the pair's first link and
      weighing the total of all links between the two names, in either
      orientation; every pair that went in is present. */
  lemma {:induction false} MergeLinksByPairCorrect(ls: seq<NamedLink>)
    ensures PairsDistinct(MergeLinksByPair(ls))
    ensures FirstPairCopiesWithTotals(ls, MergeLinksByPair(ls))
    ensures FirstSeenPairOrder(ls, MergeLinksByPair(ls))
    ensures CoversPairs(ls, MergeLinksByPair(ls))
  {
    if ls != [] {
      var s, x := ls[..|ls| - 1], ls[|ls| - 1];
      assert ls == s + [x];
      MergeLinksByPairCorrect(s);
      var p := MergeLinksByPair(s);
      PairStepDistinct(s, x, p);
      PairStepFirstCopies(s, x, p);
      PairStepOrder(s, x, p);
      PairStepCovers(s, x, p);
    }
  }

  // ---------------------------------------------------------------------
  // When the string key and the pair agree.

  /** Among these names, a key determines the ordered pair it was built from. */
  ghost predicate KeysUnambiguous(names: set<string>) {
    forall a, b, c, d :: a in names && b in names && c in names && d in names && LinkKey(a, b) == LinkKey(c, d) ==>
      a == c && b == d
  }

  lemma AddLinkAgrees(p: seq<NamedLink>, x: NamedLink, names: set<string>)
    requires KeysUnambiguous(names) && Endpoints(p) <= names
    requires x.source in names && x.target in names
    requires PairsDistinct(p)
    ensures AddLink(p, x) == AddLinkByPair(p, x)
  {
    KeyMatchesOrderedPair(p, x.source, x.target, names);
    KeyMatchesOrderedPair(p, x.target, x.source, names);
    AddLinkAgreesWhenKeysMatch(p, x);
  }

  /** In `p`, the key built from `a` and `b` finds exactly the entries from `a` to `b`. */
  ghost predicate KeyFindsOrderedPair(p: seq<NamedLink>, a: string, b: string) {
    forall i :: 0 <= i < |p| ==>
      (LinkKey(p[i].source, p[i].target) == LinkKey(a, b) <==> p[i].source == a && p[i].target == b)
  }

  lemma AddLinkAgreesWhenKeysMatch(p: seq<NamedLink>, x: NamedLink)
    requires KeyFindsOrderedPair(p, x.source, x.target) && KeyFindsOrderedPair(p, x.target, x.source)
    requires PairsDistinct(p)
    ensures AddLink(p, x) == AddLinkByPair(p, x)
  {
    var a, b := x.source, x.target;
    var k := IndexOfKey(p, LinkKey(a, b));
    if k >= 0 {
      assert SamePair(p[k], a, b);
      forall j | 0 <= j < k ensures !SamePair(p[j], a, b) {
        assert !SamePair(p[j], p[k].source, p[k].target);
      }
      assert IndexOfPair(p, a, b) == k;
    } else {
      var e := IndexOfKey(p, LinkKey(b, a));
      if e >= 0 {
        assert SamePair(p[e], a, b);
        forall j | 0 <= j < e ensures !SamePair(p[j], a, b) {
          assert !(p[j].source == a && p[j].target == b);
          assert !(p[j].source == b && p[j].target == a);
        }
        assert IndexOfPair(p, a, b) == e;
      } else {
        forall j | 0 <= j < |p| ensures !SamePair(p[j], a, b) {
          assert !(p[j].source == a && p[j].target == b);
          assert !(p[j].source == b && p[j].target == a);
        }
        assert IndexOfPair(p, a, b) == -1;
      }
    }
  }

  lemma KeyMatchesOrderedPair(p: seq<NamedLink>, a: string, b: string, names: set<string>)
    requires KeysUnambiguous(names) && Endpoints(p) <= names
    requires a in names && b in names
    ensures KeyFindsOrderedPair(p, a, b)
  {
    forall i | 0 <= i < |p|
      ensures LinkKey(p[i].source, p[i].target) == LinkKey(a, b) <==> p[i].source == a && p[i].target == b
    {
      assert p[i].source in Endpoints(p) && p[i].target in Endpoints(p);
    }
  }

  /** Whenever the names involved keep keys unambiguous, the source's
      string-keyed merge is exactly the merge on unordered pairs. */
  lemma {:induction false} KeyedMergeIsPairMerge(ls: seq<NamedLink>)
    requires KeysUnambiguous(Endpoints(ls))
    ensures MergeLinks(ls) == MergeLinksByPair(ls)
  {
    if ls != [] {
      var s, x := ls[..|ls| - 1], ls[|ls| - 1];
      assert forall k :: 0 <= k < |s| ==> s[k] == ls[k];
      assert Endpoints(s) <= Endpoints(ls);
      assert x.source in Endpoints(ls) && x.target in Endpoints(ls) by {
        assert ls[|ls| - 1] == x;
      }
      KeyedMergeIsPairMerge(s);
      MergeLinksEndpoints(s);
      MergeLinksByPairCorrect(s);
      AddLinkAgrees(MergeLinks(s), x, Endpoints(ls));
    }
  }

  /** The part of a key before its first '-'. */
  function KeyHead(key: string): string {
    if key == [] || key[0] == '-' then [] else [key[0]] + KeyHead(key[1..])
  }

  lemma {:induction false} KeyHeadOfKey(a: string, b: string)
    requires '-' !in a
    ensures KeyHead(LinkKey(a, b)) == a
  {
    if a != [] {
      assert LinkKey(a, b)[1..] == LinkKey(a[1..], b);
      assert a[0] in a;
      KeyHeadOfKey(a[1..], b);
    }
  }

  /** Names free of '-' (the usual case) keep keys unambiguous. */
  lemma NoDashKeysUnambiguous(names: set<string>)
    requires forall n :: n in names ==> '-' !in n
    ensures KeysUnambiguous(names)
  {
    forall a, b, c, d | a in names && b in names && c in names && d in names && LinkKey(a, b) == LinkKey(c, d)
      ensures a == c && b == d
    {
      KeyHeadOfKey(a, b);
      KeyHeadOfKey(c, d);
      assert LinkKey(a, b)[|a| + 1..] == b;
      assert LinkKey(c, d)[|c| + 1..] == d;
    }
  }

  /** With '-' inside names, two different pairs can share a key: the link
      between "A" and "B-C" is absorbed by the one between "A-B" and "C". */
  lemma DashedNamesConflate()
    ensures var ls := [NamedLink("A-B", "C", 1), NamedLink("A", "B-C", 2)];
      MergeLinks(ls) == [NamedLink("A-B", "C", 3)] &&
      MergeLinksByPair(ls) == ls
  {
    var l1, l2 := NamedLink("A-B", "C", 1), NamedLink("A", "B-C", 2);
    var ls := [l1, l2];
    assert ls[..1] == [l1];
    assert [l1][..0] == [];
    assert LinkKey("A", "B-C") == LinkKey("A-B", "C");
    assert MergeLinks([l1]) == [l1];
    assert MergeLinksByPair([l1]) == [l1];
  }

  /** Dropping the last link keeps the pairs distinct, and the last link's
      pair is then absent from the rest. */
  lemma PairsDistinctPrefix(ls: seq<NamedLink>)
    requires PairsDistinct(ls) && ls != []
    ensures PairsDistinct(ls[..|ls| - 1])
    ensures IndexOfPair(ls[..|ls| - 1], ls[|ls| - 1].source, ls[|ls| - 1].target) == -1
  {
    var s, x := ls[..|ls| - 1], ls[|ls| - 1];
    forall i, j | 0 <= i < j < |s| ensures !SamePair(s[i], s[j].source, s[j].target) {
      assert s[i] == ls[i] && s[j] == ls[j];
    }
    forall k | 0 <= k < |s| ensures !SamePair(s[k], x.source, x.target) {
      assert s[k] == ls[k];
    }
  }

  /** Links that already join distinct pairs merge to themselves. */
  lemma {:induction false} DistinctPairsMergeToThemselves(ls: seq<NamedLink>)
    requires PairsDistinct(ls)
    ensures MergeLinksByPair(ls) == ls
  {
    if ls != [] {
      var s, x := ls[..|ls| - 1], ls[|ls| - 1];
      assert MergeLinksByPair(s) == s && IndexOfPair(s, x.source, x.target) == -1 by {
        PairsDistinctPrefix(ls);
        DistinctPairsMergeToThemselves(s);
      }
      assert ls == s + [x];
      assert MergeLinksByPair(ls) == AddLinkByPair(s, x);
    }
  }
}
