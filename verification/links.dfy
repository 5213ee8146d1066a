/**
 * Linking fragments (`gen_frag_links` in proj/src/derived_state.rs).
 *
 * Fragment `i` links onto fragment `j` when the leftover row of `i` (part 0
 * of its last expanded row) is the first row of `j` (part 0 of its first
 * expanded row).  All pairs are tried in order; each distinct linking row
 * gets a colour, numbered from 0 in order of discovery, and each fragment
 * records the colour of the links at its top and bottom.
 */
module Linking {
  import opened Wrappers
  import opened Rows
  import opened Sequences
  import opened Expansion

  /** Fragment `to` can be joined onto the end of fragment `from`, in colour `group`. */
  datatype FragLink = FragLink(from: nat, to: nat, group: nat)

  /** The colours of the links at the top and at the bottom of one fragment, if any. */
  datatype FragLinkGroups = FragLinkGroups(linkGroupTop: Option<nat>, linkGroupBottom: Option<nat>)

  /** A pair of fragment indices. */
  type Pair = (nat, nat)

  /**
   * What the linking reads without panicking: every fragment has an expanded
   * row, and its first and last expanded rows have a row for part 0.
   */
  predicate WellShaped(gen: seq<seq<ExpandedRow>>)
  {
    forall i :: 0 <= i < |gen| ==>
      |gen[i]| > 0 && |gen[i][0].rows| > 0 && |gen[i][|gen[i]| - 1].rows| > 0
  }

  /** `f.last().unwrap().rows[0]`. */
  function LeftoverRow(gen: seq<seq<ExpandedRow>>, i: nat): Row
    requires WellShaped(gen) && i < |gen|
  {
    gen[i][|gen[i]| - 1].rows[0]
  }

  /** `g[0].rows[0]`. */
  function FirstRow(gen: seq<seq<ExpandedRow>>, j: nat): Row
    requires WellShaped(gen) && j < |gen|
  {
    gen[j][0].rows[0]
  }

  /** `(i, j)` names two fragments and the leftover row of `i` is the first row of `j`. */
  predicate IsLinkPair(gen: seq<seq<ExpandedRow>>, p: Pair)
    requires WellShaped(gen)
  {
    p.0 < |gen| && p.1 < |gen| && LeftoverRow(gen, p.0) == FirstRow(gen, p.1)
  }

  function IsLink(gen: seq<seq<ExpandedRow>>): Pair -> bool
    requires WellShaped(gen)
  {
    (p: Pair) => IsLinkPair(gen, p)
  }

  function Ends(l: FragLink): Pair
  {
    (l.from, l.to)
  }

  /** Strictly before in the lexicographic order on pairs. */
  predicate PairLt(p: Pair, q: Pair)
  {
    p.0 < q.0 || (p.0 == q.0 && p.1 < q.1)
  }

  /** The pairs the two nested loops over `n` fragments visit before reaching `(i, j)`, in order. */
  function PairsBefore(n: nat, i: nat, j: nat): seq<Pair>
    requires j <= n
    decreases i, j
  {
    if j > 0 then PairsBefore(n, i, j - 1) + [(i, j - 1)]
    else if i > 0 then PairsBefore(n, i - 1, n)
    else []
  }

  /** Every pair of fragments, row by row. */
  function AllPairs(n: nat): seq<Pair>
  {
    PairsBefore(n, n, 0)
  }

  lemma {:induction false} PairsBeforeMembers(n: nat, i: nat, j: nat, p: Pair)
    requires (i < n && j <= n) || (i == n && j == 0)
    ensures p in PairsBefore(n, i, j) <==> p.0 < n && p.1 < n && (p.0 < i || (p.0 == i && p.1 < j))
    decreases i, j
  {
    if j > 0 {
      PairsBeforeMembers(n, i, j - 1, p);
    } else if i > 0 {
      PairsBeforeMembers(n, i - 1, n, p);
    }
  }

  /** The nested loops visit every pair of fragment indices below `n`, and nothing else. */
  lemma AllPairsMembers(n: nat, p: Pair)
    ensures p in AllPairs(n) <==> p.0 < n && p.1 < n
  {
    PairsBeforeMembers(n, n, 0, p);
  }

  /** `ps` is strictly increasing in the lexicographic order. */
  ghost predicate Increasing(ps: seq<Pair>)
  {
    forall a, b :: 0 <= a < b < |ps| ==> PairLt(ps[a], ps[b])
  }

  /** Appending a pair after everything in an increasing sequence keeps it increasing. */
  lemma IncreasingSnoc(ps: seq<Pair>, q: Pair)
    requires Increasing(ps) && forall x :: x in ps ==> PairLt(x, q)
    ensures Increasing(ps + [q])
  {
    forall a, b | 0 <= a < b < |ps + [q]| ensures PairLt((ps + [q])[a], (ps + [q])[b]) {
      if b == |ps| {
        assert ps[a] in ps;
      }
    }
  }

  /**
   * The nested loops visit the pairs in strictly increasing lexicographic
   * order, so none is visited twice.
   */
  lemma {:induction false} PairsBeforeIncreasing(n: nat, i: nat, j: nat)
    requires (i < n && j <= n) || (i == n && j == 0)
    ensures Increasing(PairsBefore(n, i, j))
    decreases i, j
  {
    if j > 0 {
      var ps := PairsBefore(n, i, j - 1);
      PairsBeforeIncreasing(n, i, j - 1);
      forall x | x in ps ensures PairLt(x, (i, j - 1)) {
        PairsBeforeMembers(n, i, j - 1, x);
      }
      IncreasingSnoc(ps, (i, j - 1));
    } else if i > 0 {
      PairsBeforeIncreasing(n, i - 1, n);
    }
  }

  /** The links found before `(i, j)` come in lexicographic order. */
  lemma {:induction false} LinksBeforeIncreasing(gen: seq<seq<ExpandedRow>>, i: nat, j: nat)
    requires WellShaped(gen)
    requires (i < |gen| && j <= |gen|) || (i == |gen| && j == 0)
    ensures Increasing(Filter(PairsBefore(|gen|, i, j), IsLink(gen)))
    decreases i, j
  {
    var n := |gen|;
    if j > 0 {
      var ps: seq<Pair>, q: Pair := PairsBefore(n, i, j - 1), (i, j - 1);
      LinksBeforeIncreasing(gen, i, j - 1);
      FilterSnoc(ps, q, IsLink(gen));
      var fs := Filter(ps, IsLink(gen));
      if IsLink(gen)(q) {
        forall x | x in fs ensures PairLt(x, q) {
          FilterMembers(ps, IsLink(gen), x);
          PairsBeforeMembers(n, i, j - 1, x);
        }
        IncreasingSnoc(fs, q);
      }
    } else if i > 0 {
      LinksBeforeIncreasing(gen, i - 1, n);
    }
  }

  /** The rows that link fragments, each once, in the order the pairs `ps` first discover them. */
  function Discovered(gen: seq<seq<ExpandedRow>>, ps: seq<Pair>): seq<Row>
    requires WellShaped(gen)
  {
    if ps == [] then []
    else
      var d := Discovered(gen, ps[..|ps| - 1]);
      var p := ps[|ps| - 1];
      if IsLinkPair(gen, p) && LeftoverRow(gen, p.0) !in d then d + [LeftoverRow(gen, p.0)] else d
  }

  /** No element of `s` occurs twice. */
  ghost predicate NoRepeats<T>(s: seq<T>)
  {
    forall a, b :: 0 <= a < b < |s| ==> s[a] != s[b]
  }

  /** The position of `x` in `s`, or `|s|` if it is absent. */
  function IndexOf<T(==)>(s: seq<T>, x: T): (k: nat)
    ensures k <= |s| && (k < |s| <==> x in s)
    ensures k < |s| ==> s[k] == x
  {
    if s == [] then 0
    else if s[0] == x then 0
    else 1 + IndexOf(s[1..], x)
  }

  /** Appending to `s` does not move what was already there. */
  lemma IndexOfAppend<T>(s: seq<T>, y: T, x: T)
    requires x in s
    ensures IndexOf(s + [y], x) == IndexOf(s, x)
  {
    if s[0] != x {
      assert (s + [y])[1..] == s[1..] + [y];
      IndexOfAppend(s[1..], y, x);
    }
  }

  /** The colour of linking row `r`: its position in discovery order. */
  function IdOf(gen: seq<seq<ExpandedRow>>, ps: seq<Pair>, r: Row): nat
    requires WellShaped(gen)
  {
    IndexOf(Discovered(gen, ps), r)
  }

  /** One of the pairs `ps` links from fragment `x`. */
  predicate LinksFrom(gen: seq<seq<ExpandedRow>>, ps: seq<Pair>, x: nat)
    requires WellShaped(gen)
  {
    ps != [] && (LinksFrom(gen, ps[..|ps| - 1], x) || (IsLinkPair(gen, ps[|ps| - 1]) && ps[|ps| - 1].0 == x))
  }

  /** One of the pairs `ps` links to fragment `x`. */
  predicate LinksTo(gen: seq<seq<ExpandedRow>>, ps: seq<Pair>, x: nat)
    requires WellShaped(gen)
  {
    ps != [] && (LinksTo(gen, ps[..|ps| - 1], x) || (IsLinkPair(gen, ps[|ps| - 1]) && ps[|ps| - 1].1 == x))
  }

  /** The tip colours of fragment `x` once the pairs `ps` are visited. */
  function TipsOf(gen: seq<seq<ExpandedRow>>, ps: seq<Pair>, x: nat): FragLinkGroups
    requires WellShaped(gen) && x < |gen|
  {
    FragLinkGroups(
      if LinksTo(gen, ps, x) then Some(IdOf(gen, ps, FirstRow(gen, x))) else None,
      if LinksFrom(gen, ps, x) then Some(IdOf(gen, ps, LeftoverRow(gen, x))) else None)
  }

  /** `link_groups` gives each discovered row its position in `d`, and holds nothing else. */
  ghost predicate Numbered(linkGroups: map<Row, nat>, d: seq<Row>)
  {
    |linkGroups| == |d|
    && (forall r :: r in linkGroups <==> r in d)
    && (forall k :: 0 <= k < |d| ==> linkGroups[d[k]] == k)
  }

  /** The links recorded are those of the pairs of `ps` that link, in order. */
  ghost predicate LinksMatch(gen: seq<seq<ExpandedRow>>, ps: seq<Pair>, links: seq<FragLink>)
    requires WellShaped(gen)
  {
    Map(links, Ends) == Filter(ps, IsLink(gen))
  }

  /** Every link recorded carries the colour of its linking row. */
  ghost predicate LinksColoured(gen: seq<seq<ExpandedRow>>, ps: seq<Pair>, links: seq<FragLink>)
    requires WellShaped(gen)
  {
    forall k :: 0 <= k < |links| ==>
      links[k].from < |gen| && LeftoverRow(gen, links[k].from) in Discovered(gen, ps)
      && links[k].group == IdOf(gen, ps, LeftoverRow(gen, links[k].from))
  }

  /** Every fragment's tips are as the pairs `ps` leave them. */
  ghost predicate TipsMatch(gen: seq<seq<ExpandedRow>>, ps: seq<Pair>, tips: seq<FragLinkGroups>)
    requires WellShaped(gen)
  {
    |tips| == |gen| && forall x :: 0 <= x < |gen| ==> tips[x] == TipsOf(gen, ps, x)
  }

  /** Visiting more pairs keeps every discovered row and its colour. */
  ghost predicate KeepsColours(gen: seq<seq<ExpandedRow>>, ps: seq<Pair>, ps': seq<Pair>)
    requires WellShaped(gen)
  {
    forall y :: y in Discovered(gen, ps) ==> y in Discovered(gen, ps') && IdOf(gen, ps', y) == IdOf(gen, ps, y)
  }

  /** The state of `gen_frag_links` once the pairs `ps` have been visited. */
  ghost predicate LinkInv(gen: seq<seq<ExpandedRow>>, ps: seq<Pair>, linkGroups: map<Row, nat>,
                          links: seq<FragLink>, tips: seq<FragLinkGroups>)
    requires WellShaped(gen)
  {
    NoRepeats(Discovered(gen, ps)) && Numbered(linkGroups, Discovered(gen, ps))
    && LinksMatch(gen, ps, links) && LinksColoured(gen, ps, links) && TipsMatch(gen, ps, tips)
  }

  lemma LinkInvInit(gen: seq<seq<ExpandedRow>>)
    requires WellShaped(gen)
    ensures LinkInv(gen, [], map[], [], seq(|gen|, _ => FragLinkGroups(None, None)))
  {
  }

  /** Visiting a pair that does not link changes nothing. */
  lemma SkipPair(gen: seq<seq<ExpandedRow>>, ps: seq<Pair>, p: Pair, linkGroups: map<Row, nat>,
                 links: seq<FragLink>, tips: seq<FragLinkGroups>)
    requires WellShaped(gen) && !IsLinkPair(gen, p)
    requires LinkInv(gen, ps, linkGroups, links, tips)
    ensures LinkInv(gen, ps + [p], linkGroups, links, tips)
  {
    var ps' := ps + [p];
    assert ps'[..|ps|] == ps;
    assert Filter(ps', IsLink(gen)) == Filter(ps, IsLink(gen));
    assert Discovered(gen, ps') == Discovered(gen, ps);
    forall x | 0 <= x < |gen| ensures TipsOf(gen, ps', x) == TipsOf(gen, ps, x) {
      assert LinksFrom(gen, ps', x) == LinksFrom(gen, ps, x);
      assert LinksTo(gen, ps', x) == LinksTo(gen, ps, x);
    }
  }

  /** How the discovered rows and the numbering grow when pair `p` links. */
  lemma DiscoverPair(gen: seq<seq<ExpandedRow>>, ps: seq<Pair>, p: Pair, linkGroups: map<Row, nat>)
    requires WellShaped(gen) && IsLinkPair(gen, p)
    requires var d := Discovered(gen, ps); NoRepeats(d) && Numbered(linkGroups, d)
    ensures var r := LeftoverRow(gen, p.0);
      var linkGroups' := if r in linkGroups then linkGroups else linkGroups[r := |linkGroups|];
      var d' := Discovered(gen, ps + [p]);
      NoRepeats(d') && Numbered(linkGroups', d') && r in d' && linkGroups'[r] == IndexOf(d', r)
      && KeepsColours(gen, ps, ps + [p])
  {
    var ps' := ps + [p];
    assert ps'[..|ps|] == ps;
    var d := Discovered(gen, ps);
    var r := LeftoverRow(gen, p.0);
    if r !in d {
      assert Discovered(gen, ps') == d + [r];
      NumberNew(d, r, linkGroups);
    } else {
      assert Discovered(gen, ps') == d;
      assert d[IndexOf(d, r)] == r;
    }
  }

  /** Numbering a row not yet discovered with the next number. */
  lemma NumberNew(d: seq<Row>, r: Row, linkGroups: map<Row, nat>)
    requires NoRepeats(d) && Numbered(linkGroups, d) && r !in d
    ensures NoRepeats(d + [r]) && Numbered(linkGroups[r := |linkGroups|], d + [r])
    ensures IndexOf(d + [r], r) == |d|
    ensures forall y :: y in d ==> IndexOf(d + [r], y) == IndexOf(d, y)
  {
    forall y | y in d ensures IndexOf(d + [r], y) == IndexOf(d, y) {
      IndexOfAppend(d, r, y);
    }
    assert (d + [r])[|d|] == r;
  }

  /**
   * The bottom colour of `p.0` and the top colour of `p.1` set to `group`.  The two
   * fields differ, so only this sequence encoding needs the second update to
   * read the first one's result when `p.0 == p.1`.
   */
  function SetTips(tips: seq<FragLinkGroups>, p: Pair, group: nat): seq<FragLinkGroups>
    requires p.0 < |tips| && p.1 < |tips|
  {
    var t := tips[p.0 := tips[p.0].(linkGroupBottom := Some(group))];
    t[p.1 := t[p.1].(linkGroupTop := Some(group))]
  }

  /** Setting the bottom of `p.0` and the top of `p.1` to the new link's colour keeps the tips of `x` up to date. */
  lemma TipStep(gen: seq<seq<ExpandedRow>>, ps: seq<Pair>, p: Pair, x: nat, old_: FragLinkGroups, new_: FragLinkGroups, group: nat)
    requires WellShaped(gen) && IsLinkPair(gen, p) && x < |gen|
    requires old_ == TipsOf(gen, ps, x)
    requires group == IdOf(gen, ps + [p], LeftoverRow(gen, p.0))
    requires KeepsColours(gen, ps, ps + [p])
    requires var b := if x == p.0 then old_.(linkGroupBottom := Some(group)) else old_;
      new_ == if x == p.1 then b.(linkGroupTop := Some(group)) else b
    ensures new_ == TipsOf(gen, ps + [p], x)
  {
    var ps' := ps + [p];
    assert ps'[..|ps|] == ps;
    assert LinksFrom(gen, ps', x) == (LinksFrom(gen, ps, x) || x == p.0);
    assert LinksTo(gen, ps', x) == (LinksTo(gen, ps, x) || x == p.1);
    if LinksFrom(gen, ps, x) {
      LinksFromKnown(gen, ps, x);
    }
    if LinksTo(gen, ps, x) {
      LinksToKnown(gen, ps, x);
    }
  }

  lemma TipsStep(gen: seq<seq<ExpandedRow>>, ps: seq<Pair>, p: Pair, tips: seq<FragLinkGroups>, group: nat)
    requires WellShaped(gen) && IsLinkPair(gen, p) && TipsMatch(gen, ps, tips)
    requires group == IdOf(gen, ps + [p], LeftoverRow(gen, p.0))
    requires KeepsColours(gen, ps, ps + [p])
    ensures TipsMatch(gen, ps + [p], SetTips(tips, p, group))
  {
    var tips' := SetTips(tips, p, group);
    forall x | 0 <= x < |gen| ensures tips'[x] == TipsOf(gen, ps + [p], x) {
      TipStep(gen, ps, p, x, tips[x], tips'[x], group);
    }
  }

  /** The new link's pair is the next one kept. */
  lemma LinksMatchStep(gen: seq<seq<ExpandedRow>>, ps: seq<Pair>, p: Pair, links: seq<FragLink>, group: nat)
    requires WellShaped(gen) && IsLinkPair(gen, p) && LinksMatch(gen, ps, links)
    ensures LinksMatch(gen, ps + [p], links + [FragLink(p.0, p.1, group)])
  {
    var ps' := ps + [p];
    assert ps'[..|ps|] == ps;
    MapConcat(links, [FragLink(p.0, p.1, group)], Ends);
    assert Filter(ps', IsLink(gen)) == Filter(ps, IsLink(gen)) + [p];
  }

  /** Earlier links keep their colours and the new one has its row's. */
  lemma LinksColouredStep(gen: seq<seq<ExpandedRow>>, ps: seq<Pair>, p: Pair, links: seq<FragLink>, group: nat)
    requires WellShaped(gen) && IsLinkPair(gen, p) && LinksColoured(gen, ps, links)
    requires group == IdOf(gen, ps + [p], LeftoverRow(gen, p.0)) && LeftoverRow(gen, p.0) in Discovered(gen, ps + [p])
    requires KeepsColours(gen, ps, ps + [p])
    ensures LinksColoured(gen, ps + [p], links + [FragLink(p.0, p.1, group)])
  {
  }

  /** Visiting a pair that links adds its link and sets the tips of both fragments. */
  lemma LinkPair(gen: seq<seq<ExpandedRow>>, ps: seq<Pair>, p: Pair, linkGroups: map<Row, nat>,
                 links: seq<FragLink>, tips: seq<FragLinkGroups>)
    requires WellShaped(gen) && IsLinkPair(gen, p)
    requires LinkInv(gen, ps, linkGroups, links, tips)
    ensures var r := LeftoverRow(gen, p.0);
      var linkGroups' := if r in linkGroups then linkGroups else linkGroups[r := |linkGroups|];
      var group := linkGroups'[r];
      LinkInv(gen, ps + [p], linkGroups', links + [FragLink(p.0, p.1, group)],
              SetTips(tips, p, group))
  {
    var r := LeftoverRow(gen, p.0);
    DiscoverPair(gen, ps, p, linkGroups);
    var linkGroups' := if r in linkGroups then linkGroups else linkGroups[r := |linkGroups|];
    var group := linkGroups'[r];
    TipsStep(gen, ps, p, tips, group);
    LinksMatchStep(gen, ps, p, links, group);
    LinksColouredStep(gen, ps, p, links, group);
  }

  /** A fragment with a link from it has its leftover row discovered. */
  lemma {:induction false} LinksFromKnown(gen: seq<seq<ExpandedRow>>, ps: seq<Pair>, x: nat)
    requires WellShaped(gen) && x < |gen| && LinksFrom(gen, ps, x)
    ensures LeftoverRow(gen, x) in Discovered(gen, ps)
  {
    var q := ps[..|ps| - 1];
    if LinksFrom(gen, q, x) {
      LinksFromKnown(gen, q, x);
    }
  }

  /** A fragment with a link to it has its first row discovered. */
  lemma {:induction false} LinksToKnown(gen: seq<seq<ExpandedRow>>, ps: seq<Pair>, x: nat)
    requires WellShaped(gen) && x < |gen| && LinksTo(gen, ps, x)
    ensures FirstRow(gen, x) in Discovered(gen, ps)
  {
    var q := ps[..|ps| - 1];
    if LinksTo(gen, q, x) {
      LinksToKnown(gen, q, x);
    }
  }

  /**
   * One iteration of the inner loop of `gen_frag_links`: if the leftover row
   * of `i` is the first row of `j`, look up (or assign the next) colour for
   * that row, record the link, and set the bottom of `i` and the top of `j`.
   */
  method VisitPair(gen: seq<seq<ExpandedRow>>, i: nat, j: nat, ghost ps: seq<Pair>, linkGroups: map<Row, nat>,
                   links: seq<FragLink>, tips: seq<FragLinkGroups>)
    returns (linkGroups': map<Row, nat>, links': seq<FragLink>, tips': seq<FragLinkGroups>)
    requires WellShaped(gen) && i < |gen| && j < |gen|
    requires LinkInv(gen, ps, linkGroups, links, tips)
    ensures LinkInv(gen, ps + [(i, j)], linkGroups', links', tips')
  {
    linkGroups', links', tips' := linkGroups, links, tips;
    var leftover := LeftoverRow(gen, i);
    var first := FirstRow(gen, j);
    if leftover == first {
      LinkPair(gen, ps, (i, j), linkGroups, links, tips);
      var len := |linkGroups'|;
      if leftover !in linkGroups' {
        linkGroups' := linkGroups'[leftover := len];
      }
      var group := linkGroups'[leftover];
      links' := links' + [FragLink(i, j, group)];
      tips' := tips'[i := tips'[i].(linkGroupBottom := Some(group))];
      tips' := tips'[j := tips'[j].(linkGroupTop := Some(group))];
    } else {
      SkipPair(gen, ps, (i, j), linkGroups, links, tips);
    }
  }

  /**
   * `gen_frag_links`: tries every pair of fragments in order and returns the
   * links found and each fragment's tip colours.
   */
  method GenFragLinks(gen: seq<seq<ExpandedRow>>) returns (links: seq<FragLink>, tips: seq<FragLinkGroups>)
    requires WellShaped(gen)
    ensures Map(links, Ends) == Filter(AllPairs(|gen|), IsLink(gen))
    ensures forall k :: 0 <= k < |links| ==>
      links[k].from < |gen| && links[k].group == IdOf(gen, AllPairs(|gen|), LeftoverRow(gen, links[k].from))
    ensures |tips| == |gen| && forall x :: 0 <= x < |gen| ==> tips[x] == TipsOf(gen, AllPairs(|gen|), x)
    ensures forall k :: 0 <= k < |links| ==>
      links[k].to < |gen|
      && tips[links[k].from].linkGroupBottom == Some(links[k].group)
      && tips[links[k].to].linkGroupTop == Some(links[k].group)
  {
    var n := |gen|;
    var linkGroups: map<Row, nat> := map[];
    links := [];
    tips := seq(n, _ => FragLinkGroups(None, None));
    LinkInvInit(gen);
    for i := 0 to n
      invariant LinkInv(gen, PairsBefore(n, i, 0), linkGroups, links, tips)
    {
      for j := 0 to n
        invariant LinkInv(gen, PairsBefore(n, i, j), linkGroups, links, tips)
      {
        linkGroups, links, tips := VisitPair(gen, i, j, PairsBefore(n, i, j), linkGroups, links, tips);
      }
    }
    forall k | 0 <= k < |links|
      ensures links[k].to < |gen|
      ensures tips[links[k].from].linkGroupBottom == Some(links[k].group)
      ensures tips[links[k].to].linkGroupTop == Some(links[k].group)
    {
      TipsAgree(gen, links, tips, k);
    }
  }

  /** A link is kept for `(i, j)` exactly when both are fragments and `j`'s first row is `i`'s leftover row. */
  lemma LinkIff(gen: seq<seq<ExpandedRow>>, p: Pair)
    requires WellShaped(gen)
    ensures p in Filter(AllPairs(|gen|), IsLink(gen)) <==>
      p.0 < |gen| && p.1 < |gen| && LeftoverRow(gen, p.0) == FirstRow(gen, p.1)
  {
    FilterMembers(AllPairs(|gen|), IsLink(gen), p);
    AllPairsMembers(|gen|, p);
  }

  /** The links come in lexicographic `(from, to)` order, with no pair twice. */
  lemma LinksOrdered(gen: seq<seq<ExpandedRow>>)
    requires WellShaped(gen)
    ensures Increasing(Filter(AllPairs(|gen|), IsLink(gen)))
  {
    LinksBeforeIncreasing(gen, |gen|, 0);
  }

  /** The discovered rows are exactly the rows at which some pair of `ps` links. */
  lemma {:induction false} DiscoveredMembers(gen: seq<seq<ExpandedRow>>, ps: seq<Pair>, r: Row)
    requires WellShaped(gen)
    ensures r in Discovered(gen, ps) <==>
      exists k :: 0 <= k < |ps| && IsLinkPair(gen, ps[k]) && LeftoverRow(gen, ps[k].0) == r
  {
    if ps != [] {
      var q := ps[..|ps| - 1];
      DiscoveredMembers(gen, q, r);
      if exists k :: 0 <= k < |ps| && IsLinkPair(gen, ps[k]) && LeftoverRow(gen, ps[k].0) == r {
        var k :| 0 <= k < |ps| && IsLinkPair(gen, ps[k]) && LeftoverRow(gen, ps[k].0) == r;
        if k < |q| {
          assert q[k] == ps[k];
        }
      }
      if r in Discovered(gen, q) {
        var k :| 0 <= k < |q| && IsLinkPair(gen, q[k]) && LeftoverRow(gen, q[k].0) == r;
        assert ps[k] == q[k];
      }
    }
  }

  /** Discovering never forgets or reorders: the rows found by a prefix of `ps` begin those found by `ps`. */
  lemma {:induction false} DiscoveredPrefix(gen: seq<seq<ExpandedRow>>, ps: seq<Pair>, k: nat)
    requires WellShaped(gen) && k <= |ps|
    ensures var d := Discovered(gen, ps[..k]);
      |d| <= |Discovered(gen, ps)| && Discovered(gen, ps)[..|d|] == d
    decreases |ps| - k
  {
    if k < |ps| {
      DiscoveredPrefix(gen, ps, k + 1);
      assert ps[..k + 1][..k] == ps[..k];
    } else {
      assert ps[..k] == ps;
    }
  }

  /** No row is discovered twice. */
  lemma {:induction false} DiscoveredNoRepeats(gen: seq<seq<ExpandedRow>>, ps: seq<Pair>)
    requires WellShaped(gen)
    ensures NoRepeats(Discovered(gen, ps))
  {
    if ps != [] {
      DiscoveredNoRepeats(gen, ps[..|ps| - 1]);
    }
  }

  /**
   * Colours are numbered 0, 1, ... in order of discovery: a row first linked
   * at pair `k` gets as its colour the number of rows discovered before it,
   * and keeps it to the end.
   */
  lemma FirstDiscoveryColour(gen: seq<seq<ExpandedRow>>, ps: seq<Pair>, k: nat)
    requires WellShaped(gen) && k < |ps| && IsLinkPair(gen, ps[k])
    requires LeftoverRow(gen, ps[k].0) !in Discovered(gen, ps[..k])
    ensures IdOf(gen, ps, LeftoverRow(gen, ps[k].0)) == |Discovered(gen, ps[..k])|
  {
    var r := LeftoverRow(gen, ps[k].0);
    var d0 := Discovered(gen, ps[..k]);
    assert ps[..k + 1][..k] == ps[..k];
    assert Discovered(gen, ps[..k + 1]) == d0 + [r];
    DiscoveredPrefix(gen, ps, k + 1);
    DiscoveredNoRepeats(gen, ps);
    var d := Discovered(gen, ps);
    assert d[|d0|] == r;
    var i := IndexOf(d, r);
    assert d[i] == r;
  }

  /** Every discovered row's colour is its position: the colours in use are `0..` the number of linking rows. */
  lemma ColoursNumbered(gen: seq<seq<ExpandedRow>>, ps: seq<Pair>, k: nat)
    requires WellShaped(gen) && k < |Discovered(gen, ps)|
    ensures IdOf(gen, ps, Discovered(gen, ps)[k]) == k
  {
    DiscoveredNoRepeats(gen, ps);
    var d := Discovered(gen, ps);
    var i := IndexOf(d, d[k]);
    assert d[i] == d[k];
  }

  lemma {:induction false} LinksFromMembers(gen: seq<seq<ExpandedRow>>, ps: seq<Pair>, x: nat)
    requires WellShaped(gen)
    ensures LinksFrom(gen, ps, x) <==> exists k :: 0 <= k < |ps| && IsLinkPair(gen, ps[k]) && ps[k].0 == x
  {
    if ps != [] {
      var q := ps[..|ps| - 1];
      LinksFromMembers(gen, q, x);
      if exists k :: 0 <= k < |ps| && IsLinkPair(gen, ps[k]) && ps[k].0 == x {
        var k :| 0 <= k < |ps| && IsLinkPair(gen, ps[k]) && ps[k].0 == x;
        if k < |q| {
          assert q[k] == ps[k];
        }
      }
      if LinksFrom(gen, q, x) {
        var k :| 0 <= k < |q| && IsLinkPair(gen, q[k]) && q[k].0 == x;
        assert ps[k] == q[k];
      }
    }
  }

  lemma {:induction false} LinksToMembers(gen: seq<seq<ExpandedRow>>, ps: seq<Pair>, x: nat)
    requires WellShaped(gen)
    ensures LinksTo(gen, ps, x) <==> exists k :: 0 <= k < |ps| && IsLinkPair(gen, ps[k]) && ps[k].1 == x
  {
    if ps != [] {
      var q := ps[..|ps| - 1];
      LinksToMembers(gen, q, x);
      if exists k :: 0 <= k < |ps| && IsLinkPair(gen, ps[k]) && ps[k].1 == x {
        var k :| 0 <= k < |ps| && IsLinkPair(gen, ps[k]) && ps[k].1 == x;
        if k < |q| {
          assert q[k] == ps[k];
        }
      }
      if LinksTo(gen, q, x) {
        var k :| 0 <= k < |q| && IsLinkPair(gen, q[k]) && q[k].1 == x;
        assert ps[k] == q[k];
      }
    }
  }

  /** A fragment has a bottom colour exactly when it links onto some fragment, and a top colour exactly when some fragment links onto it. */
  lemma TipsIff(gen: seq<seq<ExpandedRow>>, x: nat)
    requires WellShaped(gen) && x < |gen|
    ensures TipsOf(gen, AllPairs(|gen|), x).linkGroupBottom.Some? <==>
      exists j :: 0 <= j < |gen| && LeftoverRow(gen, x) == FirstRow(gen, j)
    ensures TipsOf(gen, AllPairs(|gen|), x).linkGroupTop.Some? <==>
      exists i :: 0 <= i < |gen| && LeftoverRow(gen, i) == FirstRow(gen, x)
  {
    var ps := AllPairs(|gen|);
    LinksFromMembers(gen, ps, x);
    LinksToMembers(gen, ps, x);
    if exists j :: 0 <= j < |gen| && LeftoverRow(gen, x) == FirstRow(gen, j) {
      var j :| 0 <= j < |gen| && LeftoverRow(gen, x) == FirstRow(gen, j);
      AllPairsMembers(|gen|, (x, j));
      var k :| 0 <= k < |ps| && ps[k] == (x, j);
    }
    if exists i :: 0 <= i < |gen| && LeftoverRow(gen, i) == FirstRow(gen, x) {
      var i :| 0 <= i < |gen| && LeftoverRow(gen, i) == FirstRow(gen, x);
      AllPairsMembers(|gen|, (i, x));
      var k :| 0 <= k < |ps| && ps[k] == (i, x);
    }
  }

  /**
   * The tips agree with the links: the bottom of a link's source and the top
   * of its target carry that link's colour (all links at one tip share a
   * linking row, so whichever link was set last gives the same colour).
   */
  lemma TipsAgree(gen: seq<seq<ExpandedRow>>, links: seq<FragLink>, tips: seq<FragLinkGroups>, k: nat)
    requires WellShaped(gen) && k < |links|
    requires Map(links, Ends) == Filter(AllPairs(|gen|), IsLink(gen))
    requires links[k].from < |gen| && links[k].group == IdOf(gen, AllPairs(|gen|), LeftoverRow(gen, links[k].from))
    requires |tips| == |gen| && forall x :: 0 <= x < |gen| ==> tips[x] == TipsOf(gen, AllPairs(|gen|), x)
    ensures links[k].to < |gen|
    ensures tips[links[k].from].linkGroupBottom == Some(links[k].group)
    ensures tips[links[k].to].linkGroupTop == Some(links[k].group)
  {
    var ps := AllPairs(|gen|);
    var p := Ends(links[k]);
    assert p == Map(links, Ends)[k];
    assert p in Filter(ps, IsLink(gen));
    FilterMembers(ps, IsLink(gen), p);
    var j :| 0 <= j < |ps| && ps[j] == p;
    LinksFromMembers(gen, ps, p.0);
    LinksToMembers(gen, ps, p.1);
  }
}
