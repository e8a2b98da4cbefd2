/** Removal of overlay particles by Monte Carlo truth: a reconstructed particle is kept when the
    first truth particle it is linked to descends from a Higgs boson. */
module OverlayRemoverTruth {
  import opened Wrappers
  import opened McParticles
  import DecayTree

  /** The identity of a reconstructed particle (PFO) of the event. */
  type PfoId = nat

  /** The reconstructed-to-truth links: for each PFO the truth particles it is related to, in
      the order the relation navigator gives them. A PFO without an entry has no relation. */
  type Navigator = map<PfoId, seq<nat>>

  function RelatedTo(nav: Navigator, rp: PfoId): seq<nat>
  {
    if rp in nav then nav[rp] else []
  }

  /** Every link points at a particle of the truth record. */
  predicate NavigatorInArena(a: Arena, nav: Navigator)
  {
    forall rp | rp in nav :: InArena(a, nav[rp])
  }

  /** The links are either missing or point into the record. */
  predicate LinksInArena(a: Arena, links: Option<Navigator>)
  {
    links.Some? ==> NavigatorInArena(a, links.value)
  }

  // ---------------------------------------------------------------------------
  // Ancestry

  /** Some proper ancestor of i carries the code 25 exactly (an anti-particle code does not
      count); the code of i itself plays no part. */
  predicate HasHiggsAncestor(a: Arena, i: nat)
    requires ValidArena(a) && i < |a|
    decreases i
  {
    var ps := Parents(a, i);
    exists k | 0 <= k < |ps| :: a[ps[k]].pdg == DecayTree.HiggsPdg || HasHiggsAncestor(a, ps[k])
  }

  /** Some particle of the work list is a Higgs or has a Higgs ancestor. */
  predicate AnyHiggsFrom(a: Arena, s: seq<nat>)
    requires ValidArena(a) && InArena(a, s)
  {
    exists k | 0 <= k < |s| :: a[s[k]].pdg == DecayTree.HiggsPdg || HasHiggsAncestor(a, s[k])
  }

  lemma AnyHiggsFromAppend(a: Arena, s: seq<nat>, t: seq<nat>)
    requires ValidArena(a) && InArena(a, s) && InArena(a, t)
    ensures InArena(a, s + t)
    ensures AnyHiggsFrom(a, s + t) == (AnyHiggsFrom(a, s) || AnyHiggsFrom(a, t))
  {
    forall k | 0 <= k < |s| ensures (s + t)[k] == s[k] { }
    forall k | 0 <= k < |t| ensures (s + t)[|s| + k] == t[k] { }
    if AnyHiggsFrom(a, s + t) {
      var k :| 0 <= k < |s + t| &&
        (a[(s + t)[k]].pdg == DecayTree.HiggsPdg || HasHiggsAncestor(a, (s + t)[k]));
      if k >= |s| {
        assert t[k - |s|] == (s + t)[k];
      }
    }
  }

  /** j is reached from i by one or more parent links. */
  ghost predicate Ascends(a: Arena, i: nat, j: nat)
    requires ValidArena(a) && i < |a|
    decreases i
  {
    var ps := Parents(a, i);
    exists k | 0 <= k < |ps| :: ps[k] == j || Ascends(a, ps[k], j)
  }

  lemma {:induction false} AscendsBelow(a: Arena, i: nat, j: nat)
    requires ValidArena(a) && i < |a| && Ascends(a, i, j)
    ensures j < i
    decreases i
  {
    var ps := Parents(a, i);
    var k :| 0 <= k < |ps| && (ps[k] == j || Ascends(a, ps[k], j));
    if ps[k] != j {
      AscendsBelow(a, ps[k], j);
    }
  }

  /** The walk's verdict in terms of ancestors: true exactly when some particle above i,
      necessarily with a smaller index, has code 25. */
  lemma {:induction false} HiggsAncestorIffAscends(a: Arena, i: nat)
    requires ValidArena(a) && i < |a|
    ensures HasHiggsAncestor(a, i) <==>
      exists j | 0 <= j < i :: Ascends(a, i, j) && a[j].pdg == DecayTree.HiggsPdg
    decreases i
  {
    var ps := Parents(a, i);
    if HasHiggsAncestor(a, i) {
      var k :| 0 <= k < |ps| && (a[ps[k]].pdg == DecayTree.HiggsPdg || HasHiggsAncestor(a, ps[k]));
      if a[ps[k]].pdg == DecayTree.HiggsPdg {
        assert Ascends(a, i, ps[k]);
      } else {
        HiggsAncestorIffAscends(a, ps[k]);
        var j :| 0 <= j < ps[k] && Ascends(a, ps[k], j) && a[j].pdg == DecayTree.HiggsPdg;
        assert Ascends(a, i, j);
      }
    } else {
      forall j | 0 <= j < i && Ascends(a, i, j) ensures a[j].pdg != DecayTree.HiggsPdg {
        var k :| 0 <= k < |ps| && (ps[k] == j || Ascends(a, ps[k], j));
        if ps[k] != j {
          HiggsAncestorIffAscends(a, ps[k]);
          AscendsBelow(a, ps[k], j);
        }
      }
    }
  }

  /** The verdict for i reads only i's parent links and the particles below index i. */
  lemma {:induction false} AncestryReadsOnlyBelow(a: Arena, b: Arena, i: nat)
    requires ValidArena(a) && ValidArena(b) && i < |a| && i < |b|
    requires a[i].parents == b[i].parents
    requires forall j | 0 <= j < i :: a[j] == b[j]
    ensures HasHiggsAncestor(a, i) == HasHiggsAncestor(b, i)
    decreases i
  {
    var ps := Parents(a, i);
    assert Parents(b, i) == ps;
    forall k | 0 <= k < |ps|
      ensures a[ps[k]].pdg == b[ps[k]].pdg
      ensures HasHiggsAncestor(a, ps[k]) == HasHiggsAncestor(b, ps[k])
    {
      assert a[ps[k]] == b[ps[k]];
      AncestryReadsOnlyBelow(a, b, ps[k]);
    }
  }

  /** Changing the code of the matched particle itself never changes the verdict. */
  lemma AncestryIgnoresOwnCode(a: Arena, i: nat, pdg: int)
    requires ValidArena(a) && i < |a|
    ensures ValidArena(a[i := a[i].(pdg := pdg)])
    ensures HasHiggsAncestor(a[i := a[i].(pdg := pdg)], i) == HasHiggsAncestor(a, i)
  {
    var b := a[i := a[i].(pdg := pdg)];
    forall j | 0 <= j < |b| ensures DaughtersAfter(b, j) && ParentsBefore(b, j) {
      assert DaughtersAfter(a, j) && ParentsBefore(a, j);
      assert b[j].daughters == a[j].daughters && b[j].parents == a[j].parents;
    }
    AncestryReadsOnlyBelow(a, b, i);
  }

  // ---------------------------------------------------------------------------
  // isFromHiggs

  /** The verdict for a PFO: it has a relation, and the first related truth particle has a
      Higgs ancestor. Without the relation collection every PFO is judged not from the Higgs. */
  predicate FromHiggs(a: Arena, links: Option<Navigator>, rp: PfoId)
    requires ValidArena(a) && LinksInArena(a, links)
  {
    match links
    case None => false
    case Some(nav) =>
      var related := RelatedTo(nav, rp);
      |related| > 0 && HasHiggsAncestor(a, related[0])
  }

  /** isFromHiggs over a navigator: no relation gives false; otherwise the parents of the first
      related particle are walked with a stack, without a visited set, until a code 25 is
      popped. */
  method IsFromHiggsVia(a: Arena, rp: PfoId, nav: Navigator) returns (fromHiggs: bool)
    requires ValidArena(a) && NavigatorInArena(a, nav)
    ensures fromHiggs == FromHiggs(a, Some(nav), rp)
  {
    var related := RelatedTo(nav, rp);
    if |related| == 0 {
      // Only a diagnostic about a possibly faulty relation collection.
      return false;
    }
    var mcp := related[0];
    var mcParents := Parents(a, mcp);
    while |mcParents| > 0
      invariant InArena(a, mcParents)
      invariant HasHiggsAncestor(a, related[0]) == AnyHiggsFrom(a, mcParents)
      decreases Total(mcParents, UpPathWeight(a))
    {
      ghost var before := mcParents;
      mcp := mcParents[|mcParents| - 1];
      mcParents := mcParents[..|mcParents| - 1];
      assert before == mcParents + [mcp];
      AnyHiggsFromAppend(a, mcParents, [mcp]);
      if a[mcp].pdg == DecayTree.HiggsPdg {
        return true;
      }
      var ps := Parents(a, mcp);
      UpPathsOfParents(a, mcp);
      TotalAppend(mcParents, ps, UpPathWeight(a));
      AnyHiggsFromAppend(a, mcParents, ps);
      mcParents := mcParents + ps;  // push_back of every parent, in order
    }
    return false;
  }

  /** isFromHiggs over the event: a missing relation collection gives false instead of an
      abort. */
  method IsFromHiggs(a: Arena, rp: PfoId, links: Option<Navigator>) returns (fromHiggs: bool)
    requires ValidArena(a) && LinksInArena(a, links)
    ensures fromHiggs == FromHiggs(a, links, rp)
  {
    if links.None? {
      return false;
    }
    fromHiggs := IsFromHiggsVia(a, rp, links.value);
  }

  // ---------------------------------------------------------------------------
  // processEvent

  /** The PFOs that keep accepts, in their input order. */
  function Kept(pfos: seq<PfoId>, keep: PfoId -> bool): (kept: seq<PfoId>)
    ensures |kept| <= |pfos|
    ensures forall x :: x in kept <==> x in pfos && keep(x)
    ensures multiset(kept) <= multiset(pfos)
  {
    if pfos == [] then []
    else
      var last := pfos[|pfos| - 1];
      assert pfos == pfos[..|pfos| - 1] + [last];
      Kept(pfos[..|pfos| - 1], keep) + (if keep(last) then [last] else [])
  }

  /** Filtering a concatenation filters each part and keeps them in order. */
  lemma {:induction false} KeptAppend(s: seq<PfoId>, t: seq<PfoId>, keep: PfoId -> bool)
    ensures Kept(s + t, keep) == Kept(s, keep) + Kept(t, keep)
    decreases |t|
  {
    if t == [] {
      assert s + t == s;
    } else {
      var front, last := t[..|t| - 1], t[|t| - 1];
      var tail := if keep(last) then [last] else [];
      assert (s + t)[..|s + t| - 1] == s + front;
      assert (s + t)[|s + t| - 1] == last;
      KeptAppend(s, front, keep);
      assert Kept(s + t, keep) == Kept(s, keep) + Kept(front, keep) + tail;
      assert Kept(t, keep) == Kept(front, keep) + tail;
    }
  }

  /** The isFromHiggs verdict as a test on PFOs. */
  function FromHiggsIn(a: Arena, links: Option<Navigator>): PfoId -> bool
  {
    (rp: PfoId) => ValidArena(a) && LinksInArena(a, links) && FromHiggs(a, links, rp)
  }

  /** The PFOs judged to come from the Higgs, in their input order. */
  function HiggsOnly(a: Arena, links: Option<Navigator>, pfos: seq<PfoId>): (kept: seq<PfoId>)
    requires ValidArena(a) && LinksInArena(a, links)
    ensures |kept| <= |pfos|
    ensures forall x :: x in kept <==> x in pfos && FromHiggs(a, links, x)
    ensures multiset(kept) <= multiset(pfos)
  {
    Kept(pfos, FromHiggsIn(a, links))
  }

  /** Filtering a concatenation filters each part and keeps them in order. */
  lemma HiggsOnlyAppend(a: Arena, links: Option<Navigator>, s: seq<PfoId>, t: seq<PfoId>)
    requires ValidArena(a) && LinksInArena(a, links)
    ensures HiggsOnly(a, links, s + t) == HiggsOnly(a, links, s) + HiggsOnly(a, links, t)
  {
    KeptAppend(s, t, FromHiggsIn(a, links));
  }

  lemma HiggsOnlyStep(a: Arena, links: Option<Navigator>, pfos: seq<PfoId>, e: nat)
    requires ValidArena(a) && LinksInArena(a, links) && e < |pfos|
    ensures HiggsOnly(a, links, pfos[..e + 1]) ==
      HiggsOnly(a, links, pfos[..e]) + (if FromHiggs(a, links, pfos[e]) then [pfos[e]] else [])
  {
    assert pfos[..e + 1][..e] == pfos[..e];
    assert FromHiggsIn(a, links)(pfos[e]) == FromHiggs(a, links, pfos[e]);
  }

  /** What processEvent does to the event. */
  datatype Outcome =
    | Stopped                          // the PFO collection is missing: processing stops
    | Added(higgsOnly: seq<PfoId>)     // the subset collection added to the event

  /** The filtering loop of processEvent: each PFO that passes isFromHiggs is appended. */
  method CollectFromHiggs(a: Arena, fullCollection: seq<PfoId>, links: Option<Navigator>)
    returns (notOverlayParticles: seq<PfoId>)
    requires ValidArena(a) && LinksInArena(a, links)
    ensures notOverlayParticles == HiggsOnly(a, links, fullCollection)
  {
    notOverlayParticles := [];
    var e := 0;
    while e < |fullCollection|
      invariant 0 <= e <= |fullCollection|
      invariant notOverlayParticles == HiggsOnly(a, links, fullCollection[..e])
    {
      var pfo := fullCollection[e];
      HiggsOnlyStep(a, links, fullCollection, e);
      var fromHiggs := IsFromHiggs(a, pfo, links);
      if fromHiggs {
        notOverlayParticles := notOverlayParticles + [pfo];
      }
      e := e + 1;
    }
    assert fullCollection[..e] == fullCollection;
  }

  /** processEvent: a missing PFO collection stops processing and adds nothing; otherwise the
      PFOs that pass isFromHiggs are gathered in order and copied into the new collection. */
  method ProcessEvent(a: Arena, pfos: Option<seq<PfoId>>, links: Option<Navigator>) returns (outcome: Outcome)
    requires ValidArena(a) && LinksInArena(a, links)
    ensures pfos.None? <==> outcome == Stopped
    ensures pfos.Some? ==> outcome == Added(HiggsOnly(a, links, pfos.value))
  {
    if pfos.None? {
      return Stopped;
    }
    var notOverlayParticles := CollectFromHiggs(a, pfos.value, links);
    var notOverlayVec: seq<PfoId> := [];
    var j := 0;
    while j < |notOverlayParticles|
      invariant 0 <= j <= |notOverlayParticles|
      invariant notOverlayVec == notOverlayParticles[..j]
    {
      notOverlayVec := notOverlayVec + [notOverlayParticles[j]];
      j := j + 1;
    }
    assert notOverlayVec == notOverlayParticles[..j];
    return Added(notOverlayVec);
  }
}
