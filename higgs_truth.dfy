/** Truth classification of a Higgs boson decay: the decay mode from the two direct remnants,
    whether the decay is invisible, and how many true jets it produces. */
module DecayTree {
  import opened Wrappers
  import opened McParticles

  const HiggsPdg := 25
  /** The decay-mode sentinel for H -> Z gamma. */
  const ZGammaDecayMode := 20

  // ---------------------------------------------------------------------------
  // Decay mode

  /** Exactly two remnants, with equal absolute codes. */
  predicate IsHiggsToSameParticlePair(a: Arena, remnants: seq<nat>)
    requires InArena(a, remnants)
  {
    |remnants| == 2 && Abs(a[remnants[0]].pdg) == Abs(a[remnants[1]].pdg)
  }

  /** Exactly two remnants, a photon (22) and a Z (23) in either order, signs ignored. */
  predicate IsHiggsToZGamma(a: Arena, r: seq<nat>)
    requires InArena(a, r)
  {
    && |r| == 2
    && ((Abs(a[r[0]].pdg) == 22 && Abs(a[r[1]].pdg) == 23) ||
        (Abs(a[r[0]].pdg) == 23 && Abs(a[r[1]].pdg) == 22))
  }

  /** The two codes are, as a set, a photon's and a Z's. */
  predicate AreZAndPhoton(x: nat, y: nat)
  {
    {x, y} == {22, 23}
  }

  /** The Z-photon test is a test on the set of the two absolute codes. */
  lemma ZGammaIsCodeSet(a: Arena, r: seq<nat>)
    requires InArena(a, r)
    ensures IsHiggsToZGamma(a, r) <==> |r| == 2 && AreZAndPhoton(Abs(a[r[0]].pdg), Abs(a[r[1]].pdg))
  {
    if |r| == 2 {
      var x, y := Abs(a[r[0]].pdg), Abs(a[r[1]].pdg);
      if {x, y} == {22, 23} {
        assert x in {22, 23} && y in {22, 23};
        assert 22 in {x, y} && 23 in {x, y};
      }
      if IsHiggsToZGamma(a, r) {
        assert {x, y} == {22, 23};
      }
    }
  }

  /** The decay mode the remnants determine, if any: the common absolute code of a
      same-particle pair (checked first), else 20 for a Z and a photon. */
  function DecayModeOf(a: Arena, remnants: seq<nat>): (mode: Option<int>)
    requires InArena(a, remnants)
    ensures mode.Some? <==>
      |remnants| == 2 &&
      (Abs(a[remnants[0]].pdg) == Abs(a[remnants[1]].pdg) ||
       AreZAndPhoton(Abs(a[remnants[0]].pdg), Abs(a[remnants[1]].pdg)))
    ensures mode.Some? && Abs(a[remnants[0]].pdg) == Abs(a[remnants[1]].pdg) ==>
      mode.value == Abs(a[remnants[0]].pdg)
    ensures mode.Some? && Abs(a[remnants[0]].pdg) != Abs(a[remnants[1]].pdg) ==>
      mode.value == ZGammaDecayMode
  {
    ZGammaIsCodeSet(a, remnants);
    if IsHiggsToSameParticlePair(a, remnants) then Some(Abs(a[remnants[0]].pdg))
    else if IsHiggsToZGamma(a, remnants) then Some(ZGammaDecayMode)
    else None
  }

  // ---------------------------------------------------------------------------
  // Invisible decays

  predicate IsNeutrino(pdg: int)
  {
    Abs(pdg) == 12 || Abs(pdg) == 14 || Abs(pdg) == 16
  }

  /** Every stable particle reached from i, descending only through particles that are not
      stable, is a neutrino. A stable particle is not looked into; a particle that is neither
      stable nor has daughters reaches nothing. */
  predicate InvisibleFrom(a: Arena, i: nat)
    requires ValidArena(a) && i < |a|
    decreases |a| - i
  {
    if a[i].generatorStatus == 1 then IsNeutrino(a[i].pdg)
    else
      var ds := Daughters(a, i);
      forall k | 0 <= k < |ds| :: InvisibleFrom(a, ds[k])
  }

  predicate AllInvisible(a: Arena, s: seq<nat>)
    requires ValidArena(a) && InArena(a, s)
  {
    forall k | 0 <= k < |s| :: InvisibleFrom(a, s[k])
  }

  predicate AllNeutrinos(a: Arena, s: seq<nat>)
    requires InArena(a, s)
  {
    forall k | 0 <= k < |s| :: IsNeutrino(a[s[k]].pdg)
  }

  lemma AllInvisibleAppend(a: Arena, s: seq<nat>, t: seq<nat>)
    requires ValidArena(a) && InArena(a, s) && InArena(a, t)
    ensures InArena(a, s + t)
    ensures AllInvisible(a, s + t) == (AllInvisible(a, s) && AllInvisible(a, t))
    ensures AllNeutrinos(a, s + t) == (AllNeutrinos(a, s) && AllNeutrinos(a, t))
  {
    forall k | 0 <= k < |s| ensures (s + t)[k] == s[k] { }
    forall k | 0 <= k < |t| ensures (s + t)[|s| + k] == t[k] { }
  }

  /** j is one of the stable particles the walk records when it starts from i. */
  ghost predicate RecordsStable(a: Arena, i: nat, j: nat)
    requires ValidArena(a) && i < |a|
    decreases |a| - i
  {
    if a[i].generatorStatus == 1 then j == i
    else
      var ds := Daughters(a, i);
      exists k | 0 <= k < |ds| :: RecordsStable(a, ds[k], j)
  }

  /** The decay below i is invisible exactly when every stable particle the walk records
      from i is a neutrino; with no stable particle recorded it is invisible. */
  lemma {:induction false} InvisibleIffRecordedNeutrinos(a: Arena, i: nat)
    requires ValidArena(a) && i < |a|
    ensures InvisibleFrom(a, i) <==>
      forall j: nat | RecordsStable(a, i, j) :: j < |a| && IsNeutrino(a[j].pdg)
    decreases |a| - i
  {
    if a[i].generatorStatus != 1 {
      var ds := Daughters(a, i);
      forall k | 0 <= k < |ds| {
        InvisibleIffRecordedNeutrinos(a, ds[k]);
      }
      if InvisibleFrom(a, i) {
        forall j: nat | RecordsStable(a, i, j) ensures j < |a| && IsNeutrino(a[j].pdg) {
          var k :| 0 <= k < |ds| && RecordsStable(a, ds[k], j);
          assert InvisibleFrom(a, ds[k]);
        }
      } else {
        var k :| 0 <= k < |ds| && !InvisibleFrom(a, ds[k]);
        var j: nat :| RecordsStable(a, ds[k], j) && !(j < |a| && IsNeutrino(a[j].pdg));
        assert RecordsStable(a, i, j);
      }
    }
  }

  /** decaysInvisible: a stack walk from the remnants that records the stable particles it
      reaches and expands every other one, then a scan of the records for a visible one. */
  method DecaysInvisible(a: Arena, remnants: seq<nat>) returns (decaysInvisible: bool)
    requires ValidArena(a) && InArena(a, remnants)
    ensures decaysInvisible == AllInvisible(a, remnants)
  {
    var work := remnants;
    var stableHiggsRemnants: seq<nat> := [];
    while work != []
      invariant InArena(a, work) && InArena(a, stableHiggsRemnants)
      invariant AllInvisible(a, remnants) ==
        (AllNeutrinos(a, stableHiggsRemnants) && AllInvisible(a, work))
      decreases Total(work, PathWeight(a))
    {
      ghost var before := work;
      var decayProduct := work[|work| - 1];
      work := work[..|work| - 1];
      assert before == work + [decayProduct];
      AllInvisibleAppend(a, work, [decayProduct]);
      if a[decayProduct].generatorStatus == 1 {
        AllInvisibleAppend(a, stableHiggsRemnants, [decayProduct]);
        stableHiggsRemnants := stableHiggsRemnants + [decayProduct];
      } else {
        var ds := Daughters(a, decayProduct);
        PathsOfDaughters(a, decayProduct);
        TotalAppend(work, ds, PathWeight(a));
        AllInvisibleAppend(a, work, ds);
        work := work + ds;  // push_back of every daughter, in order
      }
    }
    decaysInvisible := true;
    var k := 0;
    while k < |stableHiggsRemnants|
      invariant 0 <= k <= |stableHiggsRemnants|
      invariant AllNeutrinos(a, stableHiggsRemnants[..k])
    {
      var absPdg := Abs(a[stableHiggsRemnants[k]].pdg);
      var isVisible := absPdg != 12 && absPdg != 14 && absPdg != 16;
      if isVisible {
        decaysInvisible := false;
        break;
      }
      k := k + 1;
    }
    assert stableHiggsRemnants[..|stableHiggsRemnants|] == stableHiggsRemnants;
  }

  // ---------------------------------------------------------------------------
  // Leptonic tau decays

  /** The position of the first element of s that satisfies P. */
  function FirstWhere(s: seq<nat>, P: nat -> bool): (pos: Option<nat>)
    ensures pos.Some? ==> pos.value < |s| && P(s[pos.value])
    ensures forall k | 0 <= k < |s| && (pos.None? || k < pos.value) :: !P(s[k])
  {
    if s == [] then None
    else if P(s[0]) then Some(0)
    else match FirstWhere(s[1..], P)
      case None => None
      case Some(k) => Some(k + 1)
  }

  /** Particles carrying exactly the (signed) code pdg. */
  function HasPdgIn(a: Arena, pdg: int): nat -> bool
  {
    (g: nat) => g < |a| && a[g].pdg == pdg
  }

  /** Particles whose absolute code is not a neutrino's: the daughters that decide a tau. */
  function DecisiveIn(a: Arena): nat -> bool
  {
    (d: nat) => d < |a| && !IsNeutrino(a[d].pdg)
  }

  /** isLeptonicTauDecay: the tau's daughters are scanned in order and the first one that is
      not a neutrino decides. */
  function IsLeptonicTauDecay(a: Arena, tau: nat): bool
    requires ValidArena(a) && tau < |a|
    decreases |a| - tau, 2, 0
  {
    LeptonicFrom(a, tau, 0)
  }

  /** The verdict of the scan of the tau's daughters from position k on; no decisive daughter
      gives false. */
  function LeptonicFrom(a: Arena, tau: nat, k: nat): bool
    requires ValidArena(a) && tau < |a| && k <= |a[tau].daughters|
    decreases |a| - tau, 1, |a[tau].daughters| - k
  {
    var ds := Daughters(a, tau);
    if k == |ds| then false
    else match DaughterVerdict(a, tau, ds[k])
      case None => LeptonicFrom(a, tau, k + 1)
      case Some(leptonic) => leptonic
  }

  /** What the tau daughter d says: None to go on with the next daughter, or the verdict.
      An electron or muon says yes; a tau or W is looked into; the hadronization marker 94 is
      looked through to its first daughter with the tau's own signed code (no such daughter
      says no); any other code says no. */
  function DaughterVerdict(a: Arena, tau: nat, d: nat): (verdict: Option<bool>)
    requires ValidArena(a) && tau < d < |a|
    ensures verdict.None? <==> IsNeutrino(a[d].pdg)
    decreases |a| - tau, 0, 0
  {
    var code := Abs(a[d].pdg);
    if code == 11 || code == 13 then Some(true)
    else if code == 12 || code == 14 then None
    else if code == 15 || code == 24 then Some(IsLeptonicTauDecay(a, d))
    else if code == 16 then None
    else if code == 94 then
      var mixed := Daughters(a, d);
      match FirstWhere(mixed, HasPdgIn(a, a[tau].pdg))
      case Some(j) => Some(IsLeptonicTauDecay(a, mixed[j]))
      case None => Some(false)
    else Some(false)
  }

  /** Neutrino daughters are skipped without effect on the verdict. */
  lemma {:induction false} LeptonicSkipsNeutrinos(a: Arena, tau: nat, k: nat, m: nat)
    requires ValidArena(a) && tau < |a| && k <= m <= |a[tau].daughters|
    requires forall j | k <= j < m :: IsNeutrino(a[Daughters(a, tau)[j]].pdg)
    ensures LeptonicFrom(a, tau, k) == LeptonicFrom(a, tau, m)
    decreases m - k
  {
    if k < m {
      LeptonicSkipsNeutrinos(a, tau, k + 1, m);
    }
  }

  /** A tau is decided by its first daughter that is not a neutrino, and by nothing after it;
      with no such daughter it is not leptonic. */
  lemma TauDecidedByFirstDecisiveDaughter(a: Arena, tau: nat)
    requires ValidArena(a) && tau < |a|
    ensures var ds := Daughters(a, tau);
      match FirstWhere(ds, DecisiveIn(a))
      case None => !IsLeptonicTauDecay(a, tau)
      case Some(k) => DaughterVerdict(a, tau, ds[k]) == Some(IsLeptonicTauDecay(a, tau))
  {
    var ds := Daughters(a, tau);
    match FirstWhere(ds, DecisiveIn(a))
    case None =>
      LeptonicSkipsNeutrinos(a, tau, 0, |ds|);
    case Some(k) =>
      LeptonicSkipsNeutrinos(a, tau, 0, k);
  }

  predicate IsLightChargedLepton(pdg: int)
  {
    Abs(pdg) == 11 || Abs(pdg) == 13
  }

  /** j lies below i along daughter links. */
  ghost predicate Descends(a: Arena, i: nat, j: nat)
    requires ValidArena(a) && i < |a|
    decreases |a| - i
  {
    var ds := Daughters(a, i);
    exists k | 0 <= k < |ds| :: ds[k] == j || Descends(a, ds[k], j)
  }

  ghost predicate HasLightLeptonBelow(a: Arena, i: nat)
    requires ValidArena(a) && i < |a|
  {
    exists j | i < j < |a| :: Descends(a, i, j) && IsLightChargedLepton(a[j].pdg)
  }

  /** A tau is only called leptonic when an electron or a muon really lies below it. */
  lemma LeptonicTauHasLightLeptonBelow(a: Arena, tau: nat)
    requires ValidArena(a) && tau < |a| && IsLeptonicTauDecay(a, tau)
    ensures HasLightLeptonBelow(a, tau)
    decreases |a| - tau, 2, 0
  {
    LeptonicFromHasLightLeptonBelow(a, tau, 0);
  }

  lemma LeptonicFromHasLightLeptonBelow(a: Arena, tau: nat, k: nat)
    requires ValidArena(a) && tau < |a| && k <= |a[tau].daughters| && LeptonicFrom(a, tau, k)
    ensures HasLightLeptonBelow(a, tau)
    decreases |a| - tau, 1, |a[tau].daughters| - k
  {
    var ds := Daughters(a, tau);
    var d := ds[k];
    if DaughterVerdict(a, tau, d).None? {
      LeptonicFromHasLightLeptonBelow(a, tau, k + 1);
    } else {
      VerdictHasLightLepton(a, tau, d);
      if IsLightChargedLepton(a[d].pdg) {
        assert Descends(a, tau, d);
      } else {
        var j :| d < j < |a| && Descends(a, d, j) && IsLightChargedLepton(a[j].pdg);
        assert Descends(a, tau, j);
      }
    }
  }

  lemma VerdictHasLightLepton(a: Arena, tau: nat, d: nat)
    requires ValidArena(a) && tau < d < |a| && DaughterVerdict(a, tau, d) == Some(true)
    ensures IsLightChargedLepton(a[d].pdg) || HasLightLeptonBelow(a, d)
    decreases |a| - tau, 0, 0
  {
    var code := Abs(a[d].pdg);
    if code == 15 || code == 24 {
      LeptonicTauHasLightLeptonBelow(a, d);
    } else if code == 94 {
      var mixed := Daughters(a, d);
      var j :| FirstWhere(mixed, HasPdgIn(a, a[tau].pdg)) == Some(j);
      var g := mixed[j];
      LeptonicTauHasLightLeptonBelow(a, g);
      var l :| g < l < |a| && Descends(a, g, l) && IsLightChargedLepton(a[l].pdg);
      assert Descends(a, d, l);
    }
  }

  // ---------------------------------------------------------------------------
  // True jets

  /** isIn: a linear search for candidate. */
  function IsIn(integers: seq<int>, candidate: int): (found: bool)
    ensures found <==> candidate in integers
  {
    if integers == [] then false
    else integers[0] == candidate || IsIn(integers[1..], candidate)
  }

  /** Quarks and the gluon form a jet. */
  const JetFormingPdgs: seq<int> := [1, 2, 3, 4, 5, 6, 21]
  /** Neutrinos, isolated photons and charged leptons form none. */
  const NoJetPdgs: seq<int> := [11, 13, 12, 14, 16, 22]

  /** How the jet walk treats a particle it pops, by absolute code. */
  datatype Role = JetForming | NoJet | Tau | Intermediate

  function RoleOf(absPdg: int): (role: Role)
    ensures role == JetForming <==> absPdg in {1, 2, 3, 4, 5, 6, 21}
    ensures role == NoJet <==> absPdg in {11, 12, 13, 14, 16, 22}
    ensures role == Tau <==> absPdg == 15
  {
    if IsIn(JetFormingPdgs, absPdg) then JetForming
    else if IsIn(NoJetPdgs, absPdg) then NoJet
    else if absPdg == 15 then Tau
    else Intermediate
  }

  /** The jets a popped particle adds by itself: one for a quark or gluon, one for a tau that
      does not decay leptonically, none otherwise. */
  function OwnJets(a: Arena, p: nat): nat
    requires ValidArena(a) && p < |a|
  {
    match RoleOf(Abs(a[p].pdg))
    case JetForming => 1
    case Tau => if IsLeptonicTauDecay(a, p) then 0 else 1
    case _ => 0
  }

  function OwnJetWeight(a: Arena): nat -> nat
  {
    (p: nat) => if ValidArena(a) && p < |a| then OwnJets(a, p) else 0
  }

  /** Pushes, in order, each of ds that is not on the work list at the moment it is reached. */
  function PushAbsent(work: seq<nat>, ds: seq<nat>): (r: seq<nat>)
    ensures |work| <= |r| && r[..|work|] == work
    ensures forall x | x in work :: x in r
    ensures forall x | x in r :: x in work || x in ds
    ensures forall x | x in ds :: x in r
    decreases |ds|
  {
    if ds == [] then work
    else PushAbsent(if ds[0] in work then work else work + [ds[0]], ds[1..])
  }

  /** The daughters are handled one after another, in their order: pushing ds1 + ds2 is pushing
      ds1 and then ds2 onto the result. */
  lemma {:induction false} PushAbsentAppend(work: seq<nat>, ds1: seq<nat>, ds2: seq<nat>)
    ensures PushAbsent(work, ds1 + ds2) == PushAbsent(PushAbsent(work, ds1), ds2)
    decreases |ds1|
  {
    if ds1 == [] {
      assert ds1 + ds2 == ds2;
    } else {
      var next := if ds1[0] in work then work else work + [ds1[0]];
      assert (ds1 + ds2)[0] == ds1[0];
      assert (ds1 + ds2)[1..] == ds1[1..] + ds2;
      PushAbsentAppend(next, ds1[1..], ds2);
    }
  }

  /** Every entry pushed is a daughter that is neither on the work list nor pushed before it:
      a daughter already listed is not pushed again. */
  lemma {:induction false} PushAbsentAddsOnlyAbsent(work: seq<nat>, ds: seq<nat>)
    ensures forall k | |work| <= k < |PushAbsent(work, ds)| ::
      PushAbsent(work, ds)[k] in ds && PushAbsent(work, ds)[k] !in PushAbsent(work, ds)[..k]
    decreases |ds|
  {
    if ds != [] {
      var next := if ds[0] in work then work else work + [ds[0]];
      PushAbsentAddsOnlyAbsent(next, ds[1..]);
      var r := PushAbsent(next, ds[1..]);
      assert PushAbsent(work, ds) == r;
      assert ds == [ds[0]] + ds[1..];
      forall k | |work| <= k < |r| ensures r[k] in ds && r[k] !in r[..k] {
        if k >= |next| {
          assert r[k] in ds[1..];
        } else {
          assert k == |work| && next == work + [ds[0]] && ds[0] !in work;
          assert r[k] == r[..|next|][k] == ds[0];
          assert r[..k] == r[..|next|][..k] == work;
        }
      }
    }
  }

  lemma InArenaPushAbsent(a: Arena, work: seq<nat>, ds: seq<nat>)
    requires InArena(a, work) && InArena(a, ds)
    ensures InArena(a, PushAbsent(work, ds))
  {
    InArenaMembers(a, work);
    InArenaMembers(a, ds);
    InArenaMembers(a, PushAbsent(work, ds));
  }

  /** Pushing absent daughters keeps what the list weighed and adds at most what the daughters weigh. */
  lemma {:induction false} TotalPushAbsent(work: seq<nat>, ds: seq<nat>, w: nat -> nat)
    ensures Total(work, w) <= Total(PushAbsent(work, ds), w) <= Total(work, w) + Total(ds, w)
    decreases |ds|
  {
    if ds != [] {
      var d, tail := ds[0], ds[1..];
      var next := if d in work then work else work + [d];
      assert PushAbsent(work, ds) == PushAbsent(next, tail);
      TotalPushAbsent(next, tail, w);
      assert ds == [d] + tail;
      TotalAppend([d], tail, w);
      assert [d][..0] == [];
      assert Total([d], w) == w(d);
      if d !in work {
        TotalAppend(work, [d], w);
      }
    }
  }

  /** The jet count of the walk getNTrueJets runs on a work list, popping from its back. */
  function TrueJets(a: Arena, work: seq<nat>): nat
    requires ValidArena(a) && InArena(a, work)
    decreases Total(work, PathWeight(a))
  {
    if work == [] then 0
    else
      var p := work[|work| - 1];
      var rest := work[..|work| - 1];
      if RoleOf(Abs(a[p].pdg)) == Intermediate then
        var ds := Daughters(a, p);
        PathsOfDaughters(a, p);
        TotalPushAbsent(rest, ds, PathWeight(a));
        InArenaPushAbsent(a, rest, ds);
        TrueJets(a, PushAbsent(rest, ds))
      else
        OwnJets(a, p) + TrueJets(a, rest)
  }

  /** getNTrueJets: pops a particle, counts it if it is a quark, gluon or hadronic tau, stops
      at leptons and photons, and otherwise pushes those daughters not on the work list yet. */
  method GetNTrueJets(a: Arena, remnants: seq<nat>) returns (nTrueJets: int)
    requires ValidArena(a) && InArena(a, remnants)
    ensures nTrueJets == TrueJets(a, remnants)
  {
    nTrueJets := 0;
    var work := remnants;
    while work != []
      invariant InArena(a, work)
      invariant nTrueJets + TrueJets(a, work) == TrueJets(a, remnants)
      decreases Total(work, PathWeight(a))
    {
      ghost var before := work;
      var decayProduct := work[|work| - 1];
      work := work[..|work| - 1];
      assert work + [decayProduct] == before;
      TrueJetsPop(a, work, decayProduct);
      var pdg := Abs(a[decayProduct].pdg);
      if IsIn(JetFormingPdgs, pdg) {
        nTrueJets := nTrueJets + 1;
      } else if IsIn(NoJetPdgs, pdg) {
      } else if pdg == 15 {
        var leptonic := IsLeptonicTauDecay(a, decayProduct);
        if !leptonic {
          nTrueJets := nTrueJets + 1;
        }
      } else {
        // A stable particle without daughters only draws a diagnostic here.
        var ds := Daughters(a, decayProduct);
        ghost var rest := work;
        PathsOfDaughters(a, decayProduct);
        TotalPushAbsent(rest, ds, PathWeight(a));
        InArenaPushAbsent(a, rest, ds);
        var j := 0;
        while j < |ds|
          invariant 0 <= j <= |ds|
          invariant PushAbsent(work, ds[j..]) == PushAbsent(rest, ds)
        {
          assert ds[j..][1..] == ds[j + 1..];
          if ds[j] !in work {
            work := work + [ds[j]];
          }
          j := j + 1;
        }
      }
    }
  }

  /** The jets below i when every particle is counted once per path that reaches it. */
  function TreeJets(a: Arena, i: nat): nat
    requires ValidArena(a) && i < |a|
    decreases |a| - i
  {
    if RoleOf(Abs(a[i].pdg)) == Intermediate then
      Total(Daughters(a, i), (d: nat) => if i < d < |a| then TreeJets(a, d) else 0)
    else OwnJets(a, i)
  }

  function TreeJetWeight(a: Arena): nat -> nat
  {
    (i: nat) => if ValidArena(a) && i < |a| then TreeJets(a, i) else 0
  }

  /** The walk counts at least the jets its listed particles form by themselves, and at most
      the jets of the decay tree below them counted once per path: de-duplicating against the
      current work list can only merge paths. */
  lemma {:induction false} TrueJetsBounds(a: Arena, work: seq<nat>)
    requires ValidArena(a) && InArena(a, work)
    ensures Total(work, OwnJetWeight(a)) <= TrueJets(a, work) <= Total(work, TreeJetWeight(a))
    decreases Total(work, PathWeight(a))
  {
    if work != [] {
      var p := work[|work| - 1];
      var rest := work[..|work| - 1];
      if RoleOf(Abs(a[p].pdg)) == Intermediate {
        var ds := Daughters(a, p);
        var pushed := PushAbsent(rest, ds);
        PathsOfDaughters(a, p);
        TotalPushAbsent(rest, ds, PathWeight(a));
        InArenaPushAbsent(a, rest, ds);
        assert TrueJets(a, work) == TrueJets(a, pushed);
        TrueJetsBounds(a, pushed);
        TotalPushAbsent(rest, ds, OwnJetWeight(a));
        TotalPushAbsent(rest, ds, TreeJetWeight(a));
        TreeJetsOfIntermediate(a, p);
        assert OwnJetWeight(a)(p) == 0;
      } else {
        TrueJetsBounds(a, rest);
        assert TreeJetWeight(a)(p) == OwnJetWeight(a)(p);
      }
    }
  }

  /** An intermediate particle carries the tree jets of its daughters. */
  lemma TreeJetsOfIntermediate(a: Arena, p: nat)
    requires ValidArena(a) && p < |a| && RoleOf(Abs(a[p].pdg)) == Intermediate
    ensures TreeJetWeight(a)(p) == Total(Daughters(a, p), TreeJetWeight(a))
  {
    TotalPointwise(Daughters(a, p), (d: nat) => if p < d < |a| then TreeJets(a, d) else 0, TreeJetWeight(a));
  }

  /** When no listed particle needs expanding, the walk counts exactly the jets the listed
      particles form: e.g. a b and an anti-b quark give two. */
  lemma TrueJetsOfTerminals(a: Arena, work: seq<nat>)
    requires ValidArena(a) && InArena(a, work)
    requires forall x | x in work :: RoleOf(Abs(a[x].pdg)) != Intermediate
    ensures TrueJets(a, work) == Total(work, OwnJetWeight(a))
  {
    TrueJetsBounds(a, work);
    TotalPointwise(work, TreeJetWeight(a), OwnJetWeight(a));
  }

  /** Two intermediate particles (indices 0 and 1) decaying to one shared quark or gluon (index 2). */
  predicate SharesOneGluon(a: Arena)
  {
    |a| == 3 && ValidArena(a)
    && RoleOf(Abs(a[0].pdg)) == Intermediate && RoleOf(Abs(a[1].pdg)) == Intermediate
    && RoleOf(Abs(a[2].pdg)) == JetForming
    && a[0].daughters == [2] && a[1].daughters == [2]
  }

  /** Such a record exists: two Z bosons sharing one gluon. */
  lemma SharedGluonExists()
    ensures SharesOneGluon([Particle(23, 2, [2], []), Particle(23, 2, [2], []), Particle(21, 1, [], [0, 1])])
  {
    var a := [Particle(23, 2, [2], []), Particle(23, 2, [2], []), Particle(21, 1, [], [0, 1])];
    assert DaughtersAfter(a, 0) && ParentsBefore(a, 0);
    assert DaughtersAfter(a, 1) && ParentsBefore(a, 1);
    assert DaughtersAfter(a, 2) && ParentsBefore(a, 2);
  }

  /** One step of the jet walk, read off its last entry. */
  lemma TrueJetsPop(a: Arena, rest: seq<nat>, p: nat)
    requires ValidArena(a) && InArena(a, rest) && p < |a|
    ensures InArena(a, rest + [p]) && InArena(a, PushAbsent(rest, Daughters(a, p)))
    ensures TrueJets(a, rest + [p]) ==
      if RoleOf(Abs(a[p].pdg)) == Intermediate then TrueJets(a, PushAbsent(rest, Daughters(a, p)))
      else OwnJets(a, p) + TrueJets(a, rest)
  {
    var work := rest + [p];
    assert work[..|work| - 1] == rest;
    InArenaPushAbsent(a, rest, Daughters(a, p));
  }

  lemma SharedGluonFirstZ(a: Arena)
    requires SharesOneGluon(a)
    ensures TrueJets(a, [0]) == 1
  {
    TrueJetsPop(a, [], 2);
    assert [] + [2] == [2];
    assert Daughters(a, 0) == [2];
    PushOneAbsent([], 2);
    TrueJetsPop(a, [], 0);
    assert [] + [0] == [0];
  }

  lemma SharedGluonBelowFirstZ(a: Arena)
    requires SharesOneGluon(a)
    ensures TrueJets(a, [0, 2]) == 2
  {
    SharedGluonFirstZ(a);
    assert OwnJets(a, 2) == 1;
    TrueJetsPop(a, [0], 2);
    assert [0] + [2] == [0, 2];
  }

  /** De-duplication looks only at the current work list: the particle shared by the two
      intermediates is popped, counted and dropped before the second intermediate pushes it
      again, so one gluon gives two jets. */
  lemma SharedGluonCountedTwice(a: Arena)
    requires SharesOneGluon(a)
    ensures TrueJets(a, [0, 1]) == 2
  {
    SharedGluonBelowFirstZ(a);
    assert Daughters(a, 1) == [2];
    PushOneAbsent([0], 2);
    TrueJetsPop(a, [0], 1);
    assert [0] + [1] == [0, 1];
  }

  /** A Z whose daughters are a gluon and then a second Z, which has the same gluon as its only
      daughter. */
  predicate SharesListedGluon(a: Arena)
  {
    |a| == 3 && ValidArena(a)
    && RoleOf(Abs(a[0].pdg)) == Intermediate && RoleOf(Abs(a[1].pdg)) == Intermediate
    && RoleOf(Abs(a[2].pdg)) == JetForming
    && a[0].daughters == [2, 1] && a[1].daughters == [2]
  }

  /** Such a record exists. */
  lemma ListedGluonExists()
    ensures SharesListedGluon([Particle(23, 2, [2, 1], []), Particle(23, 2, [2], [0]), Particle(21, 1, [], [0, 1])])
  {
    var a := [Particle(23, 2, [2, 1], []), Particle(23, 2, [2], [0]), Particle(21, 1, [], [0, 1])];
    assert DaughtersAfter(a, 0) && ParentsBefore(a, 0);
    assert DaughtersAfter(a, 1) && ParentsBefore(a, 1);
    assert DaughtersAfter(a, 2) && ParentsBefore(a, 2);
  }

  lemma ListedGluonAlone(a: Arena)
    requires SharesListedGluon(a)
    ensures TrueJets(a, [2]) == 1
  {
    TrueJetsPop(a, [], 2);
    assert [] + [2] == [2];
    assert OwnJets(a, 2) == 1;
  }

  lemma ListedGluonBelowSecondZ(a: Arena)
    requires SharesListedGluon(a)
    ensures TrueJets(a, [2, 1]) == 1
  {
    ListedGluonAlone(a);
    assert Daughters(a, 1) == [2];
    PushOnePresent([2], 2);
    TrueJetsPop(a, [2], 1);
    assert [2] + [1] == [2, 1];
  }

  /** The other half of de-duplication against the current work list: when the second
      intermediate is expanded while the shared gluon is still listed, the gluon is not pushed
      again and gives one jet. */
  lemma ListedGluonCountedOnce(a: Arena)
    requires SharesListedGluon(a)
    ensures TrueJets(a, [0]) == 1
  {
    ListedGluonBelowSecondZ(a);
    assert Daughters(a, 0) == [2, 1];
    assert PushAbsent([], [2, 1]) == PushAbsent([2], [1]) by {
      assert [2, 1][1..] == [1];
      assert [] + [2] == [2];
    }
    PushOneAbsent([2], 1);
    assert [2] + [1] == [2, 1];
    TrueJetsPop(a, [], 0);
    assert [] + [0] == [0];
  }

  lemma PushOnePresent(work: seq<nat>, d: nat)
    requires d in work
    ensures PushAbsent(work, [d]) == work
  {
    assert [d][1..] == [];
  }

  lemma PushOneAbsent(work: seq<nat>, d: nat)
    requires d !in work
    ensures PushAbsent(work, [d]) == work + [d]
  {
    assert [d][1..] == [];
  }

  // ---------------------------------------------------------------------------
  // The per-event Higgs truth

  /** The truth summary of the Higgs decay; the invisibility flag is stored as an int. */
  datatype HiggsTruth = HiggsTruth(decaysInvisible: int, decayMode: int, nJets: int)

  const DefaultHiggsTruth := HiggsTruth(0, -1, -1)

  /** Every Higgs boson of the record has a daughter (the source reads the first daughter of
      each one without checking). */
  predicate HiggsHaveDaughters(a: Arena)
  {
    forall i | 0 <= i < |a| && a[i].pdg == HiggsPdg :: |a[i].daughters| > 0
  }

  /** A Higgs boson whose first daughter is not itself a Higgs (not an intermediate copy). */
  predicate IsDecayingHiggs(a: Arena, i: nat)
    requires ValidArena(a) && HiggsHaveDaughters(a) && i < |a|
  {
    a[i].pdg == HiggsPdg && a[Daughters(a, i)[0]].pdg != HiggsPdg
  }

  /** What one pass of getHiggsTruth's loop makes of info for the decaying Higgs h: the decay
      mode is replaced only when the remnants determine one. */
  function ClassifyHiggs(a: Arena, h: nat, info: HiggsTruth): HiggsTruth
    requires ValidArena(a) && h < |a|
  {
    var remnants := Daughters(a, h);
    var mode := match DecayModeOf(a, remnants)
      case Some(m) => m
      case None => info.decayMode;
    HiggsTruth(if AllInvisible(a, remnants) then 1 else 0, mode, TrueJets(a, remnants))
  }

  /** The truth record after getHiggsTruth's loop has visited particles 0 .. n-1. */
  function HiggsTruthUpTo(a: Arena, n: nat): HiggsTruth
    requires ValidArena(a) && HiggsHaveDaughters(a) && n <= |a|
  {
    if n == 0 then DefaultHiggsTruth
    else
      var info := HiggsTruthUpTo(a, n - 1);
      if IsDecayingHiggs(a, n - 1) then ClassifyHiggs(a, n - 1, info) else info
  }

  /** The largest index below n that satisfies P. */
  function LastBelow(n: nat, P: nat -> bool): (last: Option<nat>)
    ensures last.Some? ==> last.value < n && P(last.value)
    ensures forall j | 0 <= j < n && (last.None? || last.value < j) :: !P(j)
  {
    if n == 0 then None
    else if P(n - 1) then Some(n - 1)
    else LastBelow(n - 1, P)
  }

  function DecayingHiggsIn(a: Arena): nat -> bool
  {
    (i: nat) => ValidArena(a) && HiggsHaveDaughters(a) && i < |a| && IsDecayingHiggs(a, i)
  }

  function ClassifiedHiggsIn(a: Arena): nat -> bool
  {
    (i: nat) => ValidArena(a) && HiggsHaveDaughters(a) && i < |a| && IsDecayingHiggs(a, i) &&
                DecayModeOf(a, Daughters(a, i)).Some?
  }

  /** With no decaying Higgs the record keeps its defaults; otherwise the invisibility flag and
      the jet count are those of the last decaying Higgs, which overwrites earlier ones. */
  lemma {:induction false} LastHiggsWins(a: Arena, n: nat)
    requires ValidArena(a) && HiggsHaveDaughters(a) && n <= |a|
    ensures match LastBelow(n, DecayingHiggsIn(a))
      case None => HiggsTruthUpTo(a, n) == DefaultHiggsTruth
      case Some(h) =>
        && HiggsTruthUpTo(a, n).decaysInvisible == (if AllInvisible(a, Daughters(a, h)) then 1 else 0)
        && HiggsTruthUpTo(a, n).nJets == TrueJets(a, Daughters(a, h))
  {
    if n > 0 {
      LastHiggsWins(a, n - 1);
      var info := HiggsTruthUpTo(a, n - 1);
      if IsDecayingHiggs(a, n - 1) {
        assert DecayingHiggsIn(a)(n - 1);
        assert LastBelow(n, DecayingHiggsIn(a)) == Some(n - 1);
        var remnants := Daughters(a, n - 1);
        assert HiggsTruthUpTo(a, n) == ClassifyHiggs(a, n - 1, info);
        assert ClassifyHiggs(a, n - 1, info).decaysInvisible == (if AllInvisible(a, remnants) then 1 else 0);
        assert ClassifyHiggs(a, n - 1, info).nJets == TrueJets(a, remnants);
      } else {
        assert !DecayingHiggsIn(a)(n - 1);
        assert LastBelow(n, DecayingHiggsIn(a)) == LastBelow(n - 1, DecayingHiggsIn(a));
        assert HiggsTruthUpTo(a, n) == info;
      }
    }
  }

  /** The decay mode is that of the last decaying Higgs whose remnants determine one, and -1
      when there is none. */
  lemma {:induction false} DecayModeOfLastClassifiedHiggs(a: Arena, n: nat)
    requires ValidArena(a) && HiggsHaveDaughters(a) && n <= |a|
    ensures HiggsTruthUpTo(a, n).decayMode ==
      match LastBelow(n, ClassifiedHiggsIn(a))
      case None => -1
      case Some(h) => DecayModeOf(a, Daughters(a, h)).value
  {
    if n > 0 {
      DecayModeOfLastClassifiedHiggs(a, n - 1);
    }
  }
}
