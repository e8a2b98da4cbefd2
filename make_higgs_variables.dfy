/** The per-event record of the Higgs-variables processor: counters of reconstructed particles
    (PFOs) by kind, four kinematic observables, and the Monte Carlo truth of the Higgs decay,
    reset, filled and committed as one tree entry per event. */
module HiggsVariables {
  import opened Wrappers
  import opened McParticles
  import opened DecayTree

  /** A reconstructed particle: its signed particle-type code, and whether its direction lies
      outside the forward region (|cos theta| < 0.95), a floating-point test taken as given. */
  datatype RecoParticle = RecoParticle(pfoType: int, notForward: bool)

  /** The energy, mass and recoil mass of the summed Higgs four-momentum and the cosine of its
      polar angle: floating-point results taken as given. */
  datatype Observables = Observables(eH: real, mH: real, mHRecoil: real, cosThetaMiss: real)

  /** What one event offers the processor; None marks a collection the event does not hold. */
  datatype HiggsEvent = HiggsEvent(
    higgsPfos: Option<seq<RecoParticle>>,
    observables: Observables,
    isolatedLeptons: Option<seq<RecoParticle>>,
    mcParticles: Option<Arena>)

  // ---------------------------------------------------------------------------
  // Counting PFOs

  /** The counter a PFO goes to, by absolute type code; Unexpected goes to none. */
  datatype Category = Electron | Photon | Muon | ChargedHadron | NeutralHadron | Unexpected

  function CategoryOf(pfoType: int): (c: Category)
    ensures c == Electron <==> Abs(pfoType) == 11
    ensures c == Photon <==> Abs(pfoType) == 22
    ensures c == Muon <==> Abs(pfoType) == 13
    ensures c == ChargedHadron <==> Abs(pfoType) in {211, 321, 2212}
    ensures c == NeutralHadron <==> Abs(pfoType) in {130, 310, 2112, 3122}
  {
    var absPdg := Abs(pfoType);
    if absPdg == 11 then Electron
    else if absPdg == 22 then Photon
    else if absPdg == 13 then Muon
    else if absPdg == 211 || absPdg == 321 || absPdg == 2212 then ChargedHadron
    else if absPdg == 130 || absPdg == 310 || absPdg == 2112 || absPdg == 3122 then NeutralHadron
    else Unexpected
  }

  /** How many of the PFOs fall into category c. */
  function CountOf(pfos: seq<RecoParticle>, c: Category): (n: nat)
    ensures n <= |pfos|
  {
    if pfos == [] then 0
    else CountOf(pfos[..|pfos| - 1], c) + (if CategoryOf(pfos[|pfos| - 1].pfoType) == c then 1 else 0)
  }

  /** How many of the PFOs lie outside the forward region. */
  function CountNotForward(pfos: seq<RecoParticle>): (n: nat)
    ensures n <= |pfos|
  {
    if pfos == [] then 0
    else CountNotForward(pfos[..|pfos| - 1]) + (if pfos[|pfos| - 1].notForward then 1 else 0)
  }

  /** Extending the counted prefix by one PFO adds it to its own category only. */
  lemma CountStep(pfos: seq<RecoParticle>, i: nat)
    requires i < |pfos|
    ensures forall c ::
      CountOf(pfos[..i + 1], c) == CountOf(pfos[..i], c) + (if CategoryOf(pfos[i].pfoType) == c then 1 else 0)
    ensures CountNotForward(pfos[..i + 1]) == CountNotForward(pfos[..i]) + (if pfos[i].notForward then 1 else 0)
  {
    assert pfos[..i + 1][..i] == pfos[..i];
  }

  /** Counting a prefix and then the next PFO is counting the longer prefix. */
  lemma CountedStep(r: Record, pfos: seq<RecoParticle>, i: nat)
    requires i < |pfos|
    ensures Counted(Counted(r, pfos[..i]), [pfos[i]]) == Counted(r, pfos[..i + 1])
  {
    CountStep(pfos, i);
    assert [pfos[i]][..0] == [];
  }

  /** The five counters and the unexpected ones share the PFOs out: each PFO is counted once. */
  lemma {:induction false} CategoriesPartition(pfos: seq<RecoParticle>)
    ensures CountOf(pfos, Electron) + CountOf(pfos, Photon) + CountOf(pfos, Muon) +
            CountOf(pfos, ChargedHadron) + CountOf(pfos, NeutralHadron) +
            CountOf(pfos, Unexpected) == |pfos|
  {
    if pfos != [] {
      CategoriesPartition(pfos[..|pfos| - 1]);
    }
  }

  // ---------------------------------------------------------------------------
  // The record

  /** The value of every variable of the record. */
  datatype Record = Record(
    nIsolatedLeptons: int, nPfos: int, nPfosNotForward: int, nChargedHadrons: int,
    nNeutralHadrons: int, nGamma: int, nElectrons: int, nMuons: int,
    eH: real, mH: real, mHRecoil: real, cosThetaMiss: real,
    higgsTruth: HiggsTruth)

  /** Every counter and observable is -1 until the first reset. */
  const InitialRecord := Record(-1, -1, -1, -1, -1, -1, -1, -1, -1.0, -1.0, -1.0, -1.0, DefaultHiggsTruth)

  /** Every counter and observable is 0 after a reset, and the truth is back at its defaults. */
  const ResetRecord := Record(0, 0, 0, 0, 0, 0, 0, 0, 0.0, 0.0, 0.0, 0.0, DefaultHiggsTruth)

  /** The value of a tree branch: an integer leaf (/I) or a float leaf (/F). */
  datatype Leaf = IntLeaf(i: int) | FloatLeaf(f: real)

  /** The branches initBranches declares, in order, with the values they take from the record.
      Of the truth record only the invisibility flag and the decay mode are exported. */
  function Branches(r: Record): (b: seq<(string, Leaf)>)
    ensures |b| == 14
    ensures forall k | 0 <= k < |b| :: b[k].0 != "n_jets"
    ensures b[12] == ("h_invisible", IntLeaf(r.higgsTruth.decaysInvisible))
    ensures b[13] == ("h_decay", IntLeaf(r.higgsTruth.decayMode))
  {
    [("n_isolated_leptons", IntLeaf(r.nIsolatedLeptons)),
     ("n_pfos", IntLeaf(r.nPfos)),
     ("n_pfos_not_forward", IntLeaf(r.nPfosNotForward)),
     ("n_charged_hadrons", IntLeaf(r.nChargedHadrons)),
     ("n_neutral_hadrons", IntLeaf(r.nNeutralHadrons)),
     ("n_gamma", IntLeaf(r.nGamma)),
     ("n_electrons", IntLeaf(r.nElectrons)),
     ("n_muons", IntLeaf(r.nMuons)),
     ("e_h", FloatLeaf(r.eH)),
     ("m_h", FloatLeaf(r.mH)),
     ("m_h_recoil", FloatLeaf(r.mHRecoil)),
     ("cos_theta_miss", FloatLeaf(r.cosThetaMiss)),
     ("h_invisible", IntLeaf(r.higgsTruth.decaysInvisible)),
     ("h_decay", IntLeaf(r.higgsTruth.decayMode))]
  }

  /** The jet count of the truth record never reaches the tree. */
  lemma JetCountNotExported(r: Record, nJets: int)
    ensures Branches(r.(higgsTruth := r.higgsTruth.(nJets := nJets))) == Branches(r)
  {
  }

  /** The variables of one tree entry, updated in place event after event. */
  class TreeVars {
    var nIsolatedLeptons: int
    var nPfos: int
    var nPfosNotForward: int
    var nChargedHadrons: int
    var nNeutralHadrons: int
    var nGamma: int
    var nElectrons: int
    var nMuons: int
    var eH: real
    var mH: real
    var mHRecoil: real
    var cosThetaMiss: real
    var higgsTruth: HiggsTruth

    function Snapshot(): Record
      reads this
    {
      Record(nIsolatedLeptons, nPfos, nPfosNotForward, nChargedHadrons, nNeutralHadrons,
             nGamma, nElectrons, nMuons, eH, mH, mHRecoil, cosThetaMiss, higgsTruth)
    }

    constructor()
      ensures Snapshot() == InitialRecord
    {
      nIsolatedLeptons := -1;
      nPfos := -1;
      nPfosNotForward := -1;
      nChargedHadrons := -1;
      nNeutralHadrons := -1;
      nGamma := -1;
      nElectrons := -1;
      nMuons := -1;
      eH := -1.0;
      mH := -1.0;
      mHRecoil := -1.0;
      cosThetaMiss := -1.0;
      higgsTruth := DefaultHiggsTruth;
    }

    /** One pass of setHiggsKinematicInfo's loop: the not-forward counter and the counter of
        the PFO's category each go up by one, or stay when the test fails. */
    method Count(rp: RecoParticle)
      modifies this
      ensures Snapshot() == Counted(old(Snapshot()), [rp])
    {
      assert [rp][..0] == [];
      if rp.notForward {
        nPfosNotForward := nPfosNotForward + 1;
      }
      var absPdg := Abs(rp.pfoType);
      if absPdg == 11 {
        nElectrons := nElectrons + 1;
      } else if absPdg == 22 {
        nGamma := nGamma + 1;
      } else if absPdg == 13 {
        nMuons := nMuons + 1;
      } else if absPdg == 211 || absPdg == 321 || absPdg == 2212 {
        nChargedHadrons := nChargedHadrons + 1;
      } else if absPdg == 130 || absPdg == 310 || absPdg == 2112 || absPdg == 3122 {
        nNeutralHadrons := nNeutralHadrons + 1;
      }
      // Any other type only draws a warning.
    }

    /** resetValues: the new record does not depend on the old one, so a second reset
        changes nothing. */
    method ResetValues()
      modifies this
      ensures Snapshot() == ResetRecord
    {
      nIsolatedLeptons := 0;
      nPfos := 0;
      nPfosNotForward := 0;
      nChargedHadrons := 0;
      nNeutralHadrons := 0;
      nGamma := 0;
      nElectrons := 0;
      nMuons := 0;
      eH := 0.0;
      mH := 0.0;
      mHRecoil := 0.0;
      cosThetaMiss := 0.0;
      higgsTruth := DefaultHiggsTruth;
    }
  }

  /** The record after setHiggsKinematicInfo has run over the PFOs: each counter grows by its
      PFOs, the PFO total and the observables are overwritten, the rest is kept. */
  function Kinematics(r: Record, pfos: seq<RecoParticle>, obs: Observables): Record
  {
    Counted(r, pfos).(nPfos := |pfos|,
      eH := obs.eH, mH := obs.mH, mHRecoil := obs.mHRecoil, cosThetaMiss := obs.cosThetaMiss)
  }

  /** The record after the PFOs have been added to the not-forward and category counters. */
  function Counted(r: Record, pfos: seq<RecoParticle>): Record
  {
    r.(nPfosNotForward := r.nPfosNotForward + CountNotForward(pfos),
       nElectrons := r.nElectrons + CountOf(pfos, Electron),
       nGamma := r.nGamma + CountOf(pfos, Photon),
       nMuons := r.nMuons + CountOf(pfos, Muon),
       nChargedHadrons := r.nChargedHadrons + CountOf(pfos, ChargedHadron),
       nNeutralHadrons := r.nNeutralHadrons + CountOf(pfos, NeutralHadron))
  }

  /** The truth record getHiggsTruth returns: the defaults when the Monte Carlo collection is
      missing, else the result of its loop over the whole collection. */
  function HiggsTruthOf(mc: Option<Arena>): HiggsTruth
    requires mc.Some? ==> ValidArena(mc.value) && HiggsHaveDaughters(mc.value)
  {
    match mc
    case None => DefaultHiggsTruth
    case Some(a) => HiggsTruthUpTo(a, |a|)
  }

  predicate TruthReadable(event: HiggsEvent)
  {
    event.mcParticles.Some? ==> ValidArena(event.mcParticles.value) && HiggsHaveDaughters(event.mcParticles.value)
  }

  /** The record processEvent commits for an event holding both PFO collections. */
  function EventRecord(event: HiggsEvent): Record
    requires event.higgsPfos.Some? && event.isolatedLeptons.Some? && TruthReadable(event)
  {
    Kinematics(ResetRecord, event.higgsPfos.value, event.observables)
      .(nIsolatedLeptons := |event.isolatedLeptons.value|, higgsTruth := HiggsTruthOf(event.mcParticles))
  }

  /** A committed record holds the counts of the current event and nothing left from earlier
      ones: n_pfos is the collection size, each PFO feeds at most one of the five counters and
      at most once the not-forward counter, and n_isolated_leptons is the lepton count. */
  lemma EventRecordCounts(event: HiggsEvent)
    requires event.higgsPfos.Some? && event.isolatedLeptons.Some? && TruthReadable(event)
    ensures var r := EventRecord(event); var pfos := event.higgsPfos.value;
      && r.nPfos == |pfos|
      && r.nElectrons == CountOf(pfos, Electron)
      && r.nGamma == CountOf(pfos, Photon)
      && r.nMuons == CountOf(pfos, Muon)
      && r.nChargedHadrons == CountOf(pfos, ChargedHadron)
      && r.nNeutralHadrons == CountOf(pfos, NeutralHadron)
      && 0 <= r.nElectrons + r.nGamma + r.nMuons + r.nChargedHadrons + r.nNeutralHadrons <= r.nPfos
      && 0 <= r.nPfosNotForward <= r.nPfos
      && r.nIsolatedLeptons == |event.isolatedLeptons.value|
      && r.higgsTruth == HiggsTruthOf(event.mcParticles)
  {
    CategoriesPartition(event.higgsPfos.value);
  }

  /** The processor: its tree variables, the flag that remembers an event without Monte Carlo
      particles, and the entries committed to the tree so far. */
  class MakeHiggsVariablesProcessor {
    const tv: TreeVars
    var missingMcCollection: bool
    var tree: seq<seq<(string, Leaf)>>

    constructor()
      ensures fresh(tv) && tv.Snapshot() == InitialRecord
      ensures !missingMcCollection && tree == []
    {
      tv := new TreeVars();
      missingMcCollection := false;
      tree := [];
    }

    /** setHiggsKinematicInfo: a missing Higgs PFO collection stops processing and leaves the
        record alone; otherwise the PFOs are counted into the record. */
    method SetHiggsKinematicInfo(higgsPfos: Option<seq<RecoParticle>>, obs: Observables) returns (status: Status)
      modifies tv
      ensures higgsPfos.None? ==> status == StopProcessing && tv.Snapshot() == old(tv.Snapshot())
      ensures higgsPfos.Some? ==>
        status == Continue && tv.Snapshot() == Kinematics(old(tv.Snapshot()), higgsPfos.value, obs)
    {
      if higgsPfos.None? {
        return StopProcessing;
      }
      var pfos := higgsPfos.value;
      ghost var r0 := tv.Snapshot();
      var i := 0;
      while i < |pfos|
        invariant 0 <= i <= |pfos|
        invariant tv.Snapshot() == Counted(r0, pfos[..i])
      {
        CountedStep(r0, pfos, i);
        tv.Count(pfos[i]);
        i := i + 1;
      }
      assert pfos[..i] == pfos;
      tv.nPfos := |pfos|;
      tv.eH, tv.mH, tv.mHRecoil, tv.cosThetaMiss := obs.eH, obs.mH, obs.mHRecoil, obs.cosThetaMiss;
      return Continue;
    }

    /** setIsolatedNumbers: a missing isolated-lepton collection stops processing; otherwise
        only n_isolated_leptons changes, to the collection size. */
    method SetIsolatedNumbers(isolatedLeptons: Option<seq<RecoParticle>>) returns (status: Status)
      modifies tv
      ensures isolatedLeptons.None? ==> status == StopProcessing && tv.Snapshot() == old(tv.Snapshot())
      ensures isolatedLeptons.Some? ==>
        status == Continue && tv.Snapshot() == old(tv.Snapshot()).(nIsolatedLeptons := |isolatedLeptons.value|)
    {
      if isolatedLeptons.None? {
        return StopProcessing;
      }
      tv.nIsolatedLeptons := |isolatedLeptons.value|;
      return Continue;
    }

    /** getHiggsTruth: a missing Monte Carlo collection raises the flag and gives the defaults;
        otherwise every decaying Higgs of the collection is classified in turn. */
    method GetHiggsTruth(mc: Option<Arena>) returns (info: HiggsTruth)
      requires mc.Some? ==> ValidArena(mc.value) && HiggsHaveDaughters(mc.value)
      modifies this
      ensures info == HiggsTruthOf(mc)
      ensures missingMcCollection == (old(missingMcCollection) || mc.None?)
      ensures tree == old(tree)
    {
      info := DefaultHiggsTruth;
      if mc.None? {
        missingMcCollection := true;
        return;
      }
      var a := mc.value;
      var i := 0;
      while i < |a|
        invariant 0 <= i <= |a|
        invariant info == HiggsTruthUpTo(a, i)
        invariant missingMcCollection == old(missingMcCollection) && tree == old(tree)
      {
        var isHiggs := a[i].pdg == HiggsPdg;
        if isHiggs {
          var remnants := Daughters(a, i);
          var isIntermediateHiggs := a[remnants[0]].pdg == HiggsPdg;
          if !isIntermediateHiggs {
            if IsHiggsToSameParticlePair(a, remnants) {
              info := info.(decayMode := Abs(a[remnants[0]].pdg));
            } else if IsHiggsToZGamma(a, remnants) {
              info := info.(decayMode := ZGammaDecayMode);
            }
            var invisible := DecaysInvisible(a, remnants);
            var nJets := GetNTrueJets(a, remnants);
            info := info.(decaysInvisible := if invisible then 1 else 0, nJets := nJets);
          }
        }
        i := i + 1;
      }
    }

    /** processEvent: reset, kinematics, isolated leptons, truth, then one tree entry. A stop
        raised by a missing collection commits nothing. */
    method ProcessEvent(event: HiggsEvent) returns (status: Status)
      requires event.higgsPfos.Some? && event.isolatedLeptons.Some? ==> TruthReadable(event)
      modifies this, tv
      ensures status == Continue <==> event.higgsPfos.Some? && event.isolatedLeptons.Some?
      ensures status == Continue ==>
        && tv.Snapshot() == EventRecord(event)
        && tree == old(tree) + [Branches(EventRecord(event))]
        && missingMcCollection == (old(missingMcCollection) || event.mcParticles.None?)
      ensures status == StopProcessing ==>
        tree == old(tree) && missingMcCollection == old(missingMcCollection)
      ensures event.higgsPfos.None? ==> tv.Snapshot() == ResetRecord
      ensures event.higgsPfos.Some? && event.isolatedLeptons.None? ==>
        tv.Snapshot() == Kinematics(ResetRecord, event.higgsPfos.value, event.observables)
    {
      tv.ResetValues();
      status := SetHiggsKinematicInfo(event.higgsPfos, event.observables);
      if status == StopProcessing {
        return;
      }
      status := SetIsolatedNumbers(event.isolatedLeptons);
      if status == StopProcessing {
        return;
      }
      var truth := GetHiggsTruth(event.mcParticles);
      tv.higgsTruth := truth;
      tree := tree + [Branches(tv.Snapshot())];
    }
  }
}
