# Monte Carlo truth logic of the ILD vvH analysis, in Dafny

This project models the truth-level core of the ILD ννH analysis chain. That chain is made of
Marlin processors run over LCIO events, plus a Python steering script that cuts the sample
file lists into batch jobs. The model covers:

- **Higgs decay classification** (`higgs_truth.cc`). Each decaying Higgs boson of the Monte
  Carlo record gets:
  - a decay mode: the common absolute code of a same-particle pair, or 20 for Z γ;
  - an invisibility flag: every stable particle below the Higgs is a neutrino;
  - a true-jet count: quarks, gluons and hadronic taus, found by a stack walk that
    expands intermediate particles.

  The leptonic-tau test follows a tau through its daughters, through W and tau copies, and
  through the hadronization marker 94.
- **The Higgs-variables processor** (`make_higgs_variables.cc/.h`). Per event it:
  - resets the tree variables;
  - counts the Higgs-candidate PFOs (reconstructed particle-flow objects) by kind, and those
    outside the forward region;
  - stores four kinematic observables and the number of isolated leptons;
  - attaches the truth summary;
  - fills one tree entry with the 14 exported branches.

  A missing PFO or lepton collection stops processing. A missing Monte Carlo collection only
  sets a flag.
- **Overlay removal by truth** (`overlay_remover_truth.cc`). A PFO is kept when the first truth
  particle it is linked to has a particle with code 25 among its ancestors. The kept PFOs form
  a subset collection, in input order.
- **Job splitting** (`steerer.py`, `getJobDict`). Each polarisation is visited, then each
  requested process present for it. Its files are cut into chunks of `files_per_job`, and each
  chunk is stored as `pol_process_NN`. The loop over processes (`StoreProcesses`) and the loop over
  chunks (`StoreChunks`) are methods of their own, each proved against the function that
  specifies it.

The Monte Carlo record is an arena: a sequence of particles that refer to their daughters and
parents by index. `ValidArena` states that daughters have larger indices and parents smaller
ones. This makes the decay graph acyclic and gives every stack walk a termination measure: the
number of paths leaving the work list.

Each source loop becomes a method proved against a pure function:
- `DecaysInvisible` against `AllInvisible`;
- `GetNTrueJets` against `TrueJets`;
- getHiggsTruth's loop against `HiggsTruthUpTo`;
- `IsFromHiggsVia` against `HasHiggsAncestor`;
- the filter loop against `HiggsOnly`;
- `GetJobDict` against `WithPolarisations`.

Lemmas then relate each function to an independent description: recorded neutrinos,
ancestors, job names and chunks. The tree variables are a class updated in place.

Three behaviours of the code worth knowing, each stated by a lemma of the model:
- **Invisibility with no stable particle.** `decaysInvisible` answers true when its walk reaches
  no stable particle at all, since its final scan is then vacuous (`InvisibleIffRecordedNeutrinos`).
- **Ancestor walk order.** `isFromHiggs` walks ancestors depth first, from the back of a stack,
  and without a visited set. The verdict is nonetheless exactly "some ancestor has code 25"
  (`HiggsAncestorIffAscends`).
- **Jet de-duplication.** `getNTrueJets` compares a daughter only with the current work list. A
  quark or gluon shared by two intermediate particles is counted again when it was already
  popped before the second one is expanded: two sibling intermediates whose only daughter is
  the gluon give two jets (`SharedGluonCountedTwice`). It is counted once when it is still on
  the work list at that moment (`ListedGluonCountedOnce`).

## Model

| member | source | states |
|---|---|---|
| DecayTree.IsHiggsToSameParticlePair | make_rootfile/processors/make_higgs_variables/src/higgs_truth.cc:23-26 | Holds iff there are exactly two remnants and their absolute codes are equal, whatever the code. `DecayModeOf` applies it before the Z γ test. |
| DecayTree.IsHiggsToZGamma | make_rootfile/processors/make_higgs_variables/src/higgs_truth.cc:28-33 | Holds iff there are exactly two remnants, a photon (22) and a Z (23) in either order, signs ignored; `ZGammaIsCodeSet` recasts it as a test on the set of the two codes. |
| DecayTree.ZGammaIsCodeSet | make_rootfile/processors/make_higgs_variables/src/higgs_truth.cc:28-33 | The Z γ test holds exactly for two remnants whose absolute codes are, as a set, {22, 23}, in either order and with either sign. |
| DecayTree.DecayModeOf | make_rootfile/processors/make_higgs_variables/src/higgs_truth.cc:57-66 | The remnants fix a decay mode iff there are exactly two of them and they are a same-code pair or a Z and a photon. A same-code pair gives that absolute code; otherwise the mode is 20. |
| DecayTree.InvisibleIffRecordedNeutrinos | make_rootfile/processors/make_higgs_variables/src/higgs_truth.cc:75-98 | The recursive invisibility definition holds iff every stable particle the walk records below the particle is a neutrino (12, 14 or 16, any sign); with none recorded it holds. |
| DecayTree.DecaysInvisible | make_rootfile/processors/make_higgs_variables/src/higgs_truth.cc:75-98 | The stack walk plus the scan of recorded stable particles answers exactly whether every remnant decays invisibly. |
| DecayTree.IsIn | make_rootfile/processors/make_higgs_variables/src/higgs_truth.cc:101-104 | The linear search finds the candidate iff it occurs in the list. |
| DecayTree.DaughterVerdict | make_rootfile/processors/make_higgs_variables/src/higgs_truth.cc:108-128 | A tau daughter leaves the scan undecided exactly when it is a neutrino; every other daughter decides it. |
| DecayTree.LeptonicSkipsNeutrinos | make_rootfile/processors/make_higgs_variables/src/higgs_truth.cc:110-112 | Neutrino daughters can be skipped without changing the verdict. |
| DecayTree.TauDecidedByFirstDecisiveDaughter | make_rootfile/processors/make_higgs_variables/src/higgs_truth.cc:106-131 | The tau's verdict is that of its first daughter that is not a neutrino. With no such daughter the tau is not leptonic. |
| DecayTree.IsLeptonicTauDecay | make_rootfile/processors/make_higgs_variables/src/higgs_truth.cc:106-131 | The tau is leptonic iff the scan of its daughters from the first one says so; `TauDecidedByFirstDecisiveDaughter` and `LeptonicTauHasLightLeptonBelow` give its meaning. |
| DecayTree.LeptonicFrom | make_rootfile/processors/make_higgs_variables/src/higgs_truth.cc:108-130 | The scan from daughter k on: a neutrino passes to the next daughter, the first other daughter decides through `DaughterVerdict`, and running out of daughters gives false. |
| DecayTree.LeptonicTauHasLightLeptonBelow | make_rootfile/processors/make_higgs_variables/src/higgs_truth.cc:106-131 | A tau judged leptonic really has an electron or muon among its descendants. |
| DecayTree.RoleOf | make_rootfile/processors/make_higgs_variables/src/higgs_truth.cc:136-150 | Quarks and the gluon form jets; leptons other than the tau, neutrinos and the photon form none; 15 is the tau; anything else is expanded. |
| DecayTree.PushAbsent | make_rootfile/processors/make_higgs_variables/src/higgs_truth.cc:158-163 | Pushing daughters keeps the work list as a prefix, adds every daughter and nothing else; with `PushAbsentAppend`, `PushOnePresent` and `PushOneAbsent` it says the daughters are taken one at a time in their order, each pushed exactly when it is not yet listed. |
| DecayTree.PushAbsentAddsOnlyAbsent | make_rootfile/processors/make_higgs_variables/src/higgs_truth.cc:158-163 | Every added entry is a daughter that was neither on the work list nor added before it, so a daughter already listed is not pushed again and none is pushed twice. |
| DecayTree.PushAbsentAppend | make_rootfile/processors/make_higgs_variables/src/higgs_truth.cc:158-163 | The daughters are handled in their order: pushing `ds1 + ds2` is pushing `ds1`, then `ds2` onto the result. |
| DecayTree.GetNTrueJets | make_rootfile/processors/make_higgs_variables/src/higgs_truth.cc:133-167 | The walk returns the jet count of its specification function on the remnants. |
| DecayTree.TrueJetsBounds | make_rootfile/processors/make_higgs_variables/src/higgs_truth.cc:139-165 | The count is at least the jets formed by the listed particles themselves. It is at most the jets of the decay tree below them, counted once per path. |
| DecayTree.TrueJetsOfTerminals | make_rootfile/processors/make_higgs_variables/src/higgs_truth.cc:143-150 | When nothing listed needs expanding, the count is exactly the jets the listed particles form. A quark-antiquark pair gives 2 and a leptonic tau gives 0. |
| DecayTree.SharedGluonCountedTwice | make_rootfile/processors/make_higgs_variables/src/higgs_truth.cc:158-163 | Two sibling intermediates whose only daughter is one gluon give two jets: the gluon is popped and counted before the second intermediate is expanded, so that expansion pushes it again. |
| DecayTree.ListedGluonCountedOnce | make_rootfile/processors/make_higgs_variables/src/higgs_truth.cc:158-163 | When an intermediate's daughters are the gluon and then a second intermediate whose only daughter is the same gluon, the gluon is still listed when the second one is expanded, is not pushed again, and gives one jet. |
| DecayTree.HiggsTruthUpTo | make_rootfile/processors/make_higgs_variables/src/higgs_truth.cc:48-70 | The truth after the loop has seen the first n particles: each particle with code 25 whose first daughter is not a Higgs is classified in turn, starting from the defaults, so a later Higgs overwrites an earlier one (`LastHiggsWins`, `DecayModeOfLastClassifiedHiggs`). |
| DecayTree.LastHiggsWins | make_rootfile/processors/make_higgs_variables/src/higgs_truth.cc:48-70 | With no decaying Higgs the truth keeps its defaults. Otherwise the invisibility flag and the jet count are those of the last decaying Higgs in the collection. |
| DecayTree.DecayModeOfLastClassifiedHiggs | make_rootfile/processors/make_higgs_variables/src/higgs_truth.cc:57-66 | The decay mode is that of the last decaying Higgs whose remnants fix one, and -1 if there is none. |
| HiggsVariables.MakeHiggsVariablesProcessor.GetHiggsTruth | make_rootfile/processors/make_higgs_variables/src/higgs_truth.cc:35-72 | A missing Monte Carlo collection sets the flag and gives the defaults. Otherwise the loop's result is the fold over the whole collection. The tree is left unchanged. |
| HiggsVariables.CategoryOf | make_rootfile/processors/make_higgs_variables/src/make_higgs_variables.cc:119-134 | Each counter takes exactly its own absolute type codes: 11; 22; 13; 211, 321 and 2212; 130, 310, 2112 and 3122. |
| HiggsVariables.CategoriesPartition | make_rootfile/processors/make_higgs_variables/src/make_higgs_variables.cc:119-134 | The five counters and the unexpected types together count every PFO exactly once. |
| HiggsVariables.TreeVars.Count | make_rootfile/processors/make_higgs_variables/src/make_higgs_variables.cc:117-134 | One PFO raises the not-forward counter if it is outside the forward region, and the counter of its own category. No other variable changes. |
| HiggsVariables.MakeHiggsVariablesProcessor.SetHiggsKinematicInfo | make_rootfile/processors/make_higgs_variables/src/make_higgs_variables.cc:102-142 | A missing collection stops processing and leaves the record unchanged. Otherwise the counters grow by the counts of the PFOs, n_pfos becomes the collection size and the observables are stored. |
| HiggsVariables.MakeHiggsVariablesProcessor.SetIsolatedNumbers | make_rootfile/processors/make_higgs_variables/src/make_higgs_variables.cc:146-163 | A missing collection stops processing. Otherwise only n_isolated_leptons changes, to the collection size. |
| HiggsVariables.MakeHiggsVariablesProcessor.ProcessEvent | make_rootfile/processors/make_higgs_variables/src/make_higgs_variables.cc:89-98 | The event goes on iff both PFO collections exist. It then appends exactly the branches of the event's record to the tree. A stop appends nothing and leaves the variables reset, with the kinematics filled in when only the isolated leptons are missing. |
| HiggsVariables.EventRecordCounts | make_rootfile/processors/make_higgs_variables/src/make_higgs_variables.cc:111-136 | A committed record depends on the current event only. It holds per-category counts whose sum, like the not-forward count, is at most n_pfos, the lepton count and the truth of the Monte Carlo record. |
| HiggsVariables.TreeVars.constructor | make_rootfile/processors/make_higgs_variables/include/make_higgs_variables.h:70-88 | Every counter and observable starts at -1. The truth starts at its defaults: not invisible, mode -1, jets -1. |
| HiggsVariables.TreeVars.ResetValues | make_rootfile/processors/make_higgs_variables/include/make_higgs_variables.h:109-125 | After a reset every counter and observable is 0 and the truth is back at its defaults, whatever the previous record. |
| HiggsVariables.MakeHiggsVariablesProcessor.constructor | make_rootfile/processors/make_higgs_variables/include/make_higgs_variables.h:60-88 | A new processor has an empty tree, no missing-collection flag and fresh tree variables at their initial values. |
| HiggsVariables.Branches | make_rootfile/processors/make_higgs_variables/include/make_higgs_variables.h:90-107 | 14 branches are exported, the last two being h_invisible and h_decay; none is a jet count. |
| HiggsVariables.JetCountNotExported | make_rootfile/processors/make_higgs_variables/include/make_higgs_variables.h:105-106 | The true-jet count never reaches the tree: changing it leaves every branch unchanged. |
| OverlayRemoverTruth.HiggsAncestorIffAscends | make_rootfile/processors/overlay_remover_truth/src/overlay_remover_truth.cc:86-95 | The ancestry verdict holds iff some particle reached by one or more parent links has code exactly 25. |
| OverlayRemoverTruth.AncestryReadsOnlyBelow | make_rootfile/processors/overlay_remover_truth/src/overlay_remover_truth.cc:86-94 | The verdict for a particle depends only on its parent links and the particles before it. |
| OverlayRemoverTruth.AncestryIgnoresOwnCode | make_rootfile/processors/overlay_remover_truth/src/overlay_remover_truth.cc:85-90 | The matched particle's own code never affects the verdict; only its ancestors are tested. |
| OverlayRemoverTruth.IsFromHiggsVia | make_rootfile/processors/overlay_remover_truth/src/overlay_remover_truth.cc:76-96 | A PFO without a relation is not from the Higgs. Otherwise the stack walk answers exactly whether the first related particle has a Higgs ancestor. |
| OverlayRemoverTruth.IsFromHiggs | make_rootfile/processors/overlay_remover_truth/src/overlay_remover_truth.cc:98-112 | Without the relation collection the answer is false; otherwise it is the navigator verdict. |
| OverlayRemoverTruth.HiggsOnly | make_rootfile/processors/overlay_remover_truth/src/overlay_remover_truth.cc:63-67 | The kept PFOs are exactly the input PFOs judged from the Higgs. They form a sub-multiset of the input, and there are no more of them than inputs. |
| OverlayRemoverTruth.HiggsOnlyAppend | make_rootfile/processors/overlay_remover_truth/src/overlay_remover_truth.cc:63-67 | Filtering preserves order: filtering a concatenation is concatenating the filtered parts. |
| OverlayRemoverTruth.CollectFromHiggs | make_rootfile/processors/overlay_remover_truth/src/overlay_remover_truth.cc:63-67 | The loop gathers exactly the filtered PFOs, in input order. |
| OverlayRemoverTruth.ProcessEvent | make_rootfile/processors/overlay_remover_truth/src/overlay_remover_truth.cc:50-74 | A missing PFO collection stops processing. Otherwise the added subset collection is the filtered PFO list. |
| Steerer.Pad2 | make_rootfile/steerer.py:14 | The job index is written in at least two decimal digits, exactly two below 100, with no leading zero from 10 on (so 100 is "100"); `DecimalDigits` carries the no-leading-zero fact. |
| Steerer.Pad2RoundTrip | make_rootfile/steerer.py:14 | The padded index reads back as the index. |
| Steerer.JobName | make_rootfile/steerer.py:14 | The polarisation, the process and the index zero-padded to two digits joined at '_' (`JobNameSpelled`); `JobNameIndexInjective` and `JobNameInjective` say when two jobs get distinct names. |
| Steerer.JobNameIndexInjective | make_rootfile/steerer.py:14 | Jobs of one polarisation and process have distinct names. |
| Steerer.JobNameInjective | make_rootfile/steerer.py:14 | If neither polarisations nor processes contain '_', a name determines its polarisation, process and index. |
| Steerer.NumChunksIsCeiling | make_rootfile/steerer.py:13 | For a positive files_per_job, the number of jobs is the least number of chunks that covers the file list. |
| Steerer.ChunkSizes | make_rootfile/steerer.py:13-15 | Every job holds 1 to files_per_job files, and every job but the last holds exactly files_per_job. |
| Steerer.JoinedChunksArePrefix | make_rootfile/steerer.py:13-15 | For a positive files_per_job, joining the chunks in order gives back the file list: no file is lost or duplicated. |
| Steerer.StoreChunks | make_rootfile/steerer.py:13-15 | The inner loop stores each chunk under its job name, one per offset of the range, and none for a negative step. |
| Steerer.StoreProcesses | make_rootfile/steerer.py:10-15 | The loop over the requested processes of one polarisation skips absent processes and stores the chunks of present ones. A present process with a zero step makes it a ValueError. |
| Steerer.GetJobDict | make_rootfile/steerer.py:6-16 | The nested loops compute the fold over polarisations and processes. A zero step that is reached makes the result a ValueError. |
| Steerer.ProcessesOutcome | make_rootfile/steerer.py:10-13 | For one polarisation the loop fails iff files_per_job is 0 and some requested process is present. |
| Steerer.ZeroStepFailsIffReached | make_rootfile/steerer.py:9-13 | getJobDict raises iff files_per_job is 0 and some requested process is present for some polarisation. When no requested process is present for any polarisation, a zero step goes unnoticed. A present process with an empty file list still raises. |
| Steerer.ChunkKeys | make_rootfile/steerer.py:13-14 | Storing the chunks of one file list adds exactly the names with indices below the chunk count. |
| Steerer.ProcessKeys | make_rootfile/steerer.py:10-14 | For a non-zero step, one polarisation adds exactly the names of the chunks of the requested processes that are present. |
| Steerer.JobKeys | make_rootfile/steerer.py:9-15 | For a non-zero step, the dictionary's keys are exactly the names of the existing jobs: every polarisation, every requested process present for it, every chunk index. |
| Steerer.JobValues | make_rootfile/steerer.py:9-15 | When names contain no '_', each existing job holds its own chunk of its file list. |

## Left out

- ROOT output is not modelled: the TFile and TTree set-up (`initRoot`, `endRoot`) and writing to disk. A filled entry is modelled as the sequence of (branch name, value) pairs appended to `tree`.
- The four-vector arithmetic is not modelled. Summing the PFO momenta, E, M, the recoil mass against a 250 GeV beam and cos θ are floating point and enter as the `Observables` input. The |cos θ| < 0.95 test of each PFO enters as `RecoParticle.notForward`.
- The float branches are modelled as reals, so their 32-bit float rounding is not modelled.
- Logging is not modelled. This covers every debug, warning and error message, including the unforeseen-decay and unclassified-stable-particle diagnostics and the run-end report of a missing Monte Carlo collection. They change no state.
- The Marlin framework is not modelled: processor registration, parameters and collection names. LCIO collections are sequences, and a missing collection is `None`.
- `StopProcessingException` is modelled as a returned `StopProcessing` or `Stopped` value, not as an exception.
- The read of the `ISOLepType` parameter in setIsolatedNumbers is not modelled; its result is never used.
- The relation navigator is a map from a PFO to its related truth particles, in the navigator's order. Building it from the `RecoMCTruthLink` collection is not modelled.
- Adding the subset collection to the event is modelled as the `Added` outcome.
- The truth record must satisfy `ValidArena`: daughters after and parents before each particle. Generator records are ordered this way. On a cyclic record the source's walks would not terminate.
- DecayTree.HiggsTruthUpTo, HiggsVariables.MakeHiggsVariablesProcessor.GetHiggsTruth, HiggsVariables.MakeHiggsVariablesProcessor.ProcessEvent and HiggsVariables.EventRecord: require `HiggsHaveDaughters` (the last two through `TruthReadable`). ProcessEvent requires it only when both the Higgs PFO collection and the isolated-lepton collection exist, because only then does it read the truth. The source reads the first daughter of every Higgs without a check, which is undefined behaviour for a Higgs with no daughters.
- `evaluateLCFIPlus` is not modelled: it is declared in the header but defined nowhere.
- The overlay processor's header only declares members, so it adds nothing to the model.
- Only getJobDict is modelled in steerer.py. `newSampleRun`, `oldSampleRun`, the Pysteer job submission and the `__main__` block are not.
- The file dictionary returned by `lcio_file_dict(machine)` is an input, so the `machine` parameter is not modelled. The order in which that dictionary yields its keys is the `pols` input.
- The insertion order of the job dictionary is not modelled: it is a Dafny `map`.
- The default `files_per_job=10` is not modelled: GetJobDict always takes it as an argument.
- Steerer.JobValues: stated only for names without '_'. With '_' in a polarisation or process, two jobs can share a name, and the later store overwrites the earlier one.
- Steerer.JoinedChunksArePrefix: stated for a positive files_per_job only. A negative value gives an empty range and no jobs, so those files are silently dropped.
