/** Splitting of the sample file lists into batch jobs: for every polarisation and every
    requested process the list of files is cut into consecutive chunks of files_per_job files,
    and each chunk is stored under the name pol_process_NN. */
module Steerer {
  import opened Wrappers

  // ---------------------------------------------------------------------------
  // Job names

  function DigitChar(d: nat): char
    requires d < 10
  {
    "0123456789"[d]
  }

  function DigitValue(c: char): nat
  {
    if '0' <= c <= '9' then (c as int) - ('0' as int) else 0
  }

  predicate IsDigits(s: string)
  {
    forall k | 0 <= k < |s| :: '0' <= s[k] <= '9'
  }

  /** The decimal digits of n, without leading zeros. */
  function DecimalDigits(n: nat): (s: string)
    ensures 1 <= |s| && IsDigits(s)
    ensures n < 10 <==> |s| == 1
    ensures n >= 1 ==> s[0] != '0'
  {
    if n < 10 then [DigitChar(n)] else DecimalDigits(n / 10) + [DigitChar(n % 10)]
  }

  /** Python's "02" format of a non-negative int: its decimal digits, zero-padded to two. */
  function Pad2(n: nat): (s: string)
    ensures 2 <= |s| && IsDigits(s)
    ensures n < 100 ==> |s| == 2
    ensures n >= 10 ==> s[0] != '0'
  {
    if n < 10 then ['0', DigitChar(n)]
    else
      assert DecimalDigits(n) == DecimalDigits(n / 10) + [DigitChar(n % 10)];
      DecimalDigits(n)
  }

  /** The value of a string of decimal digits. */
  function ParseDecimal(s: string): nat
  {
    if s == [] then 0 else 10 * ParseDecimal(s[..|s| - 1]) + DigitValue(s[|s| - 1])
  }

  lemma {:induction false} ParseDecimalDigits(n: nat)
    ensures ParseDecimal(DecimalDigits(n)) == n
  {
    if n >= 10 {
      var s := DecimalDigits(n);
      assert s[..|s| - 1] == DecimalDigits(n / 10);
      ParseDecimalDigits(n / 10);
    }
  }

  /** The padded index reads back as the index, so distinct indices get distinct names. */
  lemma Pad2RoundTrip(n: nat)
    ensures ParseDecimal(Pad2(n)) == n
  {
    if n < 10 {
      var s := Pad2(n);
      assert s[..1] == ['0'];
      assert ['0'][..0] == [];
    } else {
      ParseDecimalDigits(n);
    }
  }

  /** The parts joined at '_'. */
  function Join(parts: seq<string>): string
  {
    if parts == [] then "" else if |parts| == 1 then parts[0] else parts[0] + "_" + Join(parts[1..])
  }

  /** The name of job n of a (polarisation, process) pair: pol_process_NN. */
  function JobName(pol: string, process: string, n: nat): string
  {
    Join([pol, process, Pad2(n)])
  }

  lemma JobNameSpelled(pol: string, process: string, n: nat)
    ensures JobName(pol, process, n) == pol + "_" + (process + "_" + Pad2(n))
  {
    var parts := [pol, process, Pad2(n)];
    assert parts[1..] == [process, Pad2(n)];
    assert parts[1..][1..] == [Pad2(n)];
    assert Join(parts[1..]) == process + "_" + Pad2(n);
  }

  predicate NoSeparator(s: string)
  {
    '_' !in s
  }

  /** In a join at '_' of a string without '_', the first '_' is the joining one. */
  lemma FirstSeparator(x: string, y: string)
    requires NoSeparator(x)
    ensures (x + "_" + y)[|x|] == '_'
    ensures forall k | 0 <= k < |x| :: (x + "_" + y)[k] != '_'
  {
    forall k | 0 <= k < |x| ensures (x + "_" + y)[k] != '_' {
      assert (x + "_" + y)[k] == x[k];
    }
  }

  /** A string without '_' is recovered from a join at '_'. */
  lemma SplitAtSeparator(x1: string, y1: string, x2: string, y2: string)
    requires NoSeparator(x1) && NoSeparator(x2)
    requires x1 + "_" + y1 == x2 + "_" + y2
    ensures x1 == x2 && y1 == y2
  {
    var s := x1 + "_" + y1;
    FirstSeparator(x1, y1);
    FirstSeparator(x2, y2);
    assert |x1| == |x2|;
    assert x1 == s[..|x1|] == x2;
    assert y1 == s[|x1| + 1..] == y2;
  }

  /** Jobs of one (polarisation, process) pair have distinct names. */
  lemma JobNameIndexInjective(pol: string, process: string, n1: nat, n2: nat)
    requires JobName(pol, process, n1) == JobName(pol, process, n2)
    ensures n1 == n2
  {
    var start := |pol| + |process| + 2;
    JobNameSpelled(pol, process, n1);
    JobNameSpelled(pol, process, n2);
    assert Pad2(n1) == JobName(pol, process, n1)[start..];
    assert Pad2(n2) == JobName(pol, process, n2)[start..];
    Pad2RoundTrip(n1);
    Pad2RoundTrip(n2);
  }

  /** When neither polarisations nor processes contain '_', a job name tells its polarisation,
      process and index apart from every other. */
  lemma JobNameInjective(pol1: string, process1: string, n1: nat, pol2: string, process2: string, n2: nat)
    requires NoSeparator(pol1) && NoSeparator(process1) && NoSeparator(pol2) && NoSeparator(process2)
    requires JobName(pol1, process1, n1) == JobName(pol2, process2, n2)
    ensures pol1 == pol2 && process1 == process2 && n1 == n2
  {
    var rest1, rest2 := process1 + "_" + Pad2(n1), process2 + "_" + Pad2(n2);
    JobNameSpelled(pol1, process1, n1);
    JobNameSpelled(pol2, process2, n2);
    SplitAtSeparator(pol1, rest1, pol2, rest2);
    SplitAtSeparator(process1, Pad2(n1), process2, Pad2(n2));
    Pad2RoundTrip(n1);
    Pad2RoundTrip(n2);
  }

  // ---------------------------------------------------------------------------
  // Chunks

  function Min(x: int, y: int): int
  {
    if x < y then x else y
  }

  /** How many offsets range(0, len, step) yields: one for offset 0 of a non-empty list and
      then as many as the rest of the list past the first step gives; none for a negative step
      (a zero step is an error). */
  function NumChunks(len: nat, step: int): nat
    requires step != 0
    decreases len
  {
    if step < 0 || len == 0 then 0
    else if len <= step then 1
    else 1 + NumChunks(len - step, step)
  }

  /** The number of chunks is the least m with m chunks covering the list: ceil(len / step). */
  lemma {:induction false} NumChunksIsCeiling(len: nat, step: int)
    requires step > 0
    ensures NumChunks(len, step) * step >= len
    ensures NumChunks(len, step) > 0 ==> (NumChunks(len, step) - 1) * step < len
    ensures len == 0 ==> NumChunks(len, step) == 0
    decreases len
  {
    if len > step {
      NumChunksIsCeiling(len - step, step);
      var k := NumChunks(len - step, step);
      assert NumChunks(len, step) == k + 1;
      assert (k + 1) * step == k * step + step;
      assert (k - 1) * step + step == k * step;
    }
  }

  lemma MulMonotone(m: nat, n: nat, step: nat)
    requires m <= n
    ensures m * step <= n * step
  {
    assert n * step == m * step + (n - m) * step;
  }

  /** Every chunk index below the count starts inside the list. */
  lemma ChunkStartsInside(len: nat, step: int, n: nat)
    requires step > 0 && n < NumChunks(len, step)
    ensures n * step < len
  {
    NumChunksIsCeiling(len, step);
    MulMonotone(n, NumChunks(len, step) - 1, step);
  }

  /** Chunk n: the slice files[n*step : n*step + step], which Python clamps to the list. */
  function Chunk(files: seq<string>, step: int, n: nat): seq<string>
    requires step != 0 && n < NumChunks(|files|, step)
  {
    ChunkStartsInside(|files|, step, n);
    files[n * step .. Min(n * step + step, |files|)]
  }

  /** Every job holds at least one and at most files_per_job files; all but the last hold
      exactly files_per_job. */
  lemma ChunkSizes(files: seq<string>, step: int, n: nat)
    requires step != 0 && n < NumChunks(|files|, step)
    ensures 1 <= |Chunk(files, step, n)| <= step
    ensures n + 1 < NumChunks(|files|, step) ==> |Chunk(files, step, n)| == step
  {
    ChunkStartsInside(|files|, step, n);
    if n + 1 < NumChunks(|files|, step) {
      ChunkStartsInside(|files|, step, n + 1);
      assert (n + 1) * step == n * step + step;
    }
  }

  /** The chunks 0 .. m-1 joined in order. */
  function JoinedChunks(files: seq<string>, step: int, m: nat): seq<string>
    requires step != 0 && m <= NumChunks(|files|, step)
  {
    if m == 0 then [] else JoinedChunks(files, step, m - 1) + Chunk(files, step, m - 1)
  }

  lemma ChunkExtendsPrefix(files: seq<string>, step: int, n: nat)
    requires step > 0 && n < NumChunks(|files|, step)
    ensures files[..Min(n * step, |files|)] + Chunk(files, step, n) == files[..Min((n + 1) * step, |files|)]
  {
    ChunkStartsInside(|files|, step, n);
    var start := n * step;
    var end := Min(start + step, |files|);
    assert (n + 1) * step == start + step;
    assert files[..start] + files[start..end] == files[..end];
  }

  /** Joining the first m chunks gives the list up to the m-th offset; joining all of them
      gives back the whole list. */
  lemma {:induction false} JoinedChunksArePrefix(files: seq<string>, step: int, m: nat)
    requires step > 0 && m <= NumChunks(|files|, step)
    ensures JoinedChunks(files, step, m) == files[..Min(m * step, |files|)]
    ensures m == NumChunks(|files|, step) ==> JoinedChunks(files, step, m) == files
  {
    if m > 0 {
      JoinedChunksArePrefix(files, step, m - 1);
      ChunkExtendsPrefix(files, step, m - 1);
    }
    if m == NumChunks(|files|, step) {
      NumChunksIsCeiling(|files|, step);
      assert files[..|files|] == files;
    }
  }

  // ---------------------------------------------------------------------------
  // The job dictionary

  const ZeroStepError := "ValueError: range() arg 3 must not be zero"

  /** The jobs after chunks 0 .. m-1 of one (polarisation, process) file list are stored;
      a later store under an existing name overwrites it. */
  function WithChunks(jobs: map<string, seq<string>>, pol: string, process: string,
                      files: seq<string>, step: int, m: nat): map<string, seq<string>>
    requires step != 0 && m <= NumChunks(|files|, step)
  {
    if m == 0 then jobs
    else WithChunks(jobs, pol, process, files, step, m - 1)[JobName(pol, process, m - 1) := Chunk(files, step, m - 1)]
  }

  /** The jobs after the first q requested processes have been looked up in the files of
      polarisation pol: an absent process is skipped, a present one with a zero step raises. */
  function WithProcesses(jobs: map<string, seq<string>>, pol: string, present: map<string, seq<string>>,
                         processes: seq<string>, step: int, q: nat): Result<map<string, seq<string>>>
    requires q <= |processes|
  {
    if q == 0 then Success(jobs)
    else match WithProcesses(jobs, pol, present, processes, step, q - 1)
      case Failure(e) => Failure(e)
      case Success(sofar) =>
        var process := processes[q - 1];
        if process !in present then Success(sofar)
        else if step == 0 then Failure(ZeroStepError)
        else
          var files := present[process];
          Success(WithChunks(sofar, pol, process, files, step, NumChunks(|files|, step)))
  }

  /** The polarisations in the order the file dictionary yields them, each once. */
  predicate OrderedKeys(pols: seq<string>, newFiles: map<string, map<string, seq<string>>>)
  {
    && (forall i | 0 <= i < |pols| :: pols[i] in newFiles)
    && (forall pol | pol in newFiles :: pol in pols)
    && (forall i, j | 0 <= i < j < |pols| :: pols[i] != pols[j])
  }

  /** The jobs after the first p polarisations. */
  function WithPolarisations(pols: seq<string>, newFiles: map<string, map<string, seq<string>>>,
                             processes: seq<string>, step: int, p: nat): Result<map<string, seq<string>>>
    requires p <= |pols| && forall i | 0 <= i < |pols| :: pols[i] in newFiles
  {
    if p == 0 then Success(map[])
    else match WithPolarisations(pols, newFiles, processes, step, p - 1)
      case Failure(e) => Failure(e)
      case Success(sofar) =>
        WithProcesses(sofar, pols[p - 1], newFiles[pols[p - 1]], processes, step, |processes|)
  }

  /** getJobDict: the file dictionary is an input (pols gives the order of its keys); the
      nested loops store every chunk of every requested process present for a polarisation. */
  method GetJobDict(processes: seq<string>, filesPerJob: int, pols: seq<string>,
                    newFiles: map<string, map<string, seq<string>>>)
    returns (result: Result<map<string, seq<string>>>)
    requires OrderedKeys(pols, newFiles)
    ensures result == WithPolarisations(pols, newFiles, processes, filesPerJob, |pols|)
  {
    var jobs: map<string, seq<string>> := map[];
    var p := 0;
    while p < |pols|
      invariant 0 <= p <= |pols|
      invariant WithPolarisations(pols, newFiles, processes, filesPerJob, p) == Success(jobs)
    {
      var pol := pols[p];
      var stored := StoreProcesses(jobs, pol, newFiles[pol], processes, filesPerJob);
      if stored.Failure? {
        PolarisationsFailureSticks(pols, newFiles, processes, filesPerJob, p + 1, |pols|);
        return stored;
      }
      jobs := stored.value;
      p := p + 1;
    }
    return Success(jobs);
  }

  /** The middle loop of getJobDict: the requested processes in order, skipping those absent
      from the files of polarisation pol; range() with a zero step raises. */
  method StoreProcesses(jobs0: map<string, seq<string>>, pol: string, present: map<string, seq<string>>,
                        processes: seq<string>, filesPerJob: int)
    returns (result: Result<map<string, seq<string>>>)
    ensures result == WithProcesses(jobs0, pol, present, processes, filesPerJob, |processes|)
  {
    var jobs := jobs0;
    var q := 0;
    while q < |processes|
      invariant 0 <= q <= |processes|
      invariant WithProcesses(jobs0, pol, present, processes, filesPerJob, q) == Success(jobs)
    {
      var process := processes[q];
      if process !in present {
        q := q + 1;
        continue;
      }
      var unsplitF := present[process];
      if filesPerJob == 0 {
        ProcessesFailureSticks(jobs0, pol, present, processes, filesPerJob, q + 1, |processes|);
        return Failure(ZeroStepError);
      }
      jobs := StoreChunks(jobs, pol, process, unsplitF, filesPerJob);
      q := q + 1;
    }
    return Success(jobs);
  }

  /** The innermost loop of getJobDict: enumerate(range(0, len, files_per_job)) and one store
      per offset, under the next job name. A negative step gives an empty range. */
  method StoreChunks(jobs0: map<string, seq<string>>, pol: string, process: string,
                     unsplitF: seq<string>, filesPerJob: int) returns (jobs: map<string, seq<string>>)
    requires filesPerJob != 0
    ensures jobs == WithChunks(jobs0, pol, process, unsplitF, filesPerJob, NumChunks(|unsplitF|, filesPerJob))
  {
    jobs := jobs0;
    var nJob := 0;
    var i := 0;
    while filesPerJob > 0 && i < |unsplitF|
      invariant nJob <= NumChunks(|unsplitF|, filesPerJob)
      invariant i == nJob * filesPerJob
      invariant jobs == WithChunks(jobs0, pol, process, unsplitF, filesPerJob, nJob)
      decreases |unsplitF| - i
    {
      ChunkIndexInside(|unsplitF|, filesPerJob, nJob);
      assert Chunk(unsplitF, filesPerJob, nJob) == unsplitF[i .. Min(i + filesPerJob, |unsplitF|)];
      jobs := jobs[JobName(pol, process, nJob) := unsplitF[i .. Min(i + filesPerJob, |unsplitF|)]];
      assert (nJob + 1) * filesPerJob == i + filesPerJob;
      nJob := nJob + 1;
      i := i + filesPerJob;
    }
    if filesPerJob > 0 && nJob < NumChunks(|unsplitF|, filesPerJob) {
      ChunkStartsInside(|unsplitF|, filesPerJob, nJob);
    }
  }

  /** An offset inside the list is the offset of a chunk. */
  lemma ChunkIndexInside(len: nat, step: int, n: nat)
    requires step > 0 && n * step < len
    ensures n < NumChunks(len, step)
  {
    NumChunksIsCeiling(len, step);
    if n >= NumChunks(len, step) {
      MulMonotone(NumChunks(len, step), n, step);
    }
  }

  lemma {:induction false} ProcessesFailureSticks(jobs: map<string, seq<string>>, pol: string,
      present: map<string, seq<string>>, processes: seq<string>, step: int, q: nat, q2: nat)
    requires q <= q2 <= |processes| && WithProcesses(jobs, pol, present, processes, step, q).Failure?
    ensures WithProcesses(jobs, pol, present, processes, step, q2) == WithProcesses(jobs, pol, present, processes, step, q)
    decreases q2
  {
    if q < q2 {
      ProcessesFailureSticks(jobs, pol, present, processes, step, q, q2 - 1);
    }
  }

  lemma {:induction false} PolarisationsFailureSticks(pols: seq<string>, newFiles: map<string, map<string, seq<string>>>,
      processes: seq<string>, step: int, p: nat, p2: nat)
    requires p <= p2 <= |pols| && forall i | 0 <= i < |pols| :: pols[i] in newFiles
    requires WithPolarisations(pols, newFiles, processes, step, p).Failure?
    ensures WithPolarisations(pols, newFiles, processes, step, p2) == WithPolarisations(pols, newFiles, processes, step, p)
    decreases p2
  {
    if p < p2 {
      PolarisationsFailureSticks(pols, newFiles, processes, step, p, p2 - 1);
    }
  }

  // ---------------------------------------------------------------------------
  // What the job dictionary holds

  /** The first q requested processes include one present in the files of a polarisation. */
  predicate AnyPresent(present: map<string, seq<string>>, processes: seq<string>, q: nat)
    requires q <= |processes|
  {
    exists j | 0 <= j < q :: processes[j] in present
  }

  lemma {:induction false} ProcessesOutcome(jobs: map<string, seq<string>>, pol: string,
      present: map<string, seq<string>>, processes: seq<string>, step: int, q: nat)
    requires q <= |processes|
    ensures WithProcesses(jobs, pol, present, processes, step, q).Failure? <==>
      step == 0 && AnyPresent(present, processes, q)
    ensures WithProcesses(jobs, pol, present, processes, step, q).Failure? ==>
      WithProcesses(jobs, pol, present, processes, step, q).error == ZeroStepError
  {
    if q > 0 {
      ProcessesOutcome(jobs, pol, present, processes, step, q - 1);
      if AnyPresent(present, processes, q) && !AnyPresent(present, processes, q - 1) {
        assert processes[q - 1] in present;
      }
      if AnyPresent(present, processes, q - 1) {
        var j :| 0 <= j < q - 1 && processes[j] in present;
        assert 0 <= j < q && processes[j] in present;
      }
    }
  }

  /** Some requested process is present for one of the first p polarisations. */
  predicate AnyReached(pols: seq<string>, newFiles: map<string, map<string, seq<string>>>,
                       processes: seq<string>, p: nat)
    requires p <= |pols| && forall i | 0 <= i < |pols| :: pols[i] in newFiles
  {
    exists i | 0 <= i < p :: AnyPresent(newFiles[pols[i]], processes, |processes|)
  }

  /** A files_per_job of 0 raises ValueError exactly when some requested process is present
      for some polarisation; with an empty match it goes unnoticed. Any other value succeeds. */
  lemma {:induction false} ZeroStepFailsIffReached(pols: seq<string>, newFiles: map<string, map<string, seq<string>>>,
      processes: seq<string>, step: int, p: nat)
    requires p <= |pols| && forall i | 0 <= i < |pols| :: pols[i] in newFiles
    ensures WithPolarisations(pols, newFiles, processes, step, p).Failure? <==>
      step == 0 && AnyReached(pols, newFiles, processes, p)
    ensures WithPolarisations(pols, newFiles, processes, step, p).Failure? ==>
      WithPolarisations(pols, newFiles, processes, step, p).error == ZeroStepError
  {
    if p > 0 {
      ZeroStepFailsIffReached(pols, newFiles, processes, step, p - 1);
      match WithPolarisations(pols, newFiles, processes, step, p - 1)
      case Failure(_) =>
        var i :| 0 <= i < p - 1 && AnyPresent(newFiles[pols[i]], processes, |processes|);
        assert 0 <= i < p;
      case Success(sofar) =>
        ProcessesOutcome(sofar, pols[p - 1], newFiles[pols[p - 1]], processes, step, |processes|);
        if AnyReached(pols, newFiles, processes, p) {
          var i :| 0 <= i < p && AnyPresent(newFiles[pols[i]], processes, |processes|);
          if i < p - 1 {
            assert AnyReached(pols, newFiles, processes, p - 1);
          }
        }
    }
  }

  /** key names one of the chunks 0 .. m-1 of a (polarisation, process) pair. */
  predicate NamesChunkBelow(key: string, pol: string, process: string, m: nat)
  {
    m > 0 && (key == JobName(pol, process, m - 1) || NamesChunkBelow(key, pol, process, m - 1))
  }

  /** The chunk index a key of NamesChunkBelow names. */
  lemma {:induction false} ChunkIndexOf(key: string, pol: string, process: string, m: nat) returns (n: nat)
    requires NamesChunkBelow(key, pol, process, m)
    ensures n < m && key == JobName(pol, process, n)
  {
    if key == JobName(pol, process, m - 1) {
      n := m - 1;
    } else {
      n := ChunkIndexOf(key, pol, process, m - 1);
    }
  }

  lemma {:induction false} NamesChunkAt(pol: string, process: string, n: nat, m: nat)
    requires n < m
    ensures NamesChunkBelow(JobName(pol, process, n), pol, process, m)
  {
    if n < m - 1 {
      NamesChunkAt(pol, process, n, m - 1);
    }
  }

  /** The job names written for one (polarisation, process) pair. */
  lemma {:induction false} ChunkKeys(jobs: map<string, seq<string>>, pol: string, process: string,
      files: seq<string>, step: int, m: nat)
    requires step != 0 && m <= NumChunks(|files|, step)
    ensures forall key :: key in WithChunks(jobs, pol, process, files, step, m) <==>
      key in jobs || NamesChunkBelow(key, pol, process, m)
  {
    if m > 0 {
      ChunkKeys(jobs, pol, process, files, step, m - 1);
    }
  }

  /** With a non-zero step the processing of a polarisation succeeds. */
  lemma {:induction false} ProcessesSucceed(jobs: map<string, seq<string>>, pol: string,
      present: map<string, seq<string>>, processes: seq<string>, step: int, q: nat)
    requires q <= |processes| && step != 0
    ensures WithProcesses(jobs, pol, present, processes, step, q).Success?
  {
    if q > 0 {
      ProcessesSucceed(jobs, pol, present, processes, step, q - 1);
    }
  }

  /** key names a chunk of one of the first q requested processes present for the polarisation. */
  predicate NamesProcessChunk(key: string, pol: string, present: map<string, seq<string>>,
                              processes: seq<string>, step: int, q: nat)
    requires q <= |processes| && step != 0
  {
    q > 0 &&
    ((processes[q - 1] in present &&
      NamesChunkBelow(key, pol, processes[q - 1], NumChunks(|present[processes[q - 1]]|, step))) ||
     NamesProcessChunk(key, pol, present, processes, step, q - 1))
  }

  /** The process index a key of NamesProcessChunk names. */
  lemma {:induction false} ProcessIndexOf(key: string, pol: string, present: map<string, seq<string>>,
      processes: seq<string>, step: int, q: nat) returns (j: nat)
    requires q <= |processes| && step != 0
    requires NamesProcessChunk(key, pol, present, processes, step, q)
    ensures j < q && processes[j] in present
    ensures NamesChunkBelow(key, pol, processes[j], NumChunks(|present[processes[j]]|, step))
  {
    if processes[q - 1] in present &&
       NamesChunkBelow(key, pol, processes[q - 1], NumChunks(|present[processes[q - 1]]|, step)) {
      j := q - 1;
    } else {
      j := ProcessIndexOf(key, pol, present, processes, step, q - 1);
    }
  }

  lemma {:induction false} NamesProcessAt(key: string, pol: string, present: map<string, seq<string>>,
      processes: seq<string>, step: int, j: nat, q: nat)
    requires j < q <= |processes| && step != 0 && processes[j] in present
    requires NamesChunkBelow(key, pol, processes[j], NumChunks(|present[processes[j]]|, step))
    ensures NamesProcessChunk(key, pol, present, processes, step, q)
  {
    if j < q - 1 {
      NamesProcessAt(key, pol, present, processes, step, j, q - 1);
    }
  }

  /** With a non-zero step the processes of one polarisation add exactly the names of the
      chunks of the requested processes that are present; absent ones add nothing. */
  lemma {:induction false} ProcessKeys(jobs: map<string, seq<string>>, pol: string,
      present: map<string, seq<string>>, processes: seq<string>, step: int, q: nat)
    requires q <= |processes| && step != 0
    ensures WithProcesses(jobs, pol, present, processes, step, q).Success?
    ensures forall key :: key in WithProcesses(jobs, pol, present, processes, step, q).value <==>
      key in jobs || NamesProcessChunk(key, pol, present, processes, step, q)
  {
    ProcessesSucceed(jobs, pol, present, processes, step, q);
    if q > 0 {
      ProcessKeys(jobs, pol, present, processes, step, q - 1);
      var sofar := WithProcesses(jobs, pol, present, processes, step, q - 1).value;
      var process := processes[q - 1];
      if process in present {
        var m := NumChunks(|present[process]|, step);
        assert WithProcesses(jobs, pol, present, processes, step, q).value ==
          WithChunks(sofar, pol, process, present[process], step, m);
        ChunkKeys(sofar, pol, process, present[process], step, m);
      } else {
        assert WithProcesses(jobs, pol, present, processes, step, q).value == sofar;
      }
    }
  }

  /** Job (i, j, n) exists: polarisation i lists requested process j, and n is one of its
      chunk indices. */
  predicate Qualifies(pols: seq<string>, newFiles: map<string, map<string, seq<string>>>,
                      processes: seq<string>, step: int, i: int, j: int, n: int)
  {
    && 0 <= i < |pols| && pols[i] in newFiles
    && 0 <= j < |processes| && processes[j] in newFiles[pols[i]]
    && step != 0 && 0 <= n < NumChunks(|newFiles[pols[i]][processes[j]]|, step)
  }

  /** key names a job of one of the first p polarisations. */
  predicate NamesJob(key: string, pols: seq<string>, newFiles: map<string, map<string, seq<string>>>,
                     processes: seq<string>, step: int, p: nat)
    requires p <= |pols| && step != 0
  {
    p > 0 &&
    ((pols[p - 1] in newFiles &&
      NamesProcessChunk(key, pols[p - 1], newFiles[pols[p - 1]], processes, step, |processes|)) ||
     NamesJob(key, pols, newFiles, processes, step, p - 1))
  }

  /** The polarisation index a key of NamesJob names. */
  lemma {:induction false} PolarisationIndexOf(key: string, pols: seq<string>,
      newFiles: map<string, map<string, seq<string>>>, processes: seq<string>, step: int, p: nat)
    returns (i: nat)
    requires p <= |pols| && step != 0 && NamesJob(key, pols, newFiles, processes, step, p)
    ensures i < p && pols[i] in newFiles
    ensures NamesProcessChunk(key, pols[i], newFiles[pols[i]], processes, step, |processes|)
  {
    if pols[p - 1] in newFiles &&
       NamesProcessChunk(key, pols[p - 1], newFiles[pols[p - 1]], processes, step, |processes|) {
      i := p - 1;
    } else {
      i := PolarisationIndexOf(key, pols, newFiles, processes, step, p - 1);
    }
  }

  lemma {:induction false} NamesJobAt(key: string, pols: seq<string>,
      newFiles: map<string, map<string, seq<string>>>, processes: seq<string>, step: int, i: nat, p: nat)
    requires i < p <= |pols| && step != 0 && pols[i] in newFiles
    requires NamesProcessChunk(key, pols[i], newFiles[pols[i]], processes, step, |processes|)
    ensures NamesJob(key, pols, newFiles, processes, step, p)
  {
    if i < p - 1 {
      NamesJobAt(key, pols, newFiles, processes, step, i, p - 1);
    }
  }

  lemma {:induction false} PolarisationKeys(pols: seq<string>, newFiles: map<string, map<string, seq<string>>>,
      processes: seq<string>, step: int, p: nat)
    requires p <= |pols| && forall i | 0 <= i < |pols| :: pols[i] in newFiles
    requires step != 0
    ensures WithPolarisations(pols, newFiles, processes, step, p).Success?
    ensures forall key :: key in WithPolarisations(pols, newFiles, processes, step, p).value <==>
      NamesJob(key, pols, newFiles, processes, step, p)
  {
    PolarisationsSucceed(pols, newFiles, processes, step, p);
    if p > 0 {
      PolarisationKeys(pols, newFiles, processes, step, p - 1);
      var sofar := WithPolarisations(pols, newFiles, processes, step, p - 1).value;
      var pol := pols[p - 1];
      assert WithPolarisations(pols, newFiles, processes, step, p) ==
        WithProcesses(sofar, pol, newFiles[pol], processes, step, |processes|);
      ProcessKeys(sofar, pol, newFiles[pol], processes, step, |processes|);
    }
  }

  /** With a non-zero step the dictionary holds exactly the names of the jobs that exist. */
  lemma JobKeys(pols: seq<string>, newFiles: map<string, map<string, seq<string>>>,
      processes: seq<string>, step: int, p: nat)
    requires p <= |pols| && forall i | 0 <= i < |pols| :: pols[i] in newFiles
    requires step != 0
    ensures WithPolarisations(pols, newFiles, processes, step, p).Success?
    ensures forall key :: key in WithPolarisations(pols, newFiles, processes, step, p).value <==>
      exists i, j, n | i < p && Qualifies(pols, newFiles, processes, step, i, j, n) ::
        key == JobName(pols[i], processes[j], n)
  {
    PolarisationKeys(pols, newFiles, processes, step, p);
    var jobs := WithPolarisations(pols, newFiles, processes, step, p).value;
    forall key | key in jobs
      ensures exists i, j, n | i < p && Qualifies(pols, newFiles, processes, step, i, j, n) ::
        key == JobName(pols[i], processes[j], n)
    {
      var i := PolarisationIndexOf(key, pols, newFiles, processes, step, p);
      var j := ProcessIndexOf(key, pols[i], newFiles[pols[i]], processes, step, |processes|);
      var n := ChunkIndexOf(key, pols[i], processes[j], NumChunks(|newFiles[pols[i]][processes[j]]|, step));
      assert Qualifies(pols, newFiles, processes, step, i, j, n);
    }
    forall i, j, n | i < p && Qualifies(pols, newFiles, processes, step, i, j, n)
      ensures JobName(pols[i], processes[j], n) in jobs
    {
      var key := JobName(pols[i], processes[j], n);
      NamesChunkAt(pols[i], processes[j], n, NumChunks(|newFiles[pols[i]][processes[j]]|, step));
      NamesProcessAt(key, pols[i], newFiles[pols[i]], processes, step, j, |processes|);
      NamesJobAt(key, pols, newFiles, processes, step, i, p);
    }
  }

  /** With a non-zero step getJobDict succeeds. */
  lemma {:induction false} PolarisationsSucceed(pols: seq<string>, newFiles: map<string, map<string, seq<string>>>,
      processes: seq<string>, step: int, p: nat)
    requires p <= |pols| && forall i | 0 <= i < |pols| :: pols[i] in newFiles
    requires step != 0
    ensures WithPolarisations(pols, newFiles, processes, step, p).Success?
  {
    if p > 0 {
      PolarisationsSucceed(pols, newFiles, processes, step, p - 1);
      var sofar := WithPolarisations(pols, newFiles, processes, step, p - 1).value;
      ProcessesSucceed(sofar, pols[p - 1], newFiles[pols[p - 1]], processes, step, |processes|);
    }
  }

  predicate AllNoSeparator(pols: seq<string>, processes: seq<string>)
  {
    (forall i | 0 <= i < |pols| :: NoSeparator(pols[i])) &&
    (forall j | 0 <= j < |processes| :: NoSeparator(processes[j]))
  }

  /** Every stored job that exists holds its own chunk. */
  ghost predicate Consistent(pols: seq<string>, newFiles: map<string, map<string, seq<string>>>,
                             processes: seq<string>, step: int, jobs: map<string, seq<string>>)
  {
    forall i, j, n | Qualifies(pols, newFiles, processes, step, i, j, n) && JobName(pols[i], processes[j], n) in jobs ::
      jobs[JobName(pols[i], processes[j], n)] == Chunk(newFiles[pols[i]][processes[j]], step, n)
  }

  lemma {:induction false} ConsistentChunks(pols: seq<string>, newFiles: map<string, map<string, seq<string>>>,
      processes: seq<string>, step: int, jobs: map<string, seq<string>>, i0: nat, j0: nat, m: nat)
    requires AllNoSeparator(pols, processes) && Consistent(pols, newFiles, processes, step, jobs)
    requires i0 < |pols| && pols[i0] in newFiles && j0 < |processes| && processes[j0] in newFiles[pols[i0]]
    requires step != 0 && m <= NumChunks(|newFiles[pols[i0]][processes[j0]]|, step)
    ensures Consistent(pols, newFiles, processes, step,
      WithChunks(jobs, pols[i0], processes[j0], newFiles[pols[i0]][processes[j0]], step, m))
  {
    if m > 0 {
      var pol0, process0 := pols[i0], processes[j0];
      var files := newFiles[pol0][process0];
      ConsistentChunks(pols, newFiles, processes, step, jobs, i0, j0, m - 1);
      var before := WithChunks(jobs, pol0, process0, files, step, m - 1);
      var after := before[JobName(pol0, process0, m - 1) := Chunk(files, step, m - 1)];
      forall i, j, n | Qualifies(pols, newFiles, processes, step, i, j, n) && JobName(pols[i], processes[j], n) in after
        ensures after[JobName(pols[i], processes[j], n)] == Chunk(newFiles[pols[i]][processes[j]], step, n)
      {
        if JobName(pols[i], processes[j], n) == JobName(pol0, process0, m - 1) {
          JobNameInjective(pols[i], processes[j], n, pol0, process0, m - 1);
        }
      }
    }
  }

  lemma {:induction false} ConsistentProcesses(pols: seq<string>, newFiles: map<string, map<string, seq<string>>>,
      processes: seq<string>, step: int, jobs: map<string, seq<string>>, i0: nat, q: nat)
    requires AllNoSeparator(pols, processes) && Consistent(pols, newFiles, processes, step, jobs)
    requires i0 < |pols| && pols[i0] in newFiles && q <= |processes| && step != 0
    ensures WithProcesses(jobs, pols[i0], newFiles[pols[i0]], processes, step, q).Success?
    ensures Consistent(pols, newFiles, processes, step,
      WithProcesses(jobs, pols[i0], newFiles[pols[i0]], processes, step, q).value)
  {
    ProcessesSucceed(jobs, pols[i0], newFiles[pols[i0]], processes, step, q);
    if q > 0 {
      ConsistentProcesses(pols, newFiles, processes, step, jobs, i0, q - 1);
      var sofar := WithProcesses(jobs, pols[i0], newFiles[pols[i0]], processes, step, q - 1).value;
      if processes[q - 1] in newFiles[pols[i0]] {
        var files := newFiles[pols[i0]][processes[q - 1]];
        assert WithProcesses(jobs, pols[i0], newFiles[pols[i0]], processes, step, q).value ==
          WithChunks(sofar, pols[i0], processes[q - 1], files, step, NumChunks(|files|, step));
        ConsistentChunks(pols, newFiles, processes, step, sofar, i0, q - 1, NumChunks(|files|, step));
      } else {
        assert WithProcesses(jobs, pols[i0], newFiles[pols[i0]], processes, step, q).value == sofar;
      }
    }
  }

  /** When no polarisation or process name contains '_' (so names cannot collide) and the
      step is not zero, the job named pol_process_NN holds chunk NN of that file list (with a
      negative step there are no chunks and no jobs). */
  lemma {:induction false} JobValues(pols: seq<string>, newFiles: map<string, map<string, seq<string>>>,
      processes: seq<string>, step: int, p: nat)
    requires p <= |pols| && forall i | 0 <= i < |pols| :: pols[i] in newFiles
    requires AllNoSeparator(pols, processes) && step != 0
    ensures WithPolarisations(pols, newFiles, processes, step, p).Success?
    ensures forall i, j, n | i < p && Qualifies(pols, newFiles, processes, step, i, j, n) ::
      && JobName(pols[i], processes[j], n) in WithPolarisations(pols, newFiles, processes, step, p).value
      && WithPolarisations(pols, newFiles, processes, step, p).value[JobName(pols[i], processes[j], n)]
         == Chunk(newFiles[pols[i]][processes[j]], step, n)
  {
    JobKeys(pols, newFiles, processes, step, p);
    ConsistentPolarisations(pols, newFiles, processes, step, p);
  }

  lemma {:induction false} ConsistentPolarisations(pols: seq<string>, newFiles: map<string, map<string, seq<string>>>,
      processes: seq<string>, step: int, p: nat)
    requires p <= |pols| && forall i | 0 <= i < |pols| :: pols[i] in newFiles
    requires AllNoSeparator(pols, processes) && step != 0
    ensures WithPolarisations(pols, newFiles, processes, step, p).Success?
    ensures Consistent(pols, newFiles, processes, step, WithPolarisations(pols, newFiles, processes, step, p).value)
  {
    PolarisationsSucceed(pols, newFiles, processes, step, p);
    if p > 0 {
      ConsistentPolarisations(pols, newFiles, processes, step, p - 1);
      var sofar := WithPolarisations(pols, newFiles, processes, step, p - 1).value;
      assert WithPolarisations(pols, newFiles, processes, step, p) ==
        WithProcesses(sofar, pols[p - 1], newFiles[pols[p - 1]], processes, step, |processes|);
      ConsistentProcesses(pols, newFiles, processes, step, sofar, p - 1, |processes|);
    }
  }
}
