/** The Monte Carlo truth record of one event, as an arena of particles linked by index.
    Codes follow the PDG Monte Carlo particle numbering scheme of the Review of Particle Physics;
    code 94 is the generator's hadronization marker. */
module McParticles {

  /** One truth particle: its signed PDG code, its generator status (1 = stable, not decayed
      further by the generator) and the arena indices of its daughters and parents, in the
      order the record lists them. */
  datatype Particle = Particle(pdg: int, generatorStatus: int, daughters: seq<nat>, parents: seq<nat>)

  type Arena = seq<Particle>

  function Abs(x: int): nat
  {
    if x < 0 then -x else x
  }

  predicate DaughtersAfter(a: Arena, i: nat)
    requires i < |a|
  {
    forall k | 0 <= k < |a[i].daughters| :: i < a[i].daughters[k] < |a|
  }

  predicate ParentsBefore(a: Arena, i: nat)
    requires i < |a|
  {
    forall k | 0 <= k < |a[i].parents| :: a[i].parents[k] < i
  }

  /** Daughters lie strictly after their particle and parents strictly before it. This makes
      the decay graph acyclic in both directions and gives every walk a termination measure. */
  predicate ValidArena(a: Arena)
  {
    forall i | 0 <= i < |a| :: DaughtersAfter(a, i) && ParentsBefore(a, i)
  }

  /** Every index of the work list s names a particle of the arena. */
  predicate InArena(a: Arena, s: seq<nat>)
  {
    forall k | 0 <= k < |s| :: s[k] < |a|
  }

  /** The same, read as membership. */
  lemma InArenaMembers(a: Arena, s: seq<nat>)
    ensures InArena(a, s) <==> forall x | x in s :: x < |a|
  {
    if InArena(a, s) {
      forall x | x in s ensures x < |a| {
        var k :| 0 <= k < |s| && s[k] == x;
      }
    } else {
      var k :| 0 <= k < |s| && s[k] >= |a|;
      assert s[k] in s;
    }
  }

  function Daughters(a: Arena, i: nat): (ds: seq<nat>)
    requires ValidArena(a) && i < |a|
    ensures ds == a[i].daughters
    ensures forall k | 0 <= k < |ds| :: i < ds[k] < |a|
  {
    assert DaughtersAfter(a, i);
    a[i].daughters
  }

  function Parents(a: Arena, i: nat): (ps: seq<nat>)
    requires ValidArena(a) && i < |a|
    ensures ps == a[i].parents
    ensures forall k | 0 <= k < |ps| :: ps[k] < i
  {
    assert ParentsBefore(a, i);
    a[i].parents
  }

  // ---------------------------------------------------------------------------
  // Weights of work lists. The walks of the source pop one particle from a work
  // list and push (some of) its daughters or parents; the total number of paths
  // leaving the listed particles strictly drops at each step.

  /** The sum of w over the work list s, counting repeated entries repeatedly. */
  function Total(s: seq<nat>, w: nat -> nat): nat
  {
    if s == [] then 0 else Total(s[..|s| - 1], w) + w(s[|s| - 1])
  }

  lemma {:induction false} TotalAppend(s: seq<nat>, t: seq<nat>, w: nat -> nat)
    ensures Total(s + t, w) == Total(s, w) + Total(t, w)
    decreases |t|
  {
    if t == [] {
      assert s + t == s;
    } else {
      assert (s + t)[..|s + t| - 1] == s + t[..|t| - 1];
      TotalAppend(s, t[..|t| - 1], w);
    }
  }

  lemma {:induction false} TotalPointwise(s: seq<nat>, w1: nat -> nat, w2: nat -> nat)
    requires forall k | 0 <= k < |s| :: w1(s[k]) == w2(s[k])
    ensures Total(s, w1) == Total(s, w2)
    decreases |s|
  {
    if s != [] {
      TotalPointwise(s[..|s| - 1], w1, w2);
    }
  }

  /** The number of daughter-link paths that start at particle i, i alone included. */
  function Paths(a: Arena, i: nat): (n: nat)
    requires ValidArena(a) && i < |a|
    ensures n >= 1
    decreases |a| - i
  {
    1 + Total(Daughters(a, i), (d: nat) => if i < d < |a| then Paths(a, d) else 0)
  }

  function PathWeight(a: Arena): nat -> nat
  {
    (i: nat) => if ValidArena(a) && i < |a| then Paths(a, i) else 0
  }

  /** Replacing particle i by all its daughters lowers the path weight of a work list by one. */
  lemma PathsOfDaughters(a: Arena, i: nat)
    requires ValidArena(a) && i < |a|
    ensures PathWeight(a)(i) == 1 + Total(Daughters(a, i), PathWeight(a))
  {
    var ds := Daughters(a, i);
    TotalPointwise(ds, (d: nat) => if i < d < |a| then Paths(a, d) else 0, PathWeight(a));
  }

  /** The number of parent-link paths that start at particle i, i alone included. */
  function UpPaths(a: Arena, i: nat): (n: nat)
    requires ValidArena(a) && i < |a|
    ensures n >= 1
    decreases i
  {
    1 + Total(Parents(a, i), (p: nat) => if p < i then UpPaths(a, p) else 0)
  }

  function UpPathWeight(a: Arena): nat -> nat
  {
    (i: nat) => if ValidArena(a) && i < |a| then UpPaths(a, i) else 0
  }

  /** Replacing particle i by all its parents lowers the upward path weight of a work list by one. */
  lemma UpPathsOfParents(a: Arena, i: nat)
    requires ValidArena(a) && i < |a|
    ensures UpPathWeight(a)(i) == 1 + Total(Parents(a, i), UpPathWeight(a))
  {
    var ps := Parents(a, i);
    TotalPointwise(ps, (p: nat) => if p < i then UpPaths(a, p) else 0, UpPathWeight(a));
  }
}
