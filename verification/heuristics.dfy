/**
 * The two entry points of heuristics.py that the solver calls: one picks the order in
 * which unassigned variables are tried, the other the order in which the values of the
 * chosen variable are tried. Each dispatches on the heuristic's name and falls back to
 * "no heuristic" for a name it does not know.
 */
module Heuristics {

  import opened Wrappers
  import opened Arith
  import opened Lex
  import opened VariableHeuristics
  import opened ValueHeuristics

  /** The variable heuristics that read `vconstraints`, and so need every variable listed there. */
  predicate ReadsConstraints(heuristic: string)
  {
    heuristic == "degree" || heuristic == "deg+mrv"
  }

  predicate KnownVariableHeuristic(heuristic: string)
  {
    heuristic in {"degree", "mrv", "random", "deg+mrv", "mrv+random"}
  }

  predicate KnownValueHeuristic(heuristic: string)
  {
    heuristic in {"random", "lcv", "least_used"}
  }

  /** `variable_heuristic`: the list of key tuples the solver walks, last component the variable. */
  function VariableHeuristic(domains: seq<Entry>, vconstraints: map<int, seq<Constraint>>,
                             heuristic: string, draws: seq<nat>): (r: seq<seq<int>>)
    requires ReadsConstraints(heuristic) ==> ConstraintsListed(vconstraints, domains)
    ensures multiset(Lasts(r)) == multiset(Variables(domains))
    ensures |r| == |domains|
    ensures heuristic in {"degree", "mrv", "deg+mrv"} ==> Sorted(r)
    ensures heuristic == "degree" ==> multiset(r) == multiset(DegreeKeys(vconstraints, domains))
    ensures heuristic == "mrv" ==> multiset(r) == multiset(MrvKeys(domains))
    ensures heuristic == "deg+mrv" ==> multiset(r) == multiset(DegreeMrvKeys(vconstraints, domains))
    ensures heuristic == "random" ==> multiset(r) == multiset(NoVarHeur(domains))
    ensures heuristic == "mrv+random" ==> multiset(r) == multiset(Mrv(domains))
    ensures heuristic == "mrv+random" ==>
      forall i :: 0 <= i < |r| && !Moves(Window(Mrv(domains), |domains| - 1), i) ==> r[i] == Mrv(domains)[i]
    ensures !KnownVariableHeuristic(heuristic) ==> r == NoVarHeur(domains)
  {
    var r :=
      if heuristic == "degree" then Degree(vconstraints, domains)
      else if heuristic == "mrv" then Mrv(domains)
      else if heuristic == "random" then RandomVariable(domains, draws)
      else if heuristic == "deg+mrv" then DegreeAndMrv(vconstraints, domains)
      else if heuristic == "mrv+random" then MrvAndRandomAsWritten(domains, draws)
      else NoVarHeur(domains);
    OfferedLength(r, domains);
    r
  }

  /** `variable_heuristic` with `mrv_and_random`'s window corrected to end at `len(domains)`. */
  function VariableHeuristicCorrected(domains: seq<Entry>, vconstraints: map<int, seq<Constraint>>,
                                      heuristic: string, draws: seq<nat>): (r: seq<seq<int>>)
    requires ReadsConstraints(heuristic) ==> ConstraintsListed(vconstraints, domains)
    ensures multiset(Lasts(r)) == multiset(Variables(domains))
    ensures |r| == |domains|
    ensures heuristic in {"degree", "mrv", "deg+mrv"} ==> Sorted(r)
    ensures heuristic == "degree" ==> multiset(r) == multiset(DegreeKeys(vconstraints, domains))
    ensures heuristic == "mrv" ==> multiset(r) == multiset(MrvKeys(domains))
    ensures heuristic == "deg+mrv" ==> multiset(r) == multiset(DegreeMrvKeys(vconstraints, domains))
    ensures heuristic == "random" ==> multiset(r) == multiset(NoVarHeur(domains))
    ensures heuristic == "mrv+random" ==> multiset(r) == multiset(Mrv(domains))
    ensures heuristic == "mrv+random" ==>
      forall i :: 0 <= i < |r| && !Moves(Window(Mrv(domains), |domains|), i) ==> r[i] == Mrv(domains)[i]
    ensures !KnownVariableHeuristic(heuristic) ==> r == NoVarHeur(domains)
  {
    var r :=
      if heuristic == "mrv+random" then MrvAndRandom(domains, draws)
      else VariableHeuristic(domains, vconstraints, heuristic, draws);
    OfferedLength(r, domains);
    r
  }

  /** A list that offers every variable as often as `domains` has it is as long as `domains`. */
  lemma OfferedLength(r: seq<seq<int>>, domains: seq<Entry>)
    requires multiset(Lasts(r)) == multiset(Variables(domains))
    ensures |r| == |domains|
  {
    assert |r| == |Lasts(r)| == |multiset(Lasts(r))| == |multiset(Variables(domains))| == |Variables(domains)|;
  }

  /**
   * The two dispatchers differ only on `mrv+random`. There the code as written never moves
   * the last variable of the sorted list, while the corrected one shuffles every variable tied
   * at the smallest domain length other than 1.
   */
  lemma CorrectionOnlyTouchesMrvAndRandom(domains: seq<Entry>, vconstraints: map<int, seq<Constraint>>,
                                          heuristic: string, draws: seq<nat>)
    requires ReadsConstraints(heuristic) ==> ConstraintsListed(vconstraints, domains)
    ensures heuristic != "mrv+random" ==>
      VariableHeuristicCorrected(domains, vconstraints, heuristic, draws) ==
      VariableHeuristic(domains, vconstraints, heuristic, draws)
    ensures heuristic == "mrv+random" && |domains| > 0 ==>
      VariableHeuristic(domains, vconstraints, heuristic, draws)[|domains| - 1] == Mrv(domains)[|domains| - 1]
    ensures heuristic == "mrv+random" ==>
      VariableHeuristicCorrected(domains, vconstraints, heuristic, draws) == MrvAndRandom(domains, draws)
  {
    if heuristic == "mrv+random" && |domains| > 0 {
      AsWrittenNeverMovesLast(domains, draws);
    }
  }

  /**
   * Whatever the heuristic, every variable is offered to the solver as often as it has a
   * domain; with distinct variables (dict keys), each exactly once.
   */
  lemma EveryVariableOfferedOnce(domains: seq<Entry>, vconstraints: map<int, seq<Constraint>>,
                                  heuristic: string, draws: seq<nat>, v: int)
    requires ReadsConstraints(heuristic) ==> ConstraintsListed(vconstraints, domains)
    requires forall i, j :: 0 <= i < j < |domains| ==> domains[i].variable != domains[j].variable
    ensures var r := VariableHeuristic(domains, vconstraints, heuristic, draws);
      multiset(Lasts(r))[v] == if v in Variables(domains) then 1 else 0
    ensures var r := VariableHeuristicCorrected(domains, vconstraints, heuristic, draws);
      multiset(Lasts(r))[v] == if v in Variables(domains) then 1 else 0
  {
    var vars := Variables(domains);
    assert Distinct(vars);
    DistinctCount(vars, v);
  }

  /**
   * `value_heuristic`: the values of `domain` in the order to try them, or `None` when
   * `lcv` or `least_used` index their counters out of range.
   */
  function ValueHeuristic(assignments: seq<Assignment>, domains: seq<Entry>, domain: seq<int>,
                          heuristic: string, draws: seq<nat>): (r: Option<seq<int>>)
    ensures r.Some? ==> multiset(r.value) == multiset(domain)
    ensures r.None? ==> heuristic == "lcv" || heuristic == "least_used"
    ensures heuristic == "lcv" ==>
      var vals, k := AllValues(domains), ISqrt(|domains|);
      && (r.Some? <==> AllCountable(vals, k) && AllCountable(domain, k))
      && (r.Some? ==> forall i, j :: 0 <= i < j < |r.value| ==> UsedNoMore(vals, k, r.value[i], r.value[j]))
    ensures heuristic == "least_used" ==>
      var vals, k := AssignedValues(assignments), ISqrt(|domains|);
      && (r.Some? <==> AllCountable(vals, k) && AllCountable(domain, k))
      && (r.Some? ==> forall i, j :: 0 <= i < j < |r.value| ==> UsedNoMore(vals, k, r.value[i], r.value[j]))
    ensures !KnownValueHeuristic(heuristic) ==> r == Some(domain)
  {
    if heuristic == "random" then Some(RandomValue(domain, draws))
    else if heuristic == "lcv" then Lcv(domains, domain)
    else if heuristic == "least_used" then LeastUsed(assignments, domains, domain)
    else Some(domain)
  }
}
