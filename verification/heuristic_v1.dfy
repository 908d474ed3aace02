/**
 * heuristic.py, the earlier version of the heuristics. Its `no_var_heur`, `degree`, `mrv`,
 * `random_variable` and `random_value` are the same as in heuristics.py and are shared
 * with module VariableHeuristics; only the two dispatchers differ. The earlier variable
 * dispatcher knows three names and the value dispatcher knows only `random`, and it does
 * not receive the assignments or the domains.
 */
module HeuristicV1 {

  import opened Wrappers
  import opened Lex
  import opened VariableHeuristics
  import opened ValueHeuristics
  import Heuristics

  /** The earlier `variable_heuristic`. */
  function VariableHeuristic(domains: seq<Entry>, vconstraints: map<int, seq<Constraint>>,
                             heuristic: string, draws: seq<nat>): (r: seq<seq<int>>)
    requires heuristic == "degree" ==> ConstraintsListed(vconstraints, domains)
    ensures multiset(Lasts(r)) == multiset(Variables(domains))
    ensures heuristic in {"degree", "mrv"} ==> Sorted(r)
    ensures heuristic !in {"degree", "mrv", "random"} ==> r == NoVarHeur(domains)
  {
    if heuristic == "degree" then Degree(vconstraints, domains)
    else if heuristic == "mrv" then Mrv(domains)
    else if heuristic == "random" then RandomVariable(domains, draws)
    else NoVarHeur(domains)
  }

  /** The earlier `value_heuristic`. */
  function ValueHeuristic(domain: seq<int>, heuristic: string, draws: seq<nat>): (r: seq<int>)
    ensures multiset(r) == multiset(domain)
    ensures heuristic != "random" ==> r == domain
  {
    if heuristic == "random" then RandomValue(domain, draws) else domain
  }

  /**
   * The two versions order variables alike, except that the earlier one treats `deg+mrv`
   * and `mrv+random` as unknown names and applies no heuristic.
   */
  lemma VariableDispatchAgrees(domains: seq<Entry>, vconstraints: map<int, seq<Constraint>>,
                               heuristic: string, draws: seq<nat>)
    requires Heuristics.ReadsConstraints(heuristic) ==> ConstraintsListed(vconstraints, domains)
    ensures heuristic !in {"deg+mrv", "mrv+random"} ==>
      VariableHeuristic(domains, vconstraints, heuristic, draws) ==
      Heuristics.VariableHeuristic(domains, vconstraints, heuristic, draws)
    ensures heuristic in {"deg+mrv", "mrv+random"} ==>
      VariableHeuristic(domains, vconstraints, heuristic, draws) == NoVarHeur(domains)
  {
  }

  /**
   * The two versions order values alike, except that the earlier one leaves the domain
   * as it is for `lcv` and `least_used`.
   */
  lemma ValueDispatchAgrees(assignments: seq<Assignment>, domains: seq<Entry>, domain: seq<int>,
                            heuristic: string, draws: seq<nat>)
    ensures heuristic !in {"lcv", "least_used"} ==>
      Some(ValueHeuristic(domain, heuristic, draws)) ==
      Heuristics.ValueHeuristic(assignments, domains, domain, heuristic, draws)
    ensures heuristic in {"lcv", "least_used"} ==> ValueHeuristic(domain, heuristic, draws) == domain
  {
  }
}
