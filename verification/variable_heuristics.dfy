/**
 * The variable-ordering heuristics of heuristics.py: `no_var_heur`, `degree`, `mrv`,
 * `random_variable`, `degree_and_mrv` and `mrv_and_random`.
 *
 * A variable heuristic turns the `domains` dict into a list of key tuples whose last
 * component is the variable; the solver walks that list in order. Dicts are lists of
 * items in iteration order; tuples are `seq<int>` under Python's tuple order (module Lex);
 * `random.shuffle` takes its draws as a parameter (module Shuffling).
 */
module VariableHeuristics {

  import opened Wrappers
  import opened Arith
  import opened Lex
  import opened Shuffling

  /** One item of the `domains` dict: a variable and its remaining values. */
  datatype Entry = Entry(variable: int, domain: seq<int>)

  /** One item of a variable's constraint list; only the list's length is ever read. */
  datatype Constraint = Constraint(scope: seq<int>)

  /** One item of the `assignments` dict; `None` marks a variable not yet assigned. */
  datatype Assignment = Assignment(variable: int, value: Option<int>)

  /** The variables of `domains` in iteration order. */
  function Variables(domains: seq<Entry>): seq<int>
  {
    seq(|domains|, i requires 0 <= i < |domains| => domains[i].variable)
  }

  /** `vconstraints[variable]` exists for every variable of `domains` (otherwise Python raises KeyError). */
  predicate ConstraintsListed(vconstraints: map<int, seq<Constraint>>, domains: seq<Entry>)
  {
    forall i :: 0 <= i < |domains| ==> domains[i].variable in vconstraints
  }

  /** A key list whose i-th tuple ends with the i-th variable lists the variables in iteration order. */
  lemma LastsOfKeys(keys: seq<seq<int>>, domains: seq<Entry>)
    requires |keys| == |domains|
    requires forall i :: 0 <= i < |keys| ==> Last(keys[i]) == domains[i].variable
    ensures Lasts(keys) == Variables(domains)
  {
    forall i | 0 <= i < |keys|
      ensures Lasts(keys)[i] == Variables(domains)[i]
    {
      LastsAt(keys, i);
    }
  }

  /** A rearrangement of such a key list lists every variable exactly as often as `domains` does. */
  lemma RearrangedKeysListVariables(r: seq<seq<int>>, keys: seq<seq<int>>, domains: seq<Entry>)
    requires multiset(r) == multiset(keys)
    requires Lasts(keys) == Variables(domains)
    ensures multiset(Lasts(r)) == multiset(Variables(domains))
  {
    LastsPermutation(r, keys);
  }

  /** An element of a rearrangement of `keys` is one of the keys. */
  lemma RearrangedMember(r: seq<seq<int>>, keys: seq<seq<int>>, i: int)
    requires multiset(r) == multiset(keys) && 0 <= i < |r|
    ensures exists k :: 0 <= k < |keys| && r[i] == keys[k]
  {
    assert r[i] in multiset(keys);
  }

  // ---------------------------------------------------------------------------
  // Variable heuristics
  // ---------------------------------------------------------------------------

  /** `no_var_heur`: `(1, variable)` for every variable, in iteration order. */
  function NoVarHeur(domains: seq<Entry>): (r: seq<seq<int>>)
    ensures Lasts(r) == Variables(domains)
    ensures forall i :: 0 <= i < |r| ==> |r[i]| == 2 && r[i][0] == 1
  {
    var r := seq(|domains|, i requires 0 <= i < |domains| => [1, domains[i].variable]);
    LastsOfKeys(r, domains);
    r
  }

  function DegreeKey(vconstraints: map<int, seq<Constraint>>, e: Entry): seq<int>
    requires e.variable in vconstraints
  {
    [-|vconstraints[e.variable]|, e.variable]
  }

  /** `(-len(vconstraints[variable]), variable)` for every variable, in iteration order. */
  function DegreeKeys(vconstraints: map<int, seq<Constraint>>, domains: seq<Entry>): (keys: seq<seq<int>>)
    requires ConstraintsListed(vconstraints, domains)
    ensures Lasts(keys) == Variables(domains)
  {
    var keys := seq(|domains|, i requires 0 <= i < |domains| => DegreeKey(vconstraints, domains[i]));
    LastsOfKeys(keys, domains);
    keys
  }

  /** `degree`: the degree keys, sorted. */
  function Degree(vconstraints: map<int, seq<Constraint>>, domains: seq<Entry>): (r: seq<seq<int>>)
    requires ConstraintsListed(vconstraints, domains)
    ensures Sorted(r)
    ensures multiset(r) == multiset(DegreeKeys(vconstraints, domains))
    ensures multiset(Lasts(r)) == multiset(Variables(domains))
  {
    var r := Sort(DegreeKeys(vconstraints, domains));
    RearrangedKeysListVariables(r, DegreeKeys(vconstraints, domains), domains);
    r
  }

  /** Key `a` names a variable in more constraints than `b`'s, or as many and a variable no larger. */
  predicate MoreConstrained(vconstraints: map<int, seq<Constraint>>, a: seq<int>, b: seq<int>)
  {
    |a| == 2 && |b| == 2 && a[1] in vconstraints && b[1] in vconstraints &&
    (|vconstraints[a[1]]| > |vconstraints[b[1]]| ||
     (|vconstraints[a[1]]| == |vconstraints[b[1]]| && a[1] <= b[1]))
  }

  /** Variables in more constraints come first; equal counts go by ascending variable. */
  lemma DegreeOrdersByConstraintCount(vconstraints: map<int, seq<Constraint>>, domains: seq<Entry>)
    requires ConstraintsListed(vconstraints, domains)
    ensures var r := Degree(vconstraints, domains);
      forall i, j :: 0 <= i < j < |r| ==> MoreConstrained(vconstraints, r[i], r[j])
  {
    var r := Degree(vconstraints, domains);
    forall i, j | 0 <= i < j < |r|
      ensures MoreConstrained(vconstraints, r[i], r[j])
    {
      DegreePairOrdered(vconstraints, domains, r, i, j);
    }
  }

  /** Two entries of the sorted degree list, the earlier one first. */
  lemma DegreePairOrdered(vconstraints: map<int, seq<Constraint>>, domains: seq<Entry>, r: seq<seq<int>>, i: int, j: int)
    requires ConstraintsListed(vconstraints, domains) && r == Degree(vconstraints, domains)
    requires 0 <= i < j < |r|
    ensures MoreConstrained(vconstraints, r[i], r[j])
  {
    DegreeKeyOf(vconstraints, domains, r, i);
    DegreeKeyOf(vconstraints, domains, r, j);
    assert LexLe(r[i], r[j]);
    LexLePair(r[i], r[j]);
  }

  /** An entry of the sorted degree list is the degree key of some variable. */
  lemma DegreeKeyOf(vconstraints: map<int, seq<Constraint>>, domains: seq<Entry>, r: seq<seq<int>>, i: int)
    requires ConstraintsListed(vconstraints, domains)
    requires multiset(r) == multiset(DegreeKeys(vconstraints, domains)) && 0 <= i < |r|
    ensures |r[i]| == 2 && r[i][1] in vconstraints && r[i][0] == -|vconstraints[r[i][1]]|
  {
    var keys := DegreeKeys(vconstraints, domains);
    RearrangedMember(r, keys, i);
    var k :| 0 <= k < |keys| && r[i] == keys[k];
    assert keys[k] == DegreeKey(vconstraints, domains[k]);
  }

  function MrvKey(e: Entry): seq<int>
  {
    [|e.domain|, e.variable]
  }

  /** `(len(domains[variable]), variable)` for every variable, in iteration order. */
  function MrvKeys(domains: seq<Entry>): (keys: seq<seq<int>>)
    ensures Lasts(keys) == Variables(domains)
    ensures forall i :: 0 <= i < |keys| ==> |keys[i]| == 2
  {
    var keys := seq(|domains|, i requires 0 <= i < |domains| => MrvKey(domains[i]));
    LastsOfKeys(keys, domains);
    keys
  }

  /** `mrv`: the minimum-remaining-values keys, sorted. */
  function Mrv(domains: seq<Entry>): (r: seq<seq<int>>)
    ensures Sorted(r)
    ensures multiset(r) == multiset(MrvKeys(domains))
    ensures |r| == |domains|
    ensures forall i :: 0 <= i < |r| ==> |r[i]| == 2
    ensures multiset(Lasts(r)) == multiset(Variables(domains))
  {
    var keys := MrvKeys(domains);
    var r := Sort(keys);
    assert |r| == |multiset(r)| == |keys|;
    forall i | 0 <= i < |r|
      ensures |r[i]| == 2
    {
      RearrangedMember(r, keys, i);
    }
    RearrangedKeysListVariables(r, keys, domains);
    r
  }

  /** The head of the MRV list is a variable with the fewest remaining values, the smallest such variable on ties. */
  lemma MrvFrontIsMostConstrained(domains: seq<Entry>)
    requires |domains| > 0
    ensures var r := Mrv(domains);
      && (exists k :: 0 <= k < |domains| && r[0] == [|domains[k].domain|, domains[k].variable])
      && forall k :: 0 <= k < |domains| ==>
           r[0][0] < |domains[k].domain| ||
           (r[0][0] == |domains[k].domain| && r[0][1] <= domains[k].variable)
  {
    var keys := MrvKeys(domains);
    var r := Mrv(domains);
    RearrangedMember(r, keys, 0);
    forall k | 0 <= k < |domains|
      ensures r[0][0] < |domains[k].domain| ||
              (r[0][0] == |domains[k].domain| && r[0][1] <= domains[k].variable)
    {
      assert keys[k] in multiset(r);
      var p :| 0 <= p < |r| && r[p] == keys[k];
      if p == 0 { LexLeReflexive(r[0]); }
      LexLePair(r[0], r[p]);
    }
  }

  /** `random_variable`: `(1, variable)` for every variable, shuffled. */
  function RandomVariable(domains: seq<Entry>, draws: seq<nat>): (r: seq<seq<int>>)
    ensures multiset(r) == multiset(NoVarHeur(domains))
    ensures multiset(Lasts(r)) == multiset(Variables(domains))
  {
    var r := Shuffle(NoVarHeur(domains), draws);
    RearrangedKeysListVariables(r, NoVarHeur(domains), domains);
    r
  }

  function DegreeMrvKey(vconstraints: map<int, seq<Constraint>>, e: Entry): seq<int>
    requires e.variable in vconstraints
  {
    [-|vconstraints[e.variable]|, |e.domain|, e.variable]
  }

  /** `(-len(vconstraints[variable]), len(domains[variable]), variable)` per variable, in iteration order. */
  function DegreeMrvKeys(vconstraints: map<int, seq<Constraint>>, domains: seq<Entry>): (keys: seq<seq<int>>)
    requires ConstraintsListed(vconstraints, domains)
    ensures Lasts(keys) == Variables(domains)
  {
    var keys := seq(|domains|, i requires 0 <= i < |domains| => DegreeMrvKey(vconstraints, domains[i]));
    LastsOfKeys(keys, domains);
    keys
  }

  /** `degree_and_mrv`: degree first, then remaining values, then variable. */
  function DegreeAndMrv(vconstraints: map<int, seq<Constraint>>, domains: seq<Entry>): (r: seq<seq<int>>)
    requires ConstraintsListed(vconstraints, domains)
    ensures Sorted(r)
    ensures multiset(r) == multiset(DegreeMrvKeys(vconstraints, domains))
    ensures multiset(Lasts(r)) == multiset(Variables(domains))
  {
    var r := Sort(DegreeMrvKeys(vconstraints, domains));
    RearrangedKeysListVariables(r, DegreeMrvKeys(vconstraints, domains), domains);
    r
  }

  /**
   * Every tuple of `degree_and_mrv` is `(-degree, remaining values, variable)` of an item of
   * `domains`, and consecutive tuples go by descending degree, then ascending remaining
   * values, then ascending variable.
   */
  lemma DegreeAndMrvOrder(vconstraints: map<int, seq<Constraint>>, domains: seq<Entry>)
    requires ConstraintsListed(vconstraints, domains)
    ensures var r := DegreeAndMrv(vconstraints, domains);
      && (forall i :: 0 <= i < |r| ==>
            exists k :: 0 <= k < |domains| &&
              r[i] == [-|vconstraints[domains[k].variable]|, |domains[k].domain|, domains[k].variable])
      && (forall i, j :: 0 <= i < j < |r| ==>
            r[i][0] < r[j][0] ||
            (r[i][0] == r[j][0] && (r[i][1] < r[j][1] || (r[i][1] == r[j][1] && r[i][2] <= r[j][2]))))
  {
    var keys := DegreeMrvKeys(vconstraints, domains);
    var r := DegreeAndMrv(vconstraints, domains);
    forall i | 0 <= i < |r|
      ensures exists k :: 0 <= k < |domains| && r[i] == DegreeMrvKey(vconstraints, domains[k])
    {
      RearrangedMember(r, keys, i);
    }
    forall i, j | 0 <= i < j < |r|
      ensures r[i][0] < r[j][0] ||
        (r[i][0] == r[j][0] && (r[i][1] < r[j][1] || (r[i][1] == r[j][1] && r[i][2] <= r[j][2])))
    {
      RearrangedMember(r, keys, i);
      RearrangedMember(r, keys, j);
      LexLeTriple(r[i], r[j]);
    }
  }

  // ---------------------------------------------------------------------------
  // mrv_and_random
  // ---------------------------------------------------------------------------

  predicate NonDecreasing(xs: seq<int>)
  {
    forall i, j :: 0 <= i < j < |xs| ==> xs[i] <= xs[j]
  }

  /** `[x[0] for x in lst]`. */
  function Heads(lst: seq<seq<int>>): (heads: seq<int>)
    requires forall i :: 0 <= i < |lst| ==> |lst[i]| > 0
    ensures |heads| == |lst|
  {
    seq(|lst|, i requires 0 <= i < |lst| => lst[i][0])
  }

  /** The first components of a sorted list of non-empty tuples never decrease. */
  lemma SortedHeads(lst: seq<seq<int>>)
    requires Sorted(lst) && forall i :: 0 <= i < |lst| ==> |lst[i]| > 0
    ensures NonDecreasing(Heads(lst))
  {
  }

  lemma ConsNonDecreasing(x: int, rest: seq<int>)
    requires NonDecreasing(rest) && forall y :: y in rest ==> x <= y
    ensures NonDecreasing([x] + rest)
  {
    forall i, j | 0 <= i < j < |[x] + rest|
      ensures ([x] + rest)[i] <= ([x] + rest)[j]
    {
      assert rest[j - 1] in rest;
    }
  }

  /** `[x for x in xs if x != 1]`. */
  function NotOne(xs: seq<int>): (r: seq<int>)
    ensures forall x :: x in r <==> x in xs && x != 1
    ensures NonDecreasing(xs) ==> NonDecreasing(r)
  {
    if |xs| == 0 then []
    else
      var rest := NotOne(xs[1..]);
      assert forall x :: x in xs <==> x == xs[0] || x in xs[1..];
      assert NonDecreasing(xs) ==> forall x :: x in rest ==> xs[0] <= x;
      assert NonDecreasing(xs) ==> NonDecreasing(xs[1..]);
      assert NonDecreasing(xs) ==> NonDecreasing([xs[0]] + rest) by {
        if NonDecreasing(xs) { ConsNonDecreasing(xs[0], rest); }
      }
      if xs[0] != 1 then [xs[0]] + rest else rest
  }

  /** `[x for x in xs if x > bound]`. */
  function Above(xs: seq<int>, bound: int): (r: seq<int>)
    ensures forall x :: x in r <==> x in xs && x > bound
    ensures NonDecreasing(xs) ==> NonDecreasing(r)
  {
    if |xs| == 0 then []
    else
      var rest := Above(xs[1..], bound);
      assert forall x :: x in xs <==> x == xs[0] || x in xs[1..];
      assert NonDecreasing(xs) ==> forall x :: x in rest ==> xs[0] <= x;
      assert NonDecreasing(xs) ==> NonDecreasing(xs[1..]);
      assert NonDecreasing(xs) ==> NonDecreasing([xs[0]] + rest) by {
        if NonDecreasing(xs) { ConsNonDecreasing(xs[0], rest); }
      }
      if xs[0] > bound then [xs[0]] + rest else rest
  }

  /**
   * The slice `[step_idx, step_idx_two)` that mrv_and_random shuffles, or None when every
   * domain has length 1. `fallback` is the end taken when no larger length exists: the
   * source uses `len(domains) - 1`.
   */
  function Window(lst: seq<seq<int>>, fallback: int): (w: Option<(int, int)>)
    requires Sorted(lst) && forall i :: 0 <= i < |lst| ==> |lst[i]| > 0
    requires |lst| - 1 <= fallback <= |lst|
    ensures w.Some? ==> 0 <= w.value.0 <= w.value.1 <= |lst|
  {
    var heads := Heads(lst);
    var first := NotOne(heads);
    if |first| == 0 then None
    else
      assert first[0] in first;
      var lo := IndexOf(heads, first[0]);
      var second := Above(first, first[0]);
      if |second| > 0 then
        assert second[0] in second;
        var hi := IndexOf(heads, second[0]);
        SortedHeads(lst);
        Some((lo, hi))
      else Some((lo, fallback))
  }

  /** Position `i` lies inside the shuffled slice. */
  predicate Moves(w: Option<(int, int)>, i: int)
  {
    w.Some? && w.value.0 <= i < w.value.1
  }

  /** `lst` with the slice `w` replaced by its shuffle (`lst[a:b] = shuffled copy`). */
  function ShuffleSlice(lst: seq<seq<int>>, w: Option<(int, int)>, draws: seq<nat>): (r: seq<seq<int>>)
    requires w.Some? ==> 0 <= w.value.0 <= w.value.1 <= |lst|
    ensures |r| == |lst|
    ensures multiset(r) == multiset(lst)
    ensures forall i :: 0 <= i < |r| && !Moves(w, i) ==> r[i] == lst[i]
  {
    match w
    case None => lst
    case Some((lo, hi)) =>
      var mid := Shuffle(lst[lo..hi], draws);
      Splice(lst, lo, hi, mid);
      lst[..lo] + mid + lst[hi..]
  }

  /** Replacing a slice by a rearrangement of it keeps the elements and everything outside the slice. */
  lemma Splice(lst: seq<seq<int>>, lo: int, hi: int, mid: seq<seq<int>>)
    requires 0 <= lo <= hi <= |lst|
    requires multiset(mid) == multiset(lst[lo..hi])
    ensures |lst[..lo] + mid + lst[hi..]| == |lst|
    ensures multiset(lst[..lo] + mid + lst[hi..]) == multiset(lst)
    ensures forall i :: 0 <= i < |lst| && !(lo <= i < hi) ==> (lst[..lo] + mid + lst[hi..])[i] == lst[i]
  {
    assert |mid| == |multiset(mid)| == hi - lo;
    assert lst == lst[..lo] + lst[lo..hi] + lst[hi..];
  }

  /**
   * `mrv_and_random` exactly as the source computes it: when no length above the smallest
   * length other than 1 exists, the slice ends at `len(domains) - 1`.
   */
  function MrvAndRandomAsWritten(domains: seq<Entry>, draws: seq<nat>): (r: seq<seq<int>>)
    ensures multiset(r) == multiset(Mrv(domains))
    ensures multiset(Lasts(r)) == multiset(Variables(domains))
    ensures forall i :: 0 <= i < |r| && !Moves(Window(Mrv(domains), |domains| - 1), i) ==> r[i] == Mrv(domains)[i]
  {
    var lst := Mrv(domains);
    var r := ShuffleSlice(lst, Window(lst, |domains| - 1), draws);
    LastsPermutation(r, lst);
    r
  }

  /**
   * `mrv_and_random` with the slice ending at `len(domains)` when no larger length exists,
   * so that every variable of the smallest length other than 1 takes part in the shuffle.
   */
  function MrvAndRandom(domains: seq<Entry>, draws: seq<nat>): (r: seq<seq<int>>)
    ensures multiset(r) == multiset(Mrv(domains))
    ensures multiset(Lasts(r)) == multiset(Variables(domains))
    ensures forall i :: 0 <= i < |r| && !Moves(Window(Mrv(domains), |domains|), i) ==> r[i] == Mrv(domains)[i]
  {
    var lst := Mrv(domains);
    var r := ShuffleSlice(lst, Window(lst, |domains|), draws);
    LastsPermutation(r, lst);
    r
  }

  /**
   * The shuffled slice starts at the first entry whose length is the smallest length other
   * than 1, and every entry before it has length 1; there is no slice when every length is 1.
   */
  lemma WindowStart(lst: seq<seq<int>>, fallback: int)
    requires Sorted(lst) && forall i :: 0 <= i < |lst| ==> |lst[i]| > 0
    requires |lst| - 1 <= fallback <= |lst|
    ensures var w := Window(lst, fallback);
      && (w.None? <==> forall i :: 0 <= i < |lst| ==> lst[i][0] == 1)
      && (w.Some? ==>
            && w.value.0 < |lst| && lst[w.value.0][0] != 1
            && (forall i :: 0 <= i < w.value.0 ==> lst[i][0] == 1)
            && (forall i :: 0 <= i < |lst| && lst[i][0] != 1 ==> lst[w.value.0][0] <= lst[i][0]))
  {
    var heads := Heads(lst);
    var first := NotOne(heads);
    SortedHeads(lst);
    if |first| == 0 {
      forall i | 0 <= i < |lst|
        ensures lst[i][0] == 1
      {
        assert heads[i] in heads;
      }
    } else {
      assert first[0] in first;
      var lo := IndexOf(heads, first[0]);
      forall i | 0 <= i < |lst|
        ensures lst[i][0] != 1 ==> first[0] <= lst[i][0]
        ensures i < lo ==> lst[i][0] == 1
      {
        assert heads[i] == lst[i][0] && heads[i] in heads;
        LeastMember(first, heads[i]);
      }
    }
  }

  /** The first item of a non-decreasing sequence is its least member. */
  lemma LeastMember(xs: seq<int>, x: int)
    requires NonDecreasing(xs)
    ensures x in xs ==> xs[0] <= x
  {
    if x in xs {
      var p :| 0 <= p < |xs| && xs[p] == x;
    }
  }

  /**
   * Inside the slice every length is the smallest length other than 1, or 1 itself (which
   * can only happen when that smallest length is 0). The slice ends at the first entry of
   * the next larger length other than 1; when there is none, it ends at `fallback`.
   */
  lemma WindowEnd(lst: seq<seq<int>>, fallback: int)
    requires Sorted(lst) && forall i :: 0 <= i < |lst| ==> |lst[i]| > 0
    requires |lst| - 1 <= fallback <= |lst|
    ensures var w := Window(lst, fallback);
      w.Some? ==>
        var lo, hi := w.value.0, w.value.1;
        && lo < |lst|
        && (forall i :: lo <= i < hi ==> lst[i][0] == lst[lo][0] || lst[i][0] == 1)
        && ((exists i :: 0 <= i < |lst| && lst[i][0] != 1 && lst[i][0] > lst[lo][0]) ==>
              hi < |lst| && lst[hi][0] != 1 && lst[hi][0] > lst[lo][0])
        && (!(exists i :: 0 <= i < |lst| && lst[i][0] != 1 && lst[i][0] > lst[lo][0]) ==> hi == fallback)
  {
    var heads := Heads(lst);
    var first := NotOne(heads);
    SortedHeads(lst);
    if |first| > 0 {
      assert first[0] in first;
      var L := first[0];
      var lo := IndexOf(heads, L);
      var second := Above(first, L);
      if |second| > 0 {
        assert second[0] in second;
        var M := second[0];
        var hi := IndexOf(heads, M);
        forall i | lo <= i < hi
          ensures lst[i][0] == L || lst[i][0] == 1
        {
          assert heads[i] == lst[i][0] && heads[i] in heads;
          LeastMember(first, heads[i]);
          LeastMember(second, heads[i]);
          assert heads[i] <= heads[hi];
        }
      } else {
        forall i | 0 <= i < |lst|
          ensures lst[i][0] != 1 ==> lst[i][0] == L
        {
          assert heads[i] == lst[i][0] && heads[i] in heads;
          LeastMember(first, heads[i]);
          assert heads[i] !in second;
        }
      }
    }
  }

  /** In the source the last entry of the MRV list never moves, whatever the draws. */
  lemma AsWrittenNeverMovesLast(domains: seq<Entry>, draws: seq<nat>)
    requires |domains| > 0
    ensures MrvAndRandomAsWritten(domains, draws)[|domains| - 1] == Mrv(domains)[|domains| - 1]
  {
    var lst := Mrv(domains);
    WindowEnd(lst, |domains| - 1);
    assert !Moves(Window(lst, |domains| - 1), |domains| - 1);
  }

  /** The entries of `Mrv(domains)` are the MRV keys of the items of `domains`. */
  lemma MrvEntries(domains: seq<Entry>)
    ensures var r := Mrv(domains);
      forall i :: 0 <= i < |r| ==> exists k :: 0 <= k < |domains| && r[i] == MrvKey(domains[k])
  {
    var r := Mrv(domains);
    forall i | 0 <= i < |r|
      ensures exists k :: 0 <= k < |domains| && r[i] == MrvKey(domains[k])
    {
      RearrangedMember(r, MrvKeys(domains), i);
    }
  }

  /**
   * With the slice ending at `len(domains)`, and no variable left with an empty domain,
   * the shuffled slice is exactly the set of variables whose domain length is the
   * smallest length other than 1.
   */
  lemma MrvAndRandomShufflesWholeTie(domains: seq<Entry>)
    requires forall k :: 0 <= k < |domains| ==> |domains[k].domain| > 0
    ensures var lst := Mrv(domains);
      var w := Window(lst, |domains|);
      w.Some? ==> forall i :: 0 <= i < |lst| ==> (Moves(w, i) <==> lst[i][0] == lst[w.value.0][0])
  {
    var lst := Mrv(domains);
    MrvEntries(domains);
    forall i | 0 <= i < |lst|
      ensures |lst[i]| > 0 && lst[i][0] >= 1
    {
      var k :| 0 <= k < |domains| && lst[i] == MrvKey(domains[k]);
    }
    if Window(lst, |lst|).Some? {
      forall i | 0 <= i < |lst|
        ensures var w := Window(lst, |lst|); Moves(w, i) <==> lst[i][0] == lst[w.value.0][0]
      {
        WholeTieAt(lst, i);
      }
    }
  }

  /** With no head below 1 and the slice running to the end, position `i` moves exactly when it ties the first. */
  lemma WholeTieAt(lst: seq<seq<int>>, i: int)
    requires Sorted(lst) && forall j :: 0 <= j < |lst| ==> |lst[j]| > 0 && lst[j][0] >= 1
    requires Window(lst, |lst|).Some? && 0 <= i < |lst|
    ensures var w := Window(lst, |lst|); Moves(w, i) <==> lst[i][0] == lst[w.value.0][0]
  {
    var w := Window(lst, |lst|);
    var lo, hi := w.value.0, w.value.1;
    WindowStart(lst, |lst|);
    WindowEnd(lst, |lst|);
    SortedHeads(lst);
    var heads := Heads(lst);
    assert heads[i] == lst[i][0] && heads[lo] == lst[lo][0];
    if hi < |lst| {
      assert heads[hi] == lst[hi][0];
    }
  }

  /** Every arrangement of the shuffled slice is the outcome of some draws. */
  lemma MrvAndRandomReachesEveryOrder(domains: seq<Entry>, t: seq<seq<int>>)
    requires Window(Mrv(domains), |domains|).Some?
    requires var w := Window(Mrv(domains), |domains|);
      multiset(t) == multiset(Mrv(domains)[w.value.0..w.value.1])
    ensures var lst, w := Mrv(domains), Window(Mrv(domains), |domains|);
      exists draws :: MrvAndRandom(domains, draws) == lst[..w.value.0] + t + lst[w.value.1..]
  {
    var lst := Mrv(domains);
    var w := Window(lst, |domains|);
    var draws := DrawsFor(lst[w.value.0..w.value.1], t);
    DrawsForReaches(lst[w.value.0..w.value.1], t);
    assert MrvAndRandom(domains, draws) == lst[..w.value.0] + t + lst[w.value.1..];
  }

  /**
   * Two variables with two values each: the source always returns them in MRV order,
   * while the corrected slice lets the second variable come first.
   */
  lemma AsWrittenNeverSwapsTwoTiedVariables()
    ensures var domains := [Entry(1, [1, 2]), Entry(2, [1, 2])];
      && (forall draws :: MrvAndRandomAsWritten(domains, draws) == [[2, 1], [2, 2]])
      && MrvAndRandom(domains, [0]) == [[2, 2], [2, 1]]
  {
    TwoTiedMrv();
    TwoTiedWindows();
    TwoTiedAsWritten();
    TwoTiedCorrected();
  }

  lemma TwoTiedAsWritten()
    ensures forall draws :: ShuffleSlice([[2, 1], [2, 2]], Some((0, 1)), draws) == [[2, 1], [2, 2]]
  {
    var keys := [[2, 1], [2, 2]];
    assert keys[0..1] == [[2, 1]] && keys[..0] == [] && keys[1..] == [[2, 2]];
  }

  lemma TwoTiedCorrected()
    ensures ShuffleSlice([[2, 1], [2, 2]], Some((0, 2)), [0]) == [[2, 2], [2, 1]]
  {
    var keys := [[2, 1], [2, 2]];
    ShuffleTwo(keys[0], keys[1]);
    assert [keys[0], keys[1]] == keys;
    ShuffleWholeSlice(keys, [0]);
  }

  lemma ShuffleWholeSlice(lst: seq<seq<int>>, draws: seq<nat>)
    ensures ShuffleSlice(lst, Some((0, |lst|)), draws) == Shuffle(lst, draws)
  {
    var mid := Shuffle(lst, draws);
    assert lst[0..|lst|] == lst;
    assert ShuffleSlice(lst, Some((0, |lst|)), draws) == lst[..0] + mid + lst[|lst|..];
    assert lst[..0] + mid + lst[|lst|..] == mid;
  }

  lemma TwoTiedMrv()
    ensures Mrv([Entry(1, [1, 2]), Entry(2, [1, 2])]) == [[2, 1], [2, 2]]
  {
    var domains := [Entry(1, [1, 2]), Entry(2, [1, 2])];
    var keys := [[2, 1], [2, 2]];
    assert MrvKeys(domains) == keys;
    LexLePair(keys[0], keys[1]);
    assert Sorted(keys);
    SortIsCanonical(keys, keys);
  }

  lemma TwoTiedWindows()
    ensures Window([[2, 1], [2, 2]], 1) == Some((0, 1))
    ensures Window([[2, 1], [2, 2]], 2) == Some((0, 2))
  {
    var keys := [[2, 1], [2, 2]];
    LexLePair(keys[0], keys[1]);
    assert Sorted(keys);
    assert Heads(keys) == [2, 2];
    assert NotOne([2, 2]) == [2, 2] by {
      assert [2, 2][1..] == [2];
      assert NotOne([2]) == [2];
    }
    assert Above([2, 2], 2) == [] by {
      assert [2, 2][1..] == [2];
      assert Above([2], 2) == [];
    }
  }
}
