/**
 * The value-ordering heuristics of heuristics.py: `random_value`, `lcv` and `least_used`.
 *
 * `lcv` and `least_used` keep a list `count` of `int(math.sqrt(len(domains)))` counters and
 * bump `count[val - 1]` once per use of `val`. Python accepts the indices `-k .. k - 1` of a
 * list of length `k`, so a value `v <= 0` shares a counter with `v + k`; any other value
 * raises `IndexError`, which the model reports as `None`.
 */
module ValueHeuristics {

  import opened Wrappers
  import opened Arith
  import opened Lex
  import opened Shuffling
  import opened VariableHeuristics

  /** `random_value`: a shuffled copy of the domain. */
  function RandomValue(domain: seq<int>, draws: seq<nat>): (r: seq<int>)
    ensures multiset(r) == multiset(domain)
  {
    Shuffle(domain, draws)
  }

  /** Every arrangement of the domain is the outcome of some draws. */
  lemma RandomValueReachesEveryOrder(domain: seq<int>, t: seq<int>)
    requires multiset(t) == multiset(domain)
    ensures exists draws :: RandomValue(domain, draws) == t
  {
    EveryPermutationReachable(domain, t);
    var draws :| Shuffle(domain, draws) == t;
    assert RandomValue(domain, draws) == t;
  }

  // ---------------------------------------------------------------------------------------
  // Counting uses of a value
  // ---------------------------------------------------------------------------------------

  /** `count[val - 1]` exists in a list of `k` counters. */
  predicate Countable(val: int, k: nat)
  {
    ValidIndex(val - 1, k)
  }

  predicate AllCountable(vals: seq<int>, k: nat)
  {
    forall i :: 0 <= i < |vals| ==> Countable(vals[i], k)
  }

  /** The counter `count[val - 1]` designates. */
  function Slot(val: int, k: nat): nat
    requires Countable(val, k)
  {
    PyIndex(val - 1, k)
  }

  /**
   * How often the counter of `val` is bumped while counting `vals`: the occurrences of
   * `val` plus those of the one other value that shares its counter.
   */
  function Uses(vals: seq<int>, val: int, k: nat): nat
  {
    multiset(vals)[val] + multiset(vals)[if val >= 1 then val - k else val + k]
  }

  /** The counters after `count[val - 1] += 1` for each `val` of `vals`, starting from zeros. */
  function Tally(vals: seq<int>, k: nat): (count: seq<int>)
    requires AllCountable(vals, k)
    ensures |count| == k
    ensures forall j :: 0 <= j < k ==> count[j] == multiset(vals)[j + 1] + multiset(vals)[j + 1 - k]
  {
    if |vals| == 0 then seq(k, _ => 0)
    else
      var rest := Tally(vals[1..], k);
      var j := Slot(vals[0], k);
      assert vals == [vals[0]] + vals[1..];
      rest[j := rest[j] + 1]
  }

  /** Each counter holds the uses of the values it serves. */
  lemma TallyCountsUses(vals: seq<int>, k: nat, val: int)
    requires AllCountable(vals, k) && Countable(val, k)
    ensures Tally(vals, k)[Slot(val, k)] == Uses(vals, val, k)
  {
  }

  /** When no value is below 1, the counter of a positive value holds its occurrences. */
  lemma UsesOfPositiveValues(vals: seq<int>, val: int, k: nat)
    requires forall i :: 0 <= i < |vals| ==> 1 <= vals[i]
    requires 1 <= val <= k
    ensures Uses(vals, val, k) == multiset(vals)[val]
  {
    assert val - k !in vals;
  }

  // ---------------------------------------------------------------------------------------
  // Sorting the domain by count
  // ---------------------------------------------------------------------------------------

  /** `count[val - 1]`. */
  function CountOf(count: seq<int>, val: int): int
    requires Countable(val, |count|)
  {
    count[Slot(val, |count|)]
  }

  /** The tuple `(count[val - 1], val)`. */
  function CountKey(count: seq<int>, val: int): seq<int>
    requires Countable(val, |count|)
  {
    [CountOf(count, val), val]
  }

  /** `x` sorts no later than `y`: fewer counts first, and the smaller value on a tie. */
  predicate Before(count: seq<int>, x: int, y: int)
    requires Countable(x, |count|) && Countable(y, |count|)
  {
    CountOf(count, x) < CountOf(count, y) || (CountOf(count, x) == CountOf(count, y) && x <= y)
  }

  predicate InCountOrder(count: seq<int>, r: seq<int>)
    requires AllCountable(r, |count|)
  {
    forall i, j :: 0 <= i < j < |r| ==> Before(count, r[i], r[j])
  }

  function CountKeys(count: seq<int>, domain: seq<int>): (keys: seq<seq<int>>)
    requires AllCountable(domain, |count|)
    ensures Lasts(keys) == domain
    ensures |keys| == |domain|
  {
    var keys := seq(|domain|, i requires 0 <= i < |domain| => CountKey(count, domain[i]));
    assert forall i :: 0 <= i < |keys| ==> Lasts(keys)[i] == domain[i] by {
      forall i | 0 <= i < |keys|
        ensures Lasts(keys)[i] == domain[i]
      {
        LastsAt(keys, i);
      }
    }
    keys
  }

  /** A rearrangement of countable values is countable. */
  lemma CountablePermuted(r: seq<int>, domain: seq<int>, k: nat)
    requires multiset(r) == multiset(domain) && AllCountable(domain, k)
    ensures AllCountable(r, k)
  {
    forall i | 0 <= i < |r|
      ensures Countable(r[i], k)
    {
      assert r[i] in multiset(domain);
      var j :| 0 <= j < |domain| && domain[j] == r[i];
    }
  }

  /**
   * `[(count[val-1], val) for val in domain]`, sorted, keeping the values: the domain
   * rearranged so that counts never decrease and equal counts keep values ascending.
   */
  function SortByCount(count: seq<int>, domain: seq<int>): (r: seq<int>)
    requires AllCountable(domain, |count|)
    ensures multiset(r) == multiset(domain)
    ensures AllCountable(r, |count|)
    ensures InCountOrder(count, r)
  {
    var keys := CountKeys(count, domain);
    var sorted := Sort(keys);
    var r := Lasts(sorted);
    LastsPermutation(sorted, keys);
    CountablePermuted(r, domain, |count|);
    assert InCountOrder(count, r) by {
      forall i | 0 <= i < |r|
        ensures sorted[i] == CountKey(count, r[i])
      {
        RearrangedMember(sorted, keys, i);
        LastsAt(sorted, i);
      }
      forall i, j | 0 <= i < j < |r|
        ensures Before(count, r[i], r[j])
      {
        LexLePair(sorted[i], sorted[j]);
      }
    }
    r
  }

  /** Two arrangements of the same values, both in count order, are the same list. */
  lemma {:induction false} CountOrderUnique(count: seq<int>, a: seq<int>, b: seq<int>)
    requires multiset(a) == multiset(b)
    requires AllCountable(a, |count|) && AllCountable(b, |count|)
    requires InCountOrder(count, a) && InCountOrder(count, b)
    ensures a == b
    decreases |a|
  {
    assert |a| == |multiset(a)| == |multiset(b)| == |b|;
    if |a| > 0 {
      CountOrderStep(count, a, b);
      CountOrderUnique(count, a[1..], b[1..]);
      assert a == [a[0]] + a[1..];
      assert b == [b[0]] + b[1..];
    }
  }

  /** Two non-empty arrangements of the same values in count order agree at the front, and their tails are again such a pair. */
  lemma CountOrderStep(count: seq<int>, a: seq<int>, b: seq<int>)
    requires multiset(a) == multiset(b) && |a| > 0 && |b| > 0
    requires AllCountable(a, |count|) && AllCountable(b, |count|)
    requires InCountOrder(count, a) && InCountOrder(count, b)
    ensures a[0] == b[0] && multiset(a[1..]) == multiset(b[1..])
    ensures AllCountable(a[1..], |count|) && AllCountable(b[1..], |count|)
    ensures InCountOrder(count, a[1..]) && InCountOrder(count, b[1..])
  {
    CountOrderSameFirst(count, a, b);
    MultisetTail(a);
    MultisetTail(b);
    CountOrderTail(count, a);
    CountOrderTail(count, b);
  }

  /** Two non-empty arrangements of the same values in count order start alike. */
  lemma CountOrderSameFirst(count: seq<int>, a: seq<int>, b: seq<int>)
    requires multiset(a) == multiset(b) && |a| > 0 && |b| > 0
    requires AllCountable(a, |count|) && AllCountable(b, |count|)
    requires InCountOrder(count, a) && InCountOrder(count, b)
    ensures a[0] == b[0]
  {
    assert a[0] in multiset(b);
    var j :| 0 <= j < |b| && b[j] == a[0];
    assert b[0] in multiset(a);
    var i :| 0 <= i < |a| && a[i] == b[0];
    assert j > 0 ==> Before(count, b[0], b[j]);
    assert i > 0 ==> Before(count, a[0], a[i]);
  }

  /** The tail of a list in count order is in count order. */
  lemma CountOrderTail(count: seq<int>, a: seq<int>)
    requires |a| > 0 && AllCountable(a, |count|) && InCountOrder(count, a)
    ensures AllCountable(a[1..], |count|) && InCountOrder(count, a[1..])
  {
    var t := a[1..];
    forall i | 0 <= i < |t|
      ensures Countable(t[i], |count|)
    {
      assert t[i] == a[i + 1];
    }
    forall i, j | 0 <= i < j < |t|
      ensures Before(count, t[i], t[j])
    {
      assert t[i] == a[i + 1] && t[j] == a[j + 1];
    }
  }

  // ---------------------------------------------------------------------------------------
  // lcv and least_used
  // ---------------------------------------------------------------------------------------

  /** The positions of `domains` whose domain list contains `v`. */
  function Holders(domains: seq<Entry>, v: int): set<int>
  {
    set i | 0 <= i < |domains| && v in domains[i].domain
  }

  /** The positions of `assignments` that assign `v`. */
  function Assigners(assignments: seq<Assignment>, v: int): set<int>
  {
    set i | 0 <= i < |assignments| && assignments[i].value == Some(v)
  }

  /** Each domain list holds every value at most once. */
  predicate DistinctDomains(domains: seq<Entry>)
  {
    forall i :: 0 <= i < |domains| ==> Distinct(domains[i].domain)
  }

  predicate Distinct(xs: seq<int>)
  {
    forall i, j :: 0 <= i < j < |xs| ==> xs[i] != xs[j]
  }

  /**
   * Every value of every domain, in dict order: what lines 197-199 of heuristics.py count.
   * When no domain list repeats a value, each value occurs once per list that holds it.
   */
  function AllValues(domains: seq<Entry>): (vals: seq<int>)
    ensures forall v :: v in vals <==> exists i :: 0 <= i < |domains| && v in domains[i].domain
    ensures DistinctDomains(domains) ==> forall v :: multiset(vals)[v] == |Holders(domains, v)|
  {
    if |domains| == 0 then []
    else
      var rest := AllValues(domains[1..]);
      assert forall i :: 1 <= i < |domains| ==> domains[i] == domains[1..][i - 1];
      assert DistinctDomains(domains) ==> forall v :: multiset(domains[0].domain + rest)[v] == |Holders(domains, v)| by {
        if DistinctDomains(domains) {
          assert DistinctDomains(domains[1..]);
          forall v
            ensures multiset(domains[0].domain + rest)[v] == |Holders(domains, v)|
          {
            DistinctCount(domains[0].domain, v);
            HoldersStep(domains, v);
          }
        }
      }
      domains[0].domain + rest
  }

  /** The values the solver has assigned, in dict order, once per assignment; unassigned variables are skipped. */
  function AssignedValues(assignments: seq<Assignment>): (vals: seq<int>)
    ensures forall v :: v in vals <==> exists i :: 0 <= i < |assignments| && assignments[i].value == Some(v)
    ensures forall v :: multiset(vals)[v] == |Assigners(assignments, v)|
  {
    if |assignments| == 0 then []
    else
      var rest := AssignedValues(assignments[1..]);
      assert forall i :: 1 <= i < |assignments| ==> assignments[i] == assignments[1..][i - 1];
      var vals := match assignments[0].value
        case None => rest
        case Some(x) => [x] + rest;
      assert forall v :: multiset(vals)[v] == |Assigners(assignments, v)| by {
        forall v
          ensures multiset(vals)[v] == |Assigners(assignments, v)|
        {
          AssignersStep(assignments, v);
        }
      }
      vals
  }

  /** In a list without repeats every value occurs at most once. */
  lemma {:induction false} DistinctCount(xs: seq<int>, v: int)
    requires Distinct(xs)
    ensures multiset(xs)[v] == if v in xs then 1 else 0
  {
    if |xs| > 0 {
      DistinctCount(xs[1..], v);
      assert xs == [xs[0]] + xs[1..];
      assert xs[0] !in xs[1..];
    }
  }

  /** Every element plus one. */
  function Shifted(xs: set<int>): set<int>
  {
    set i | i in xs :: i + 1
  }

  /** Adding one to every element of a set of indices below `n` keeps the number of elements. */
  lemma {:induction false} ShiftedCard(xs: set<int>, n: nat)
    requires forall i :: i in xs ==> 0 <= i < n
    ensures |Shifted(xs)| == |xs|
  {
    if n > 0 {
      var rest := xs - {n - 1};
      ShiftedCard(rest, n - 1);
      assert n !in Shifted(rest);
      forall y | y in Shifted(xs)
        ensures y in Shifted(rest) || y == n
      {
        var i :| i in xs && y == i + 1;
        if i != n - 1 { assert i in rest; }
      }
      forall y | y in Shifted(rest)
        ensures y in Shifted(xs)
      {
        var i :| i in rest && y == i + 1;
        assert i in xs;
      }
      if n - 1 in xs {
        assert xs == rest + {n - 1};
        assert n in Shifted(xs);
        assert Shifted(xs) == Shifted(rest) + {n};
      } else {
        assert xs == rest;
      }
    } else {
      assert forall i :: i !in xs;
      assert xs == {};
      assert forall y :: y !in Shifted(xs);
      assert Shifted(xs) == {};
    }
  }

  /** The holders of `v` are the first position, if it holds `v`, and the tail's holders shifted by one. */
  lemma HoldersStep(domains: seq<Entry>, v: int)
    requires |domains| > 0
    ensures |Holders(domains, v)| == |Holders(domains[1..], v)| + if v in domains[0].domain then 1 else 0
  {
    var tail := Holders(domains[1..], v);
    var shifted := Shifted(tail);
    ShiftedCard(tail, |domains| - 1);
    var all := Holders(domains, v);
    forall i | i in all && i != 0
      ensures i in shifted
    {
      assert domains[1..][i - 1] == domains[i];
      assert i - 1 in tail;
    }
    forall i | i in shifted
      ensures i in all && i != 0
    {
      var t :| t in tail && i == t + 1;
      assert domains[1..][t] == domains[i];
    }
    if v in domains[0].domain {
      assert all == shifted + {0};
    } else {
      assert all == shifted;
    }
  }

  /** The assigners of `v` are the first position, if it assigns `v`, and the tail's assigners shifted by one. */
  lemma AssignersStep(assignments: seq<Assignment>, v: int)
    requires |assignments| > 0
    ensures |Assigners(assignments, v)| ==
      |Assigners(assignments[1..], v)| + if assignments[0].value == Some(v) then 1 else 0
  {
    var tail := Assigners(assignments[1..], v);
    var shifted := Shifted(tail);
    ShiftedCard(tail, |assignments| - 1);
    var all := Assigners(assignments, v);
    forall i | i in all && i != 0
      ensures i in shifted
    {
      assert assignments[1..][i - 1] == assignments[i];
      assert i - 1 in tail;
    }
    forall i | i in shifted
      ensures i in all && i != 0
    {
      var t :| t in tail && i == t + 1;
      assert assignments[1..][t] == assignments[i];
    }
    if assignments[0].value == Some(v) {
      assert all == shifted + {0};
    } else {
      assert all == shifted;
    }
  }

  /** `x` sorts no later than `y` when ranking by the uses of `vals`, then by value. */
  predicate UsedNoMore(vals: seq<int>, k: nat, x: int, y: int)
  {
    Uses(vals, x, k) < Uses(vals, y, k) || (Uses(vals, x, k) == Uses(vals, y, k) && x <= y)
  }

  /**
   * The domain ordered by how often `vals` uses each value (fewest first, smaller value on a
   * tie) with `k` counters, or `None` when a counter index is out of range.
   */
  function OrderByUses(vals: seq<int>, k: nat, domain: seq<int>): (r: Option<seq<int>>)
    ensures r.Some? <==> AllCountable(vals, k) && AllCountable(domain, k)
    ensures r.Some? ==> multiset(r.value) == multiset(domain)
    ensures r.Some? ==> forall i, j :: 0 <= i < j < |r.value| ==> UsedNoMore(vals, k, r.value[i], r.value[j])
  {
    if AllCountable(vals, k) && AllCountable(domain, k) then
      var count := Tally(vals, k);
      var sorted := SortByCount(count, domain);
      assert forall i, j :: 0 <= i < j < |sorted| ==> UsedNoMore(vals, k, sorted[i], sorted[j]) by {
        forall i, j | 0 <= i < j < |sorted|
          ensures UsedNoMore(vals, k, sorted[i], sorted[j])
        {
          TallyCountsUses(vals, k, sorted[i]);
          TallyCountsUses(vals, k, sorted[j]);
          assert Before(count, sorted[i], sorted[j]);
        }
      }
      Some(sorted)
    else None
  }

  /** Any two results of ordering the same domain by uses are the same list. */
  lemma OrderByUsesUnique(vals: seq<int>, k: nat, domain: seq<int>, t: seq<int>)
    requires OrderByUses(vals, k, domain).Some?
    requires multiset(t) == multiset(domain)
    requires forall i, j :: 0 <= i < j < |t| ==> UsedNoMore(vals, k, t[i], t[j])
    ensures OrderByUses(vals, k, domain).value == t
  {
    var r := OrderByUses(vals, k, domain).value;
    var count := Tally(vals, k);
    CountablePermuted(t, domain, k);
    CountablePermuted(r, domain, k);
    forall a: seq<int>, i, j | AllCountable(a, k) && 0 <= i < j < |a| && UsedNoMore(vals, k, a[i], a[j])
      ensures Before(count, a[i], a[j])
    {
      TallyCountsUses(vals, k, a[i]);
      TallyCountsUses(vals, k, a[j]);
    }
    CountOrderUnique(count, r, t);
  }

  /** `lcv`: the domain ordered by how many domain lists contain each value. */
  function Lcv(domains: seq<Entry>, domain: seq<int>): (r: Option<seq<int>>)
    ensures var vals, k := AllValues(domains), ISqrt(|domains|);
      && (r.Some? <==> AllCountable(vals, k) && AllCountable(domain, k))
      && (r.Some? ==> multiset(r.value) == multiset(domain))
      && (r.Some? ==> forall i, j :: 0 <= i < j < |r.value| ==> UsedNoMore(vals, k, r.value[i], r.value[j]))
  {
    OrderByUses(AllValues(domains), ISqrt(|domains|), domain)
  }

  /** `least_used`: the domain ordered by how many assignments already use each value. */
  function LeastUsed(assignments: seq<Assignment>, domains: seq<Entry>, domain: seq<int>): (r: Option<seq<int>>)
    ensures var vals, k := AssignedValues(assignments), ISqrt(|domains|);
      && (r.Some? <==> AllCountable(vals, k) && AllCountable(domain, k))
      && (r.Some? ==> multiset(r.value) == multiset(domain))
      && (r.Some? ==> forall i, j :: 0 <= i < j < |r.value| ==> UsedNoMore(vals, k, r.value[i], r.value[j]))
  {
    OrderByUses(AssignedValues(assignments), ISqrt(|domains|), domain)
  }

  /**
   * When every counted value and every domain value lies in `1..k`, no two values share a
   * counter, so the order is by plain occurrence counts.
   */
  lemma OrderByOccurrences(vals: seq<int>, k: nat, domain: seq<int>)
    requires forall v :: v in vals ==> 1 <= v <= k
    requires forall v :: v in domain ==> 1 <= v <= k
    ensures OrderByUses(vals, k, domain).Some?
    ensures var r := OrderByUses(vals, k, domain).value;
      forall i, j :: 0 <= i < j < |r| ==>
        multiset(vals)[r[i]] < multiset(vals)[r[j]] ||
        (multiset(vals)[r[i]] == multiset(vals)[r[j]] && r[i] <= r[j])
  {
    assert AllCountable(vals, k) by {
      forall i | 0 <= i < |vals|
        ensures Countable(vals[i], k)
      {
        assert vals[i] in vals;
      }
    }
    assert AllCountable(domain, k) by {
      forall i | 0 <= i < |domain|
        ensures Countable(domain[i], k)
      {
        assert domain[i] in domain;
      }
    }
    var r := OrderByUses(vals, k, domain).value;
    assert forall i :: 0 <= i < |vals| ==> 1 <= vals[i] by {
      forall i | 0 <= i < |vals|
        ensures 1 <= vals[i]
      {
        assert vals[i] in vals;
      }
    }
    forall i | 0 <= i < |r|
      ensures Uses(vals, r[i], k) == multiset(vals)[r[i]]
    {
      assert r[i] in multiset(domain);
      assert r[i] in domain;
      UsesOfPositiveValues(vals, r[i], k);
    }
  }

  /**
   * On a board of side `k` whose domains hold values `1..k` only, `lcv` puts first the
   * values that appear in the fewest domain lists.
   */
  lemma LcvLeastConstrainingFirst(domains: seq<Entry>, domain: seq<int>)
    requires forall i, v :: 0 <= i < |domains| && v in domains[i].domain ==> 1 <= v <= ISqrt(|domains|)
    requires forall v :: v in domain ==> 1 <= v <= ISqrt(|domains|)
    ensures Lcv(domains, domain).Some?
    ensures var r, vals := Lcv(domains, domain).value, AllValues(domains);
      forall i, j :: 0 <= i < j < |r| ==>
        multiset(vals)[r[i]] < multiset(vals)[r[j]] ||
        (multiset(vals)[r[i]] == multiset(vals)[r[j]] && r[i] <= r[j])
  {
    OrderByOccurrences(AllValues(domains), ISqrt(|domains|), domain);
  }

  /**
   * On a board of side `k` whose assignments hold values `1..k` only, `least_used` puts
   * first the values assigned the fewest times.
   */
  lemma LeastUsedFirst(assignments: seq<Assignment>, domains: seq<Entry>, domain: seq<int>)
    requires forall i :: 0 <= i < |assignments| && assignments[i].value.Some? ==>
      1 <= assignments[i].value.value <= ISqrt(|domains|)
    requires forall v :: v in domain ==> 1 <= v <= ISqrt(|domains|)
    ensures LeastUsed(assignments, domains, domain).Some?
    ensures var r, vals := LeastUsed(assignments, domains, domain).value, AssignedValues(assignments);
      forall i, j :: 0 <= i < j < |r| ==>
        multiset(vals)[r[i]] < multiset(vals)[r[j]] ||
        (multiset(vals)[r[i]] == multiset(vals)[r[j]] && r[i] <= r[j])
  {
    OrderByOccurrences(AssignedValues(assignments), ISqrt(|domains|), domain);
  }
}
