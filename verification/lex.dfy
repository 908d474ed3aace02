/**
 * Python's ordering of integer tuples and `list.sort()` on lists of such tuples.
 *
 * A tuple is a `seq<int>`. Python compares tuples element by element and the first
 * difference decides; a proper prefix sorts first. `list.sort()` is modelled by an
 * insertion sort; since the order is total and antisymmetric, every sorted
 * rearrangement of a list is the same list, so the model does not depend on the
 * sorting algorithm Python uses.
 */
module Lex {

  /** `a <= b` for Python tuples. */
  predicate LexLe(a: seq<int>, b: seq<int>)
  {
    |a| == 0 || (|b| > 0 && (a[0] < b[0] || (a[0] == b[0] && LexLe(a[1..], b[1..]))))
  }

  lemma {:induction false} LexLeReflexive(a: seq<int>)
    ensures LexLe(a, a)
  {
    if |a| > 0 {
      LexLeReflexive(a[1..]);
    }
  }

  lemma {:induction false} LexLeAntisymmetric(a: seq<int>, b: seq<int>)
    requires LexLe(a, b) && LexLe(b, a)
    ensures a == b
  {
    if |a| > 0 {
      LexLeAntisymmetric(a[1..], b[1..]);
      assert a == [a[0]] + a[1..];
      assert b == [b[0]] + b[1..];
    }
  }

  lemma {:induction false} LexLeTransitive(a: seq<int>, b: seq<int>, c: seq<int>)
    requires LexLe(a, b) && LexLe(b, c)
    ensures LexLe(a, c)
  {
    if |a| > 0 && |b| > 0 && |c| > 0 && a[0] == b[0] == c[0] {
      LexLeTransitive(a[1..], b[1..], c[1..]);
    }
  }

  lemma {:induction false} LexLeTotal(a: seq<int>, b: seq<int>)
    ensures LexLe(a, b) || LexLe(b, a)
  {
    if |a| > 0 && |b| > 0 && a[0] == b[0] {
      LexLeTotal(a[1..], b[1..]);
    }
  }

  /** On pairs, the order is: first components, then second components. */
  lemma LexLePair(a: seq<int>, b: seq<int>)
    requires |a| == 2 && |b| == 2
    ensures LexLe(a, b) <==> a[0] < b[0] || (a[0] == b[0] && a[1] <= b[1])
  {
    assert LexLe(a[1..][1..], b[1..][1..]);
  }

  /** On triples, the order is: first, then second, then third components. */
  lemma LexLeTriple(a: seq<int>, b: seq<int>)
    requires |a| == 3 && |b| == 3
    ensures LexLe(a, b) <==>
              a[0] < b[0] || (a[0] == b[0] && (a[1] < b[1] || (a[1] == b[1] && a[2] <= b[2])))
  {
    LexLePair(a[1..], b[1..]);
  }

  /** `s` is in ascending tuple order. */
  predicate Sorted(s: seq<seq<int>>)
  {
    forall i, j :: 0 <= i < j < |s| ==> LexLe(s[i], s[j])
  }

  /** Inserts `x` into the sorted list `s` before its first element that is not below it. */
  function Insert(x: seq<int>, s: seq<seq<int>>): (r: seq<seq<int>>)
    requires Sorted(s)
    ensures Sorted(r)
    ensures multiset(r) == multiset(s) + multiset{x}
  {
    if |s| == 0 then [x]
    else if LexLe(x, s[0]) then
      BelowHead(x, s);
      SortedCons(x, s);
      [x] + s
    else
      var t := Insert(x, s[1..]);
      MultisetTail(s);
      AboveHead(x, s, t);
      SortedCons(s[0], t);
      assert [s[0]] + t == [s[0]] + t;
      [s[0]] + t
  }

  /** Below the head of a sorted list is below all of it. */
  lemma BelowHead(x: seq<int>, s: seq<seq<int>>)
    requires Sorted(s) && |s| > 0 && LexLe(x, s[0])
    ensures forall j :: 0 <= j < |s| ==> LexLe(x, s[j])
  {
    forall j | 0 <= j < |s|
      ensures LexLe(x, s[j])
    {
      if j > 0 { LexLeTransitive(x, s[0], s[j]); }
    }
  }

  /** The head of a sorted list is below `x` and every other element, so below any arrangement of them. */
  lemma AboveHead(x: seq<int>, s: seq<seq<int>>, t: seq<seq<int>>)
    requires Sorted(s) && |s| > 0 && !LexLe(x, s[0])
    requires multiset(t) == multiset(s[1..]) + multiset{x}
    ensures forall j :: 0 <= j < |t| ==> LexLe(s[0], t[j])
  {
    LexLeTotal(x, s[0]);
    forall j | 0 <= j < |t|
      ensures LexLe(s[0], t[j])
    {
      assert t[j] in multiset(t);
      if t[j] != x {
        assert t[j] in multiset(s[1..]);
        var k :| 0 <= k < |s[1..]| && s[1..][k] == t[j];
        assert s[k + 1] == t[j];
      }
    }
  }

  /** Putting an element below all of a sorted list in front keeps it sorted. */
  lemma SortedCons(y: seq<int>, t: seq<seq<int>>)
    requires Sorted(t) && forall j :: 0 <= j < |t| ==> LexLe(y, t[j])
    ensures Sorted([y] + t)
  {
    var r := [y] + t;
    forall i, j | 0 <= i < j < |r|
      ensures LexLe(r[i], r[j])
    {
      assert r[j] == t[j - 1];
      if i > 0 { assert r[i] == t[i - 1]; }
    }
  }

  /** The multiset of a non-empty list is its head plus the multiset of its tail. */
  lemma MultisetTail<T>(s: seq<T>)
    requires |s| > 0
    ensures multiset(s) == multiset{s[0]} + multiset(s[1..])
    ensures multiset(s[1..]) == multiset(s) - multiset{s[0]}
  {
    assert s == [s[0]] + s[1..];
  }

  /** `list.sort()`: the ascending rearrangement of `s`. */
  function Sort(s: seq<seq<int>>): (r: seq<seq<int>>)
    ensures Sorted(r)
    ensures multiset(r) == multiset(s)
  {
    if |s| == 0 then []
    else
      MultisetTail(s);
      Insert(s[0], Sort(s[1..]))
  }

  /** Two sorted lists with the same elements are the same list. */
  lemma {:induction false} SortedUnique(a: seq<seq<int>>, b: seq<seq<int>>)
    requires Sorted(a) && Sorted(b)
    requires multiset(a) == multiset(b)
    ensures a == b
  {
    if |a| == 0 {
      assert |b| == |multiset(b)| == 0;
    } else {
      assert |b| == |multiset(b)| == |multiset(a)| == |a|;
      SameHead(a, b);
      MultisetTail(a);
      MultisetTail(b);
      assert multiset(a[1..]) == multiset(b[1..]);
      SortedTail(a);
      SortedTail(b);
      SortedUnique(a[1..], b[1..]);
      assert a == [a[0]] + a[1..];
      assert b == [b[0]] + b[1..];
    }
  }

  /** The tail of a sorted list is sorted. */
  lemma SortedTail(a: seq<seq<int>>)
    requires Sorted(a) && |a| > 0
    ensures Sorted(a[1..])
  {
    forall i, j | 0 <= i < j < |a| - 1
      ensures LexLe(a[1..][i], a[1..][j])
    {
      assert LexLe(a[i + 1], a[j + 1]);
    }
  }

  /** Two non-empty sorted lists with the same elements start alike. */
  lemma SameHead(a: seq<seq<int>>, b: seq<seq<int>>)
    requires Sorted(a) && Sorted(b) && |a| > 0 && |b| > 0
    requires multiset(a) == multiset(b)
    ensures a[0] == b[0]
  {
    assert a[0] in multiset(b);
    assert b[0] in multiset(a);
    var i :| 0 <= i < |b| && b[i] == a[0];
    var j :| 0 <= j < |a| && a[j] == b[0];
    if i > 0 { assert LexLe(b[0], b[i]); } else { LexLeReflexive(a[0]); }
    if j > 0 { assert LexLe(a[0], a[j]); } else { LexLeReflexive(b[0]); }
    LexLeAntisymmetric(a[0], b[0]);
  }

  /** Whatever algorithm sorts `s`, its result is `Sort(s)`: the sorted order is canonical. */
  lemma SortIsCanonical(s: seq<seq<int>>, t: seq<seq<int>>)
    requires Sorted(t) && multiset(t) == multiset(s)
    ensures t == Sort(s)
  {
    SortedUnique(t, Sort(s));
  }

  /** The last component of a tuple (every tuple built in this model has one; the empty tuple reads as 0). */
  function Last(t: seq<int>): int
  {
    if |t| == 0 then 0 else t[|t| - 1]
  }

  /** `[t[-1] for t in s]`: the last component of every tuple. */
  function Lasts(s: seq<seq<int>>): (r: seq<int>)
    ensures |r| == |s|
  {
    if |s| == 0 then [] else [Last(s[0])] + Lasts(s[1..])
  }

  lemma {:induction false} LastsAt(s: seq<seq<int>>, i: int)
    requires 0 <= i < |s|
    ensures Lasts(s)[i] == Last(s[i])
  {
    if i > 0 {
      LastsAt(s[1..], i - 1);
    }
  }

  lemma {:induction false} LastsConcat(a: seq<seq<int>>, b: seq<seq<int>>)
    ensures Lasts(a + b) == Lasts(a) + Lasts(b)
  {
    if |a| > 0 {
      assert (a + b)[1..] == a[1..] + b;
      LastsConcat(a[1..], b);
    } else {
      assert a + b == b;
    }
  }

  /** Dropping position `j` of a list drops one copy of its element from the multiset. */
  lemma MultisetRemove<T>(b: seq<T>, j: int)
    requires 0 <= j < |b|
    ensures multiset(b[..j] + b[j + 1..]) == multiset(b) - multiset{b[j]}
  {
    assert b == b[..j] + [b[j]] + b[j + 1..];
  }

  /** The last components around one tuple. */
  lemma LastsAround(pre: seq<seq<int>>, x: seq<int>, post: seq<seq<int>>)
    ensures Lasts(pre + ([x] + post)) == Lasts(pre) + ([Last(x)] + Lasts(post))
  {
    LastsConcat(pre, [x] + post);
    LastsConcat([x], post);
    assert Lasts([x]) == [Last(x)];
  }

  /** A list is its prefix, the element at `j`, and its suffix. */
  lemma SplitAt<T>(b: seq<T>, j: int)
    requires 0 <= j < |b|
    ensures b == b[..j] + ([b[j]] + b[j + 1..])
  {
    assert b[j..] == [b[j]] + b[j + 1..];
    assert b == b[..j] + b[j..];
  }

  /** The multiset of a list spliced around one element. */
  lemma MultisetAround<T>(p: seq<T>, y: T, q: seq<T>)
    ensures multiset(p + ([y] + q)) == multiset(p + q) + multiset{y}
  {
  }

  /** Taking out the tuple at `j` takes out its last component. */
  lemma LastsRemove(b: seq<seq<int>>, j: int)
    requires 0 <= j < |b|
    ensures multiset(Lasts(b)) == multiset(Lasts(b[..j] + b[j + 1..])) + multiset{Last(b[j])}
  {
    var x, pre, post := b[j], b[..j], b[j + 1..];
    SplitAt(b, j);
    LastsAround(pre, x, post);
    LastsConcat(pre, post);
    MultisetAround(Lasts(pre), Last(x), Lasts(post));
  }

  /** Rearranging the tuples rearranges their last components the same way. */
  lemma {:induction false} LastsPermutation(a: seq<seq<int>>, b: seq<seq<int>>)
    requires multiset(a) == multiset(b)
    ensures multiset(Lasts(a)) == multiset(Lasts(b))
  {
    if |a| == 0 {
      assert |b| == |multiset(b)| == 0;
    } else {
      assert a[0] in multiset(b);
      var j :| 0 <= j < |b| && b[j] == a[0];
      var rest := b[..j] + b[j + 1..];
      MultisetRemove(b, j);
      MultisetTail(a);
      assert multiset(a[1..]) == multiset(rest);
      LastsPermutation(a[1..], rest);
      LastsRemove(b, j);
      assert Lasts(a) == [Last(a[0])] + Lasts(a[1..]);
      assert multiset(Lasts(a)) == multiset{Last(a[0])} + multiset(Lasts(a[1..]));
    }
  }
}
