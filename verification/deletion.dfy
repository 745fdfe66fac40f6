/**
 The deletion pass of `iterate`: the collected indices are sorted into
 descending order and spliced out one by one. Splicing a higher index never
 moves a lower one, so the pass removes exactly the elements at the collected
 indices and keeps every other element in its original order.
 */
module Deletion {
  import opened Cells

  /** `s.splice(i, 1)` keeps exactly the elements at indices other than `i`, in order. */
  lemma SpliceKeep(s: seq<Cell>, i: int)
    requires 0 <= i < |s|
    ensures Splice(s, i) == Keep(s, {i})
  {
    KeepSplice(s, i, {});
    assert {} + {i} == {i};
    KeepNone(Splice(s, i));
  }

  /** The elements of `s` at indices outside `gone`, in their original order. */
  function Keep(s: seq<Cell>, gone: set<int>): (r: seq<Cell>)
    ensures |r| <= |s|
    ensures forall c :: c in r <==> exists i :: 0 <= i < |s| && i !in gone && s[i] == c
    decreases |s|
  {
    if |s| == 0 then []
    else
      var n := |s| - 1;
      var front := Keep(s[..n], gone);
      assert forall i :: 0 <= i < n ==> s[..n][i] == s[i];
      front + (if n in gone then [] else [s[n]])
  }

  lemma {:induction false} KeepNone(s: seq<Cell>)
    ensures Keep(s, {}) == s
    decreases |s|
  {
    if |s| > 0 {
      KeepNone(s[..|s| - 1]);
    }
  }

  /** Only the indices of `s` matter to `Keep`. */
  lemma {:induction false} KeepAgree(s: seq<Cell>, a: set<int>, b: set<int>)
    requires forall i :: 0 <= i < |s| ==> (i in a <==> i in b)
    ensures Keep(s, a) == Keep(s, b)
    decreases |s|
  {
    if |s| > 0 {
      KeepAgree(s[..|s| - 1], a, b);
    }
  }

  /**
   Splicing index `i` and then keeping what lies outside lower indices `gone`
   is keeping what lies outside `gone` and `i`.
   */
  lemma {:induction false} KeepSplice(s: seq<Cell>, i: int, gone: set<int>)
    requires 0 <= i < |s|
    requires forall j :: j in gone ==> j < i
    ensures Keep(Splice(s, i), gone) == Keep(s, gone + {i})
    decreases |s|
  {
    var n := |s| - 1;
    if i == n {
      assert Splice(s, i) == s[..n];
      KeepAgree(s[..n], gone + {i}, gone);
    } else {
      SpliceBeforeLast(s, i);
      KeepSplice(s[..n], i, gone);
    }
  }

  /** Splicing before the last element commutes with dropping that element. */
  lemma SpliceBeforeLast(s: seq<Cell>, i: int)
    requires 0 <= i < |s| - 1
    ensures Splice(s, i)[..|s| - 2] == Splice(s[..|s| - 1], i)
    ensures Splice(s, i)[|s| - 2] == s[|s| - 1]
  {
  }

  /** Strictly decreasing: every index is larger than each one after it. */
  predicate StrictlyDescending(d: seq<int>) {
    forall i, j :: 0 <= i < j < |d| ==> d[i] > d[j]
  }

  /** Non-increasing order. */
  predicate Descending(d: seq<int>) {
    forall i, j :: 0 <= i < j < |d| ==> d[i] >= d[j]
  }

  lemma PrependDescending(h: int, t: seq<int>)
    requires Descending(t)
    requires forall e :: e in t ==> e <= h
    ensures Descending([h] + t)
  {
    forall i, j | 0 <= i < j < |[h] + t|
      ensures ([h] + t)[i] >= ([h] + t)[j]
    {
      assert ([h] + t)[j] == t[j - 1] && t[j - 1] in t;
      if i > 0 {
        assert ([h] + t)[i] == t[i - 1];
      }
    }
  }

  lemma TailDescending(s: seq<int>)
    requires Descending(s) && |s| > 0
    ensures Descending(s[1..])
  {
    forall i, j | 0 <= i < j < |s[1..]|
      ensures s[1..][i] >= s[1..][j]
    {
      assert s[1..][i] == s[i + 1] && s[1..][j] == s[j + 1];
    }
  }

  /** Insertion of `x` into a descending list. */
  function Insert(x: int, s: seq<int>): (r: seq<int>)
    requires Descending(s)
    ensures Descending(r)
    ensures multiset(r) == multiset(s) + multiset{x}
  {
    if |s| == 0 || x >= s[0] then
      PrependDescending(x, s);
      [x] + s
    else
      assert s == [s[0]] + s[1..];
      TailDescending(s);
      var rest := Insert(x, s[1..]);
      assert forall e :: e in rest ==> e <= s[0] by {
        forall e | e in rest
          ensures e <= s[0]
        {
          assert e in multiset(rest);
          if e != x {
            assert e in s[1..];
          }
        }
      }
      PrependDescending(s[0], rest);
      [s[0]] + rest
  }

  /** Inserting a new value into a list without repeats leaves none. */
  lemma {:induction false} InsertNoDup(x: int, s: seq<int>)
    requires Descending(s) && NoDup(s) && x !in s
    ensures NoDup(Insert(x, s))
  {
    if |s| == 0 || x >= s[0] {
      NoDupConcat([x], s);
    } else {
      assert s == [s[0]] + s[1..];
      TailDescending(s);
      var rest := Insert(x, s[1..]);
      assert NoDup(s[1..]) by {
        forall i, j | 0 <= i < j < |s[1..]|
          ensures s[1..][i] != s[1..][j]
        {
          assert s[1..][i] == s[i + 1] && s[1..][j] == s[j + 1];
        }
      }
      InsertNoDup(x, s[1..]);
      assert s[0] !in s[1..];
      assert s[0] !in multiset(rest);
      NoDupConcat([s[0]], rest);
    }
  }

  /** `del.sort(function(a, b){return b-a})`: the indices in descending order. */
  function SortDescending(d: seq<int>): (r: seq<int>)
    ensures Descending(r)
    ensures multiset(r) == multiset(d)
  {
    if |d| == 0 then []
    else
      assert d == [d[0]] + d[1..];
      Insert(d[0], SortDescending(d[1..]))
  }

  /** Two lists with the same multiset have the same members and length. */
  lemma SameMembers(a: seq<int>, b: seq<int>)
    requires multiset(a) == multiset(b)
    ensures forall k :: k in a <==> k in b
    ensures |a| == |b|
  {
    forall k
      ensures k in a <==> k in b
    {
      assert k in a <==> k in multiset(a);
      assert k in b <==> k in multiset(b);
    }
    assert |a| == |multiset(a)| && |b| == |multiset(b)|;
  }

  /** Sorting distinct indices leaves them distinct, hence strictly descending. */
  lemma {:induction false} SortNoDup(d: seq<int>)
    requires NoDup(d)
    ensures NoDup(SortDescending(d))
    ensures StrictlyDescending(SortDescending(d))
  {
    if |d| > 0 {
      assert d == [d[0]] + d[1..];
      var tail := d[1..];
      assert NoDup(tail) by {
        forall i, j | 0 <= i < j < |tail|
          ensures tail[i] != tail[j]
        {
          assert tail[i] == d[i + 1] && tail[j] == d[j + 1];
        }
      }
      SortNoDup(tail);
      var rest := SortDescending(tail);
      SameMembers(rest, tail);
      assert d[0] !in tail;
      InsertNoDup(d[0], rest);
    }
  }

  /**
   The splice loop over descending indices: removes exactly the elements at
   the indices of `d`, keeping all others in order.
   */
  function RemoveDescending(s: seq<Cell>, d: seq<int>): (r: seq<Cell>)
    requires StrictlyDescending(d)
    requires forall k :: 0 <= k < |d| ==> 0 <= d[k] < |s|
    ensures |r| == |s| - |d|
    ensures r == Keep(s, set k | k in d)
    decreases |d|
  {
    if |d| == 0 then
      KeepNone(s);
      assert (set k | k in d) == {};
      s
    else
      var t := Splice(s, d[0]);
      var rest := RemoveDescending(t, d[1..]);
      KeepSplice(s, d[0], set k | k in d[1..]);
      IndexSetSplit(d);
      rest
  }

  /** The indices of a non-empty list are its head and the indices of its tail. */
  lemma IndexSetSplit(d: seq<int>)
    requires |d| > 0
    ensures (set k | k in d) == (set k | k in d[1..]) + {d[0]}
  {
    assert d == [d[0]] + d[1..];
  }

  /**
   Lines 144-148 of `iterate` together: sort the distinct in-range indices
   into descending order, then splice them out one by one. Exactly the
   elements at those indices go; the rest keep their order.
   */
  function RemoveSorted(s: seq<Cell>, d: seq<int>): (r: seq<Cell>)
    requires NoDup(d)
    requires forall k :: 0 <= k < |d| ==> 0 <= d[k] < |s|
    ensures |r| == |s| - |d|
    ensures r == Keep(s, set k | k in d)
  {
    var sorted := SortDescending(d);
    SameMembers(sorted, d);
    SortNoDup(d);
    assert forall k :: 0 <= k < |sorted| ==> 0 <= sorted[k] < |s| by {
      forall k | 0 <= k < |sorted|
        ensures 0 <= sorted[k] < |s|
      {
        assert sorted[k] in d;
      }
    }
    assert (set k | k in sorted) == (set k | k in d);
    RemoveDescending(s, sorted)
  }
}
