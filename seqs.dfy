/** Sequence utilities: filtering (a list comprehension with an `if`),
    removal of a set of elements, duplicate-freedom, and Python's slicing
    `s[k:]` with its treatment of negative and zero starts. */
module Seqs {

  /** `[x for x in s if keep(x)]`. */
  function Filter<T>(s: seq<T>, keep: T -> bool): (r: seq<T>)
    ensures |r| <= |s|
  {
    if s == [] then []
    else (if keep(s[0]) then [s[0]] else []) + Filter(s[1..], keep)
  }

  /** What the filter yields comes from `s` and is kept ... */
  lemma {:induction false} FilterMember<T>(s: seq<T>, keep: T -> bool, x: T)
    requires x in Filter(s, keep)
    ensures x in s && keep(x)
  {
    var h: seq<T> := if keep(s[0]) then [s[0]] else [];
    if x !in h {
      FilterMember(s[1..], keep, x);
    }
  }

  /** ... and everything of `s` that is kept is in it. */
  lemma {:induction false} FilterKeeps<T>(s: seq<T>, keep: T -> bool, x: T)
    requires x in s && keep(x)
    ensures x in Filter(s, keep)
  {
    if x != s[0] {
      FilterKeeps(s[1..], keep, x);
    }
  }

  /** `s` with every element of `gone` taken out, the rest in their order. */
  function Without<T(==)>(s: seq<T>, gone: set<T>): seq<T>
  {
    Filter(s, x => x !in gone)
  }

  predicate Distinct<T(==)>(s: seq<T>)
  {
    forall i, j :: 0 <= i < j < |s| ==> s[i] != s[j]
  }

  function Elems<T>(s: seq<T>): set<T>
  {
    set x | x in s
  }

  function Min(a: int, b: int): int { if a <= b then a else b }
  function Max(a: int, b: int): int { if a >= b then a else b }

  /** Python's `s[k:]`: a negative start counts from the end and is clipped
      at 0, a start past the end gives the empty slice. */
  function SliceFrom<T>(s: seq<T>, k: int): (r: seq<T>)
    ensures 0 <= k ==> r == s[Min(k, |s|)..]
    ensures k < 0 ==> r == s[Max(0, |s| + k)..]
  {
    var start := if k < 0 then Max(0, |s| + k) else Min(k, |s|);
    s[start..]
  }

  /** Python's `s[-n:]`. For 0 < n <= |s| these are the last n elements,
      but `s[-0:]` is `s[0:]`, the whole sequence, and a negative n drops
      the first -n elements. */
  function LastN<T>(s: seq<T>, n: int): (r: seq<T>)
    ensures 0 < n <= |s| ==> |r| == n && r == s[|s| - n..]
    ensures n >= |s| ==> r == s
    ensures n < 0 ==> r == s[Min(-n, |s|)..]
  {
    SliceFrom(s, -n)
  }

  /** For 0 < n <= |s|, `s[-n:]` is the slice from |s| - n to the end. */
  lemma LastNSlice<T>(s: seq<T>, n: int)
    requires 0 < n <= |s|
    ensures LastN(s, n) == s[|s| - n..|s|]
  {
  }

  lemma {:induction false} FilterConcat<T>(a: seq<T>, b: seq<T>, keep: T -> bool)
    ensures Filter(a + b, keep) == Filter(a, keep) + Filter(b, keep)
  {
    if a == [] {
      assert a + b == b;
    } else {
      assert (a + b)[0] == a[0] && (a + b)[1..] == a[1..] + b;
      FilterConcat(a[1..], b, keep);
      var h: seq<T> := if keep(a[0]) then [a[0]] else [];
      assert Filter(a + b, keep) == h + (Filter(a[1..], keep) + Filter(b, keep));
    }
  }

  /** Filtering keeps a duplicate-free sequence duplicate-free. */
  lemma {:induction false} FilterDistinct<T>(s: seq<T>, keep: T -> bool)
    requires Distinct(s)
    ensures Distinct(Filter(s, keep))
  {
    if s != [] {
      FilterDistinct(s[1..], keep);
      var rest := Filter(s[1..], keep);
      assert s[0] !in s[1..] by {
        forall j | 0 <= j < |s[1..]| ensures s[1..][j] != s[0] { assert s[1..][j] == s[j + 1]; }
      }
      assert s[0] !in rest by {
        if s[0] in rest { FilterMember(s[1..], keep, s[0]); }
      }
      var r := Filter(s, keep);
      if keep(s[0]) {
        assert r == [s[0]] + rest;
        forall i, j | 0 <= i < j < |r| ensures r[i] != r[j] {
          if i == 0 { assert r[j] == rest[j - 1]; assert rest[j - 1] in rest; }
          else { assert r[i] == rest[i - 1] && r[j] == rest[j - 1]; }
        }
      } else {
        assert r == rest;
      }
    }
  }

  /** Two filters can be applied in either order. */
  lemma {:induction false} FilterCommute<T>(s: seq<T>, p: T -> bool, q: T -> bool)
    ensures Filter(Filter(s, p), q) == Filter(Filter(s, q), p)
  {
    if s != [] {
      FilterCommute(s[1..], p, q);
      var hp: seq<T> := if p(s[0]) then [s[0]] else [];
      var hq: seq<T> := if q(s[0]) then [s[0]] else [];
      FilterConcat(hp, Filter(s[1..], p), q);
      FilterConcat(hq, Filter(s[1..], q), p);
    }
  }

  /** Taking out A and then B is taking out A + B. */
  lemma {:induction false} WithoutWithout<T>(s: seq<T>, a: set<T>, b: set<T>)
    ensures Without(Without(s, a), b) == Without(s, a + b)
  {
    if s != [] {
      WithoutWithout(s[1..], a, b);
      var h: seq<T> := if s[0] !in a then [s[0]] else [];
      FilterConcat(h, Without(s[1..], a), x => x !in b);
    }
  }

  /** Only the elements that occur in `s` matter to `Without(s, gone)`. */
  lemma {:induction false} WithoutIrrelevant<T>(s: seq<T>, gone: set<T>, x: T)
    requires x !in s
    ensures Without(s, gone - {x}) == Without(s, gone)
  {
    if s != [] {
      WithoutIrrelevant(s[1..], gone, x);
    }
  }

  lemma {:induction false} DistinctTail<T>(s: seq<T>)
    requires Distinct(s) && s != []
    ensures Distinct(s[1..]) && s[0] !in s[1..]
  {
    forall j | 0 <= j < |s[1..]| ensures s[1..][j] != s[0] { assert s[1..][j] == s[j + 1]; }
  }

  /** Taking k distinct elements out of a duplicate-free sequence leaves
      |s| - k elements. */
  lemma {:induction false} WithoutCount<T>(s: seq<T>, gone: set<T>)
    requires Distinct(s) && gone <= Elems(s)
    ensures |Without(s, gone)| == |s| - |gone|
  {
    if s == [] {
      assert gone == {};
    } else {
      DistinctTail(s);
      var x := s[0];
      if x in gone {
        WithoutIrrelevant(s[1..], gone, x);
        WithoutCount(s[1..], gone - {x});
      } else {
        assert gone <= Elems(s[1..]);
        WithoutCount(s[1..], gone);
      }
    }
  }

  /** A duplicate-free sequence has as many distinct elements as positions. */
  lemma {:induction false} DistinctCard<T>(s: seq<T>)
    requires Distinct(s)
    ensures |Elems(s)| == |s|
  {
    if s != [] {
      DistinctTail(s);
      DistinctCard(s[1..]);
      assert Elems(s) == {s[0]} + Elems(s[1..]);
    }
  }

  lemma {:induction false} DistinctMultiset<T>(s: seq<T>)
    ensures Distinct(s) <==> forall x :: multiset(s)[x] <= 1
  {
    if s != [] {
      DistinctMultiset(s[1..]);
      assert s == [s[0]] + s[1..];
      assert multiset(s) == multiset{s[0]} + multiset(s[1..]);
      if Distinct(s) {
        DistinctTail(s);
      } else {
        var i, j :| 0 <= i < j < |s| && s[i] == s[j];
        if i == 0 {
          assert s[j] == s[1..][j - 1];
          assert s[0] in multiset(s[1..]);
        } else {
          assert s[i] == s[1..][i - 1] && s[j] == s[1..][j - 1];
          assert !Distinct(s[1..]);
        }
      }
      if forall x :: multiset(s)[x] <= 1 {
        assert forall x :: multiset(s[1..])[x] <= 1 by {
          forall x ensures multiset(s[1..])[x] <= 1 { assert multiset(s)[x] >= multiset(s[1..])[x]; }
        }
        assert multiset(s)[s[0]] <= 1;
        assert s[0] !in multiset(s[1..]);
        forall i, j | 0 <= i < j < |s| ensures s[i] != s[j] {
          if i == 0 { assert s[j] in s[1..]; }
          else { assert s[i] == s[1..][i - 1] && s[j] == s[1..][j - 1]; }
        }
      }
    }
  }

  /** A rearrangement of a duplicate-free sequence is duplicate-free. */
  lemma DistinctPermutation<T>(a: seq<T>, b: seq<T>)
    requires multiset(a) == multiset(b) && Distinct(a)
    ensures Distinct(b)
  {
    DistinctMultiset(a);
    DistinctMultiset(b);
  }

  lemma DistinctSlice<T>(s: seq<T>, a: nat, b: nat)
    requires Distinct(s) && a <= b <= |s|
    ensures Distinct(s[a..b]) && Elems(s[a..b]) <= Elems(s)
  {
    forall i, j | 0 <= i < j < b - a ensures s[a..b][i] != s[a..b][j] {
      assert s[a..b][i] == s[a + i] && s[a..b][j] == s[a + j];
    }
  }

  /** Taking a set of selected elements out of a duplicate-free sequence:
      as many elements and as many selected ones go as the set has, and
      every other element stays. */
  lemma RemoveSelected<T>(s: seq<T>, keep: T -> bool, gone: set<T>)
    requires Distinct(s)
    requires forall x :: x in gone ==> x in s && keep(x)
    ensures |Without(s, gone)| == |s| - |gone|
    ensures |Filter(Without(s, gone), keep)| == |Filter(s, keep)| - |gone|
    ensures forall x :: x in s && x !in gone ==> x in Without(s, gone)
  {
    WithoutCount(s, gone);
    FilterDistinct(s, keep);
    var sel := Filter(s, keep);
    forall x | x in gone ensures x in Elems(sel) {
      FilterKeeps(s, keep, x);
    }
    WithoutCount(sel, gone);
    FilterCommute(s, x => x !in gone, keep);
    forall x | x in s && x !in gone ensures x in Without(s, gone) {
      FilterKeeps(s, y => y !in gone, x);
    }
  }

  /** Taking out the first i elements of `cut` and then element i is taking
      out its first i + 1 elements. */
  lemma WithoutPrefixStep<T>(s: seq<T>, cut: seq<T>, i: nat)
    requires i < |cut|
    ensures Without(Without(s, Elems(cut[..i])), {cut[i]}) == Without(s, Elems(cut[..i + 1]))
  {
    WithoutWithout(s, Elems(cut[..i]), {cut[i]});
    assert cut[..i + 1] == cut[..i] + [cut[i]];
    assert Elems(cut[..i + 1]) == Elems(cut[..i]) + {cut[i]};
  }

  /** Filtering a sequence whose every element is kept changes nothing. */
  lemma {:induction false} FilterAll<T>(s: seq<T>, keep: T -> bool)
    requires forall i :: 0 <= i < |s| ==> keep(s[i])
    ensures Filter(s, keep) == s
  {
    if s != [] {
      assert keep(s[0]);
      FilterAll(s[1..], keep);
      assert s == [s[0]] + s[1..];
    }
  }

  /** Removing what the sequence does not contain changes nothing. */
  lemma {:induction false} WithoutNone<T>(s: seq<T>, gone: set<T>)
    requires forall x :: x in gone ==> x !in s
    ensures Without(s, gone) == s
  {
    if s != [] {
      WithoutNone(s[1..], gone);
    }
  }
  /** `s` is `t` with some elements left out and the rest kept in order. */
  predicate SubseqOf<T(==)>(s: seq<T>, t: seq<T>)
    decreases |t|
  {
    if s == [] then true
    else if t == [] then false
    else (s[|s| - 1] == t[|t| - 1] && SubseqOf(s[..|s| - 1], t[..|t| - 1])) || SubseqOf(s, t[..|t| - 1])
  }

  /** Leaving out a new last element of `t`. */
  lemma SubseqSkip<T>(s: seq<T>, t: seq<T>, x: T)
    requires SubseqOf(s, t)
    ensures SubseqOf(s, t + [x])
  {
    assert (t + [x])[..|t|] == t;
  }

  /** Keeping a new last element of both. */
  lemma SubseqTake<T>(s: seq<T>, t: seq<T>, x: T)
    requires SubseqOf(s, t)
    ensures SubseqOf(s + [x], t + [x])
  {
    assert (s + [x])[..|s|] == s;
    assert (t + [x])[..|t|] == t;
  }

  /** A subsequence is no longer than the sequence and takes its elements
      from it. */
  lemma {:induction false} SubseqMembers<T>(s: seq<T>, t: seq<T>)
    requires SubseqOf(s, t)
    ensures |s| <= |t|
    ensures forall x :: x in s ==> x in t
    decreases |t|
  {
    if s != [] {
      var t0 := t[..|t| - 1];
      assert t == t0 + [t[|t| - 1]];
      if s[|s| - 1] == t[|t| - 1] && SubseqOf(s[..|s| - 1], t0) {
        SubseqMembers(s[..|s| - 1], t0);
        assert s == s[..|s| - 1] + [s[|s| - 1]];
      } else {
        SubseqMembers(s, t0);
      }
    }
  }
}
