/** Sorting and comparison as Python does them: `list.sort` / `sorted`
    (stable, driven by `<` only) and the lexicographic `<` of `str` and of
    lists. */
module Ordering {

  /** `lt` is irreflexive and transitive: what `sorted` needs of `<`. */
  ghost predicate StrictOrder<T(!new)>(lt: (T, T) -> bool)
  {
    (forall x :: !lt(x, x)) &&
    (forall x, y, z :: lt(x, y) && lt(y, z) ==> lt(x, z))
  }

  /** No element is strictly smaller than one before it. */
  predicate Sorted<T>(s: seq<T>, lt: (T, T) -> bool)
  {
    forall i, j :: 0 <= i < j < |s| ==> !lt(s[j], s[i])
  }

  /** Inserts `x` before the first element it is strictly smaller than, so
      after every element it is not smaller than (that keeps equal keys in
      their original order). */
  function Insert<T>(x: T, s: seq<T>, lt: (T, T) -> bool): (r: seq<T>)
    ensures |r| == |s| + 1
    ensures multiset(r) == multiset{x} + multiset(s)
  {
    if s == [] then [x]
    else if lt(x, s[0]) then [x] + s
    else
      assert s == [s[0]] + s[1..];
      [s[0]] + Insert(x, s[1..], lt)
  }

  /** A stable insertion sort; the elements arrive in `s`'s order, the last
      one inserted last, so among equal keys the earlier stays first. */
  function Sort<T>(s: seq<T>, lt: (T, T) -> bool): (r: seq<T>)
    ensures |r| == |s|
    ensures multiset(r) == multiset(s)
  {
    if s == [] then []
    else
      assert s == s[..|s| - 1] + [s[|s| - 1]];
      Insert(s[|s| - 1], Sort(s[..|s| - 1], lt), lt)
  }

  lemma {:induction false} InsertSorted<T(!new)>(x: T, s: seq<T>, lt: (T, T) -> bool)
    requires StrictOrder(lt) && Sorted(s, lt)
    ensures Sorted(Insert(x, s, lt), lt)
  {
    var r := Insert(x, s, lt);
    if s == [] {
    } else if lt(x, s[0]) {
      assert r == [x] + s;
      forall i, j | 0 <= i < j < |r| ensures !lt(r[j], r[i]) {
        if i > 0 {
          assert r[i] == s[i - 1] && r[j] == s[j - 1];
        } else if j == 1 {
          assert r[j] == s[0];
        } else {
          assert r[j] == s[j - 1];
          assert !lt(s[j - 1], s[0]);
        }
      }
    } else {
      var rest := s[1..];
      assert Sorted(rest, lt);
      InsertSorted(x, rest, lt);
      var ir := Insert(x, rest, lt);
      assert r == [s[0]] + ir;
      forall i, j | 0 <= i < j < |r| ensures !lt(r[j], r[i]) {
        if i > 0 {
          assert r[i] == ir[i - 1] && r[j] == ir[j - 1];
        } else {
          var y := ir[j - 1];
          assert r[j] == y;
          assert y in multiset(ir);
          assert y == x || y in multiset(rest);
          if y != x {
            var k :| 0 <= k < |rest| && rest[k] == y;
            assert s[k + 1] == y;
          }
        }
      }
    }
  }

  /** `Sort` returns its input in sorted order (and, by its contract, as a
      permutation of it). */
  lemma {:induction false} SortSorted<T(!new)>(s: seq<T>, lt: (T, T) -> bool)
    requires StrictOrder(lt)
    ensures Sorted(Sort(s, lt), lt)
  {
    if s != [] {
      SortSorted(s[..|s| - 1], lt);
      InsertSorted(s[|s| - 1], Sort(s[..|s| - 1], lt), lt);
    }
  }

  /** An element smaller than none of `s` goes to the end. */
  lemma {:induction false} InsertLast<T>(x: T, s: seq<T>, lt: (T, T) -> bool)
    requires forall i :: 0 <= i < |s| ==> !lt(x, s[i])
    ensures Insert(x, s, lt) == s + [x]
  {
    if s != [] {
      assert !lt(x, s[0]);
      InsertLast(x, s[1..], lt);
      assert s == [s[0]] + s[1..];
    }
  }

  /** Sorting a sequence that is already in order changes nothing: the sort
      moves no element past an equal one. */
  lemma {:induction false} SortOfSorted<T>(s: seq<T>, lt: (T, T) -> bool)
    requires Sorted(s, lt)
    ensures Sort(s, lt) == s
  {
    if s != [] {
      var n := |s|;
      var init := s[..n - 1];
      assert Sorted(init, lt) by {
        forall i, j | 0 <= i < j < |init| ensures !lt(init[j], init[i]) {
          assert init[i] == s[i] && init[j] == s[j];
        }
      }
      SortOfSorted(init, lt);
      forall i | 0 <= i < |init| ensures !lt(s[n - 1], init[i]) {
        assert init[i] == s[i];
      }
      InsertLast(s[n - 1], init, lt);
      assert s == init + [s[n - 1]];
    }
  }

  /** Python's `a < b` on sequences: the first position where they differ
      decides, and a proper prefix is smaller. */
  predicate LexLt<T(==)>(a: seq<T>, b: seq<T>, lt: (T, T) -> bool)
    decreases |a|
  {
    if a == [] then b != []
    else if b == [] then false
    else if lt(a[0], b[0]) then true
    else a[0] == b[0] && LexLt(a[1..], b[1..], lt)
  }

  lemma {:induction false} LexIrreflexive<T(!new)>(a: seq<T>, lt: (T, T) -> bool)
    requires StrictOrder(lt)
    ensures !LexLt(a, a, lt)
    decreases |a|
  {
    if a != [] {
      LexIrreflexive(a[1..], lt);
    }
  }

  lemma {:induction false} LexTransitive<T(!new)>(a: seq<T>, b: seq<T>, c: seq<T>, lt: (T, T) -> bool)
    requires StrictOrder(lt) && LexLt(a, b, lt) && LexLt(b, c, lt)
    ensures LexLt(a, c, lt)
    decreases |a|
  {
    if a != [] && b != [] && c != [] && !lt(a[0], c[0]) {
      if !lt(a[0], b[0]) && !lt(b[0], c[0]) {
        LexTransitive(a[1..], b[1..], c[1..], lt);
      }
    }
  }

  /** The lexicographic extension of a strict order is a strict order. */
  lemma LexStrictOrder<T(!new)>(lt: (T, T) -> bool)
    requires StrictOrder(lt)
    ensures StrictOrder((a: seq<T>, b: seq<T>) => LexLt(a, b, lt))
  {
    forall a: seq<T> ensures !LexLt(a, a, lt) { LexIrreflexive(a, lt); }
    forall a: seq<T>, b: seq<T>, c: seq<T> | LexLt(a, b, lt) && LexLt(b, c, lt)
      ensures LexLt(a, c, lt)
    {
      LexTransitive(a, b, c, lt);
    }
  }

  predicate CharLt(a: char, b: char) { a < b }

  /** `str.__lt__`: code point by code point. */
  predicate StrLt(a: string, b: string)
  {
    LexLt(a, b, CharLt)
  }

  lemma StrLtStrictOrder()
    ensures StrictOrder(StrLt)
  {
    assert StrictOrder(CharLt);
    LexStrictOrder(CharLt);
    forall a: string ensures !StrLt(a, a) { LexIrreflexive(a, CharLt); }
    forall a: string, b: string, c: string | StrLt(a, b) && StrLt(b, c) ensures StrLt(a, c) {
      LexTransitive(a, b, c, CharLt);
    }
  }
}
