/** Python's comprehensions over a sequence, as functions of the sequence and
    of the test and map they apply. */
module Collections {

  /** `[x for x in s if keep(x)]`: the elements of `s` that pass `keep`, in order. */
  function Filter<T>(s: seq<T>, keep: T -> bool): seq<T> {
    if s == [] then []
    else Filter(s[..|s| - 1], keep) + (if keep(s[|s| - 1]) then [s[|s| - 1]] else [])
  }

  /** `{f(x) for x in s if keep(x)}`, built up one element at a time. */
  function Collect<T, U>(s: seq<T>, keep: T -> bool, f: T -> U): set<U> {
    if s == [] then {}
    else Collect(s[..|s| - 1], keep, f) + (if keep(s[|s| - 1]) then {f(s[|s| - 1])} else {})
  }

  /** Filtering a sequence extended by one element. */
  lemma FilterSnoc<T>(s: seq<T>, x: T, keep: T -> bool)
    ensures Filter(s + [x], keep) == Filter(s, keep) + (if keep(x) then [x] else [])
  {
    assert (s + [x])[..|s|] == s;
  }

  /** Collecting from a sequence extended by one element. */
  lemma CollectSnoc<T, U>(s: seq<T>, x: T, keep: T -> bool, f: T -> U)
    ensures Collect(s + [x], keep, f) == Collect(s, keep, f) + (if keep(x) then {f(x)} else {})
  {
    assert (s + [x])[..|s|] == s;
  }

  /** `idx` lists, in increasing order, the positions in `b` at which the
      elements of `a` stand. */
  ghost predicate Embeds<T>(idx: seq<nat>, a: seq<T>, b: seq<T>) {
    && |idx| == |a|
    && (forall i :: 0 <= i < |idx| ==> idx[i] < |b| && a[i] == b[idx[i]])
    && (forall i, j :: 0 <= i < j < |idx| ==> idx[i] < idx[j])
  }

  /** `a` is `b` with some elements left out and the others kept in their order. */
  ghost predicate IsSubsequence<T>(a: seq<T>, b: seq<T>) {
    exists idx: seq<nat> :: Embeds(idx, a, b)
  }

  lemma SubsequenceTransitive<T>(a: seq<T>, b: seq<T>, c: seq<T>)
    requires IsSubsequence(a, b) && IsSubsequence(b, c)
    ensures IsSubsequence(a, c)
  {
    var ab: seq<nat> :| Embeds(ab, a, b);
    var bc: seq<nat> :| Embeds(bc, b, c);
    var ac: seq<nat> := seq(|ab|, k requires 0 <= k < |ab| => bc[ab[k]]);
    assert Embeds(ac, a, c);
  }

  /** An embedding survives appending to `b`, and extends by one position
      when the same element is appended to both. */
  lemma EmbedsSnoc<T>(idx: seq<nat>, a: seq<T>, b: seq<T>, x: T)
    requires Embeds(idx, a, b)
    ensures Embeds(idx, a, b + [x])
    ensures Embeds(idx + [|b|], a + [x], b + [x])
  {
    var b' := b + [x];
    forall i | 0 <= i < |idx| ensures idx[i] < |b'| && a[i] == b'[idx[i]] {
    }
    var idx', a' := idx + [|b|], a + [x];
    forall i | 0 <= i < |idx'| ensures idx'[i] < |b'| && a'[i] == b'[idx'[i]] {
      if i < |idx| {
        assert idx'[i] == idx[i] && a'[i] == a[i];
      }
    }
    forall i, j | 0 <= i < j < |idx'| ensures idx'[i] < idx'[j] {
      if j < |idx| {
        assert idx'[i] == idx[i] && idx'[j] == idx[j];
      }
    }
  }

  /** An element is kept exactly when it occurs in `s` and passes `keep`. */
  lemma {:induction false} FilterMembership<T>(s: seq<T>, keep: T -> bool, x: T)
    ensures x in Filter(s, keep) <==> x in s && keep(x)
  {
    if s != [] {
      var init := s[..|s| - 1];
      FilterMembership(init, keep, x);
      assert s == init + [s[|s| - 1]];
    }
  }

  /** Filtering only leaves elements out; it never reorders them. */
  lemma {:induction false} FilterInOrder<T>(s: seq<T>, keep: T -> bool)
    ensures IsSubsequence(Filter(s, keep), s)
  {
    if s == [] {
      assert Embeds([], Filter(s, keep), s);
    } else {
      var init, x := s[..|s| - 1], s[|s| - 1];
      assert s == init + [x];
      FilterInOrder(init, keep);
      var idx: seq<nat> :| Embeds(idx, Filter(init, keep), init);
      EmbedsSnoc(idx, Filter(init, keep), init, x);
      FilterSnoc(init, x, keep);
      if keep(x) {
        assert Embeds(idx + [|init|], Filter(s, keep), s);
      } else {
        assert Embeds(idx, Filter(s, keep), s);
      }
    }
  }

  /** A value is collected exactly when some element of `s` passes `keep` and maps to it. */
  lemma {:induction false} CollectMembership<T, U>(s: seq<T>, keep: T -> bool, f: T -> U, y: U)
    ensures y in Collect(s, keep, f) <==> exists i :: 0 <= i < |s| && keep(s[i]) && f(s[i]) == y
  {
    if s != [] {
      var init := s[..|s| - 1];
      CollectMembership(init, keep, f, y);
      if exists i :: 0 <= i < |s| && keep(s[i]) && f(s[i]) == y {
        var i :| 0 <= i < |s| && keep(s[i]) && f(s[i]) == y;
        if i < |init| {
          assert init[i] == s[i];
        }
      }
      if exists i :: 0 <= i < |init| && keep(init[i]) && f(init[i]) == y {
        var i :| 0 <= i < |init| && keep(init[i]) && f(init[i]) == y;
        assert s[i] == init[i];
      }
    }
  }

  /** Collecting from a sequence whose elements all occur in another collects no more. */
  lemma CollectMonotonic<T, U>(s1: seq<T>, s2: seq<T>, keep: T -> bool, f: T -> U)
    requires forall x :: x in s1 ==> x in s2
    ensures Collect(s1, keep, f) <= Collect(s2, keep, f)
  {
    forall y | y in Collect(s1, keep, f) ensures y in Collect(s2, keep, f) {
      CollectMembership(s1, keep, f, y);
      CollectMembership(s2, keep, f, y);
      var i :| 0 <= i < |s1| && keep(s1[i]) && f(s1[i]) == y;
      assert s1[i] in s2;
      var j :| 0 <= j < |s2| && s2[j] == s1[i];
      assert keep(s2[j]) && f(s2[j]) == y;
    }
  }

  /** What is collected depends only on which elements occur in `s`, not on
      their order or on how often they occur. */
  lemma CollectIgnoresOrder<T, U>(s1: seq<T>, s2: seq<T>, keep: T -> bool, f: T -> U)
    requires forall x :: x in s1 <==> x in s2
    ensures Collect(s1, keep, f) == Collect(s2, keep, f)
  {
    CollectMonotonic(s1, s2, keep, f);
    CollectMonotonic(s2, s1, keep, f);
  }

  /** An element that fails `keep` adds nothing wherever it is inserted; one
      that passes adds its image. */
  lemma CollectInsert<T, U>(before: seq<T>, x: T, after: seq<T>, keep: T -> bool, f: T -> U)
    ensures !keep(x) ==> Collect(before + [x] + after, keep, f) == Collect(before + after, keep, f)
    ensures keep(x) ==> f(x) in Collect(before + [x] + after, keep, f)
  {
    var with := before + [x] + after;
    var without := before + after;
    assert with[|before|] == x;
    CollectMembership(with, keep, f, f(x));
    if !keep(x) {
      forall y | y in Collect(with, keep, f) ensures y in Collect(without, keep, f) {
        CollectMembership(with, keep, f, y);
        CollectMembership(without, keep, f, y);
        var i :| 0 <= i < |with| && keep(with[i]) && f(with[i]) == y;
        if i < |before| {
          assert without[i] == with[i];
        } else {
          assert without[i - 1] == with[i];
        }
      }
      CollectMonotonic(without, with, keep, f);
    }
  }
}
