/**
 Keeping and converting some elements of a sequence, which most of the connector's loops do.
 */
module Sequences {
  import opened Json

  /** What f makes of the elements, in order, without those it makes nothing of. */
  function FilterMap<T, R>(s: seq<T>, f: T -> Option<R>): seq<R> {
    if s == [] then []
    else
      var prefix, last := FilterMap(s[..|s| - 1], f), f(s[|s| - 1]);
      if last.None? then prefix else prefix + [last.value]
  }

  lemma {:induction false} FilterMapDistributes<T, R>(a: seq<T>, b: seq<T>, f: T -> Option<R>)
    ensures FilterMap(a + b, f) == FilterMap(a, f) + FilterMap(b, f)
  {
    if b == [] {
      assert a + b == a;
    } else {
      var shorter, whole := b[..|b| - 1], a + b;
      FilterMapDistributes(a, shorter, f);
      assert whole[|whole| - 1] == b[|b| - 1] && whole[..|whole| - 1] == a + shorter;
    }
  }

  lemma {:induction false} FilterMapExactly<T, R>(s: seq<T>, f: T -> Option<R>, r: R)
    ensures r in FilterMap(s, f) <==> exists x | x in s :: f(x) == Some(r)
  {
    if s == [] {
    } else {
      var prefix, last := s[..|s| - 1], s[|s| - 1];
      FilterMapExactly(prefix, f, r);
      assert s == prefix + [last];
    }
  }

  lemma FilterMapOne<T, R>(x: T, f: T -> Option<R>)
    ensures FilterMap([x], f) == if f(x).None? then [] else [f(x).value]
  {
    assert [x][..0] == [] && FilterMap([x][..0], f) == [];
  }

  // ----- keeping -----

  function If<T>(keep: T -> bool): T -> Option<T> {
    (x: T) => if keep(x) then Some(x) else None
  }

  function Filter<T>(s: seq<T>, keep: T -> bool): seq<T> {
    FilterMap(s, If(keep))
  }

  lemma FilterDistributes<T>(a: seq<T>, b: seq<T>, keep: T -> bool)
    ensures Filter(a + b, keep) == Filter(a, keep) + Filter(b, keep)
  {
    FilterMapDistributes(a, b, If(keep));
  }

  lemma FilterOne<T>(x: T, keep: T -> bool)
    ensures Filter([x], keep) == if keep(x) then [x] else []
  {
    FilterMapOne(x, If(keep));
  }

  lemma FilterAppend<T>(s: seq<T>, x: T, keep: T -> bool)
    ensures Filter(s + [x], keep) == if keep(x) then Filter(s, keep) + [x] else Filter(s, keep)
  {
    hide Filter;
    FilterDistributes(s, [x], keep);
    FilterOne(x, keep);
  }

  lemma FilterExactly<T>(s: seq<T>, keep: T -> bool)
    ensures forall x :: x in Filter(s, keep) <==> x in s && keep(x)
  {
    forall x
      ensures x in Filter(s, keep) <==> x in s && keep(x)
    {
      FilterMapExactly(s, If(keep), x);
      assert If(keep)(x) == if keep(x) then Some(x) else None;
    }
  }

  /** Unfolds a filter at the end of the list, whatever it was called with. */
  lemma LastFiltered<T>(s: seq<T>, keep: T -> bool)
    requires s != []
    ensures var prefix, last := s[..|s| - 1], s[|s| - 1];
            Filter(s, keep) == if keep(last) then Filter(prefix, keep) + [last] else Filter(prefix, keep)
  {
    assert s == s[..|s| - 1] + [s[|s| - 1]];
    FilterAppend(s[..|s| - 1], s[|s| - 1], keep);
  }

  /** A filter gives the list back exactly when there was nothing to drop. */
  lemma {:induction false} FilterKeepsAllExactly<T>(s: seq<T>, keep: T -> bool)
    ensures |Filter(s, keep)| <= |s|
    ensures Filter(s, keep) == s <==> forall x | x in s :: keep(x)
  {
    hide Filter;
    FilterExactly(s, keep);
    if s == [] {
      NothingFiltered(keep);
    } else {
      FilterKeepsAllExactly(s[..|s| - 1], keep);
      LastFiltered(s, keep);
      assert s == s[..|s| - 1] + [s[|s| - 1]];
    }
  }

  lemma NothingFiltered<T>(keep: T -> bool)
    ensures Filter([], keep) == []
  {
  }

  lemma {:induction false} FilterSame<T>(s: seq<T>, keep: T -> bool, also: T -> bool)
    requires forall x | x in s :: keep(x) == also(x)
    ensures Filter(s, keep) == Filter(s, also)
  {
    hide Filter;
    if s == [] {
      NothingFiltered(keep);
      NothingFiltered(also);
    } else {
      FilterSame(s[..|s| - 1], keep, also);
      LastFiltered(s, keep);
      LastFiltered(s, also);
    }
  }

  /** Two filters may be applied in either order; one that the other implies may be left out. */
  lemma {:induction false} FilterTwice<T>(s: seq<T>, keep: T -> bool, also: T -> bool)
    ensures Filter(Filter(s, keep), also) == Filter(Filter(s, also), keep)
    ensures (forall x | x in s && also(x) :: keep(x)) ==> Filter(Filter(s, keep), also) == Filter(s, also)
  {
    hide Filter;
    if s == [] {
      NothingFiltered(keep);
      NothingFiltered(also);
    } else {
      var prefix, last := s[..|s| - 1], s[|s| - 1];
      FilterTwice(prefix, keep, also);
      LastFiltered(s, keep);
      LastFiltered(s, also);
      FilterAppend(Filter(prefix, keep), last, also);
      FilterAppend(Filter(prefix, also), last, keep);
      assert forall x | x in prefix :: x in s;
    }
  }

  // ----- subsequences -----

  predicate IsSubsequence<T(==)>(a: seq<T>, b: seq<T>) {
    if a == [] then true
    else if b == [] then false
    else if a[|a| - 1] == b[|b| - 1] && IsSubsequence(a[..|a| - 1], b[..|b| - 1]) then true
    else IsSubsequence(a, b[..|b| - 1])
  }

  lemma SubsequenceExtends<T>(a: seq<T>, b: seq<T>, x: T)
    requires IsSubsequence(a, b)
    ensures IsSubsequence(a, b + [x])
    ensures IsSubsequence(a + [x], b + [x])
  {
    assert (b + [x])[..|b|] == b && (a + [x])[..|a|] == a;
  }

  lemma {:induction false} SubsequenceMembers<T>(a: seq<T>, b: seq<T>)
    requires IsSubsequence(a, b)
    ensures forall x | x in a :: x in b
  {
    if a == [] {
    } else {
      var shorter := b[..|b| - 1];
      if a[|a| - 1] == b[|b| - 1] && IsSubsequence(a[..|a| - 1], shorter) {
        SubsequenceMembers(a[..|a| - 1], shorter);
        assert a == a[..|a| - 1] + [a[|a| - 1]];
      } else {
        SubsequenceMembers(a, shorter);
      }
    }
  }

  lemma {:induction false} MemberIsSubsequence<T>(x: T, b: seq<T>)
    requires x in b
    ensures IsSubsequence([x], b)
  {
    if b[|b| - 1] == x {
    } else {
      MemberIsSubsequence(x, b[..|b| - 1]);
    }
  }

  lemma {:induction false} FilterIsSubsequence<T>(s: seq<T>, keep: T -> bool)
    ensures IsSubsequence(Filter(s, keep), s)
  {
    hide Filter, IsSubsequence;
    if s == [] {
      NothingFiltered(keep);
      EmptyIsSubsequence<T>();
    } else {
      var prefix, last := s[..|s| - 1], s[|s| - 1];
      FilterIsSubsequence(prefix, keep);
      LastFiltered(s, keep);
      SubsequenceExtends(Filter(prefix, keep), prefix, last);
      assert s == prefix + [last];
    }
  }

  lemma EmptyIsSubsequence<T>()
    ensures IsSubsequence<T>([], [])
  {
  }

  /** The one largest subsequence of what is to be kept. */
  ghost predicate IsLargestPart<T(!new)>(kept: seq<T>, s: seq<T>, keep: T -> bool) {
    && IsSubsequence(kept, s)
    && (forall x | x in kept :: keep(x))
    && forall other | IsSubsequence(other, s) && (forall x | x in other :: keep(x)) :: IsSubsequence(other, kept)
  }

  lemma FilterIsLargestPart<T(!new)>(s: seq<T>, keep: T -> bool)
    ensures IsLargestPart(Filter(s, keep), s, keep)
  {
    hide Filter, IsSubsequence;
    FilterIsSubsequence(s, keep);
    FilterExactly(s, keep);
    forall other | IsSubsequence(other, s) && (forall x | x in other :: keep(x))
      ensures IsSubsequence(other, Filter(s, keep))
    {
      FilterIsLargest(other, s, keep);
    }
  }

  /** Of all subsequences without an element to drop, the filtered list is the largest. */
  lemma {:induction false} FilterIsLargest<T>(kept: seq<T>, s: seq<T>, keep: T -> bool)
    requires IsSubsequence(kept, s) && forall x | x in kept :: keep(x)
    ensures IsSubsequence(kept, Filter(s, keep))
  {
    if kept == [] {
    } else {
      hide Filter;
      var prefix, last := s[..|s| - 1], s[|s| - 1];
      var rest := Filter(prefix, keep);
      LastFiltered(s, keep);
      if kept[|kept| - 1] == last && IsSubsequence(kept[..|kept| - 1], prefix) {
        FilterIsLargest(kept[..|kept| - 1], prefix, keep);
        SubsequenceExtends(kept[..|kept| - 1], rest, last);
        assert kept[..|kept| - 1] + [last] == kept;
        assert last in kept;
      } else {
        FilterIsLargest(kept, prefix, keep);
        SubsequenceExtends(kept, rest, last);
      }
    }
  }
}
