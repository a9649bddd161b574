/** LinqExtensions.Max: first-maximum selection over a sequence under a
    caller-supplied comparison (negative: less, zero: equal, positive: greater). */
module LinqExtensions {

  /** Position of the element Max returns on a non-empty source: the running
      maximum is replaced only when a later element compares strictly greater. */
  function MaxIndex<T>(s: seq<T>, comparison: (T, T) -> int): (k: nat)
    requires |s| > 0
    ensures k < |s|
  {
    if |s| == 1 then 0
    else
      var m := MaxIndex(s[..|s| - 1], comparison);
      if comparison(s[|s| - 1], s[m]) > 0 then |s| - 1 else m
  }

  /** The contract of System.Comparison: the sign flips when the arguments are
      swapped, and "not greater" is transitive. */
  ghost predicate TotalPreorder<T(!new)>(comparison: (T, T) -> int) {
    && (forall x, y :: comparison(x, y) > 0 <==> comparison(y, x) < 0)
    && (forall x, y, z :: comparison(x, y) <= 0 && comparison(y, z) <= 0 ==> comparison(x, z) <= 0)
  }

  /** Max(source, comparison), where `zero` is default(T). The ghost `calls`
      records the arguments of every call of `comparison`, in order. */
  method Max<T>(source: seq<T>, comparison: (T, T) -> int, zero: T) returns (max: T, ghost calls: seq<(T, T)>)
    ensures |source| == 0 ==> max == zero && calls == []
    ensures |source| > 0 ==> max == source[MaxIndex(source, comparison)]
    ensures |source| > 0 ==> |calls| == |source| - 1
    ensures forall k :: 0 <= k < |calls| ==>
              calls[k] == (source[k + 1], source[MaxIndex(source[..k + 1], comparison)])
  {
    var first := true;
    max := zero;
    calls := [];
    var i := 0;
    while i < |source|
      invariant 0 <= i <= |source|
      invariant first <==> i == 0
      invariant i == 0 ==> max == zero && calls == []
      invariant i > 0 ==> max == source[MaxIndex(source[..i], comparison)] && |calls| == i - 1
      invariant forall k :: 0 <= k < |calls| ==>
                  calls[k] == (source[k + 1], source[MaxIndex(source[..k + 1], comparison)])
    {
      var o := source[i];
      var replace: bool;
      if first {
        replace := true;
      } else {
        calls := calls + [(o, max)];
        replace := comparison(o, max) > 0;
      }
      if replace {
        max := o;
      }
      first := false;
      assert source[..i + 1][..i] == source[..i];
      i := i + 1;
    }
    assert source[..|source|] == source;
  }

  /** Once chosen, the result is never displaced: no later element compares
      strictly greater than it. Holds for any comparison. */
  lemma {:induction false} LaterNeverGreater<T>(s: seq<T>, comparison: (T, T) -> int, j: nat)
    requires |s| > 0 && MaxIndex(s, comparison) < j < |s|
    ensures comparison(s[j], s[MaxIndex(s, comparison)]) <= 0
  {
    var p := s[..|s| - 1];
    var m := MaxIndex(p, comparison);
    if comparison(s[|s| - 1], s[m]) <= 0 && j < |s| - 1 {
      LaterNeverGreater(p, comparison, j);
    }
  }

  /** Under a total preorder no element compares strictly greater than the result. */
  lemma {:induction false} MaxIndexIsMaximal<T(!new)>(s: seq<T>, comparison: (T, T) -> int, j: nat)
    requires TotalPreorder(comparison)
    requires j < |s|
    ensures comparison(s[j], s[MaxIndex(s, comparison)]) <= 0
  {
    if |s| > 1 {
      var p := s[..|s| - 1];
      var m := MaxIndex(p, comparison);
      var last := s[|s| - 1];
      if j < |s| - 1 {
        MaxIndexIsMaximal(p, comparison, j);
      }
      if comparison(last, s[m]) > 0 {
        assert comparison(s[m], last) < 0;
        assert comparison(last, last) <= 0 by {
          assert comparison(last, last) > 0 <==> comparison(last, last) < 0;
        }
      }
    } else {
      assert comparison(s[0], s[0]) > 0 <==> comparison(s[0], s[0]) < 0;
    }
  }

  /** Under a total preorder every element before the result compares strictly
      less: among equal maxima the earliest is returned. */
  lemma {:induction false} MaxIndexIsEarliest<T(!new)>(s: seq<T>, comparison: (T, T) -> int, j: nat)
    requires TotalPreorder(comparison)
    requires |s| > 0 && j < MaxIndex(s, comparison)
    ensures comparison(s[j], s[MaxIndex(s, comparison)]) < 0
  {
    var p := s[..|s| - 1];
    var m := MaxIndex(p, comparison);
    var last := s[|s| - 1];
    if comparison(last, s[m]) > 0 {
      // the last element became the maximum
      MaxIndexIsMaximal(p, comparison, j);
      var sj, sm := s[j], s[m];
      assert comparison(last, sj) <= 0 && comparison(sj, sm) <= 0 ==> comparison(last, sm) <= 0;
      assert comparison(last, sj) > 0 <==> comparison(sj, last) < 0;
    } else {
      MaxIndexIsEarliest(p, comparison, j);
    }
  }

  /** Under a total preorder the two properties above single out MaxIndex. */
  lemma MaxIndexUnique<T(!new)>(s: seq<T>, comparison: (T, T) -> int, k: nat)
    requires TotalPreorder(comparison)
    requires k < |s|
    requires forall j :: 0 <= j < |s| ==> comparison(s[j], s[k]) <= 0
    requires forall j :: 0 <= j < k ==> comparison(s[j], s[k]) < 0
    ensures k == MaxIndex(s, comparison)
  {
    var m := MaxIndex(s, comparison);
    MaxIndexIsMaximal(s, comparison, k);
    if k < m {
      MaxIndexIsEarliest(s, comparison, k);
    }
  }
}
