/**
  Counting metrics shared by the two training scripts: the number of positions at
  which two label vectors agree, boolean-mask selection, and the ratios built from
  them (accuracy on a mask, accuracy of a whole vector, similarity of two
  consecutive prediction vectors).

  Floating point is replaced by exact reals. A tensor division 0/0 yields NaN
  rather than raising, which the `Score` datatype keeps visible.
 */
module Metrics {

  /** A floating-point ratio as produced by a tensor division: NaN when the
      denominator is zero, otherwise an exact real. */
  datatype Score = NaN | Num(v: real)

  /** `x > bound` on a tensor value: a NaN compares greater than nothing. */
  predicate Exceeds(x: Score, bound: real) {
    x.Num? && x.v > bound
  }

  /** The number of positions at which `a` and `b` agree: `(a == b).sum()`. */
  function MatchCount<T(==)>(a: seq<T>, b: seq<T>): (r: nat)
    requires |a| == |b|
    ensures r <= |a|
  {
    if |a| == 0 then 0
    else
      var n := |a| - 1;
      MatchCount(a[..n], b[..n]) + (if a[n] == b[n] then 1 else 0)
  }

  /** All positions agree exactly when the count is the full length; none agrees
      exactly when the count is zero. */
  lemma {:induction false} MatchCountExtremes<T>(a: seq<T>, b: seq<T>)
    requires |a| == |b|
    ensures MatchCount(a, b) == |a| <==> a == b
    ensures MatchCount(a, b) == 0 <==> forall i :: 0 <= i < |a| ==> a[i] != b[i]
  {
    if |a| > 0 {
      var n := |a| - 1;
      MatchCountExtremes(a[..n], b[..n]);
      assert a == a[..n] + [a[n]] && b == b[..n] + [b[n]];
      if MatchCount(a, b) == 0 {
        forall i | 0 <= i < |a| ensures a[i] != b[i] {
          if i < n { assert a[..n][i] == a[i] && b[..n][i] == b[i]; }
        }
      }
    }
  }

  /** The positions at which `a` and `b` agree, as a set: the reference reading of `MatchCount`. */
  ghost function MatchIndices<T>(a: seq<T>, b: seq<T>): set<int>
    requires |a| == |b|
  {
    set i | 0 <= i < |a| && a[i] == b[i]
  }

  lemma {:induction false} MatchCountIsCardinality<T>(a: seq<T>, b: seq<T>)
    requires |a| == |b|
    ensures MatchCount(a, b) == |MatchIndices(a, b)|
  {
    if |a| > 0 {
      var n := |a| - 1;
      MatchCountIsCardinality(a[..n], b[..n]);
      var before := MatchIndices(a[..n], b[..n]);
      if a[n] == b[n] {
        assert MatchIndices(a, b) == before + {n};
        assert n !in before;
      } else {
        assert MatchIndices(a, b) == before;
      }
    }
  }

  /** `num / den` as a tensor division of two counts, with `num <= den`. */
  function Ratio(num: nat, den: nat): (r: Score)
    requires num <= den
    ensures r.NaN? <==> den == 0
    ensures r.Num? ==> 0.0 <= r.v <= 1.0
    ensures r.Num? ==> (r.v == 1.0 <==> num == den)
    ensures r.Num? ==> (r.v == 0.0 <==> num == 0)
  {
    if den == 0 then NaN else Num(num as real / den as real)
  }

  /** `accuracy_score(preds, truth)` of the BRIDGE script: agreeing positions over the length. */
  function Accuracy<T(==)>(preds: seq<T>, truth: seq<T>): (r: Score)
    requires |preds| == |truth|
    ensures r.NaN? <==> |truth| == 0
    ensures r.Num? ==> 0.0 <= r.v <= 1.0
    ensures r.Num? ==> (r.v == 1.0 <==> preds == truth)
    ensures r.Num? ==> (r.v == 0.0 <==> forall i :: 0 <= i < |truth| ==> preds[i] != truth[i])
  {
    MatchCountExtremes(preds, truth);
    Ratio(MatchCount(preds, truth), |truth|)
  }

  /** The similarity rate between the current and the previous prediction vector of OGC.
      The source divides a Python float by the node count, which raises on zero nodes. */
  function SimRate<T(==)>(pred: seq<T>, last: seq<T>): (r: real)
    requires |pred| == |last| > 0
    ensures 0.0 <= r <= 1.0
    ensures r == 1.0 <==> pred == last
    ensures r == 0.0 <==> forall i :: 0 <= i < |pred| ==> pred[i] != last[i]
  {
    MatchCountExtremes(pred, last);
    MatchCount(pred, last) as real / |pred| as real
  }

  /** The positions a boolean mask selects. */
  ghost function TrueIndices(m: seq<bool>): set<int> {
    set i | 0 <= i < |m| && m[i]
  }

  /** `mask.sum()`: the number of selected positions. */
  function MaskCount(m: seq<bool>): (r: nat)
    ensures r <= |m|
    ensures r == 0 <==> forall i :: 0 <= i < |m| ==> !m[i]
  {
    if |m| == 0 then 0 else MaskCount(m[..|m| - 1]) + (if m[|m| - 1] then 1 else 0)
  }

  lemma {:induction false} MaskCountIsCardinality(m: seq<bool>)
    ensures MaskCount(m) == |TrueIndices(m)|
  {
    if |m| > 0 {
      var n := |m| - 1;
      MaskCountIsCardinality(m[..n]);
      var before := TrueIndices(m[..n]);
      if m[n] {
        assert TrueIndices(m) == before + {n};
        assert n !in before;
      } else {
        assert TrueIndices(m) == before;
      }
    }
  }

  /** Boolean-mask indexing `s[mask]`: the selected elements, in order. */
  function Select<T>(s: seq<T>, m: seq<bool>): (r: seq<T>)
    requires |s| == |m|
    ensures |r| <= |s|
  {
    if |s| == 0 then []
    else
      var n := |s| - 1;
      Select(s[..n], m[..n]) + (if m[n] then [s[n]] else [])
  }

  /** `s[mask]` takes its elements from `s` and no element more often than `s` holds it;
      a value occurs in it exactly when it sits at a selected position of `s`. */
  lemma {:induction false} SelectMembers<T>(s: seq<T>, m: seq<bool>)
    requires |s| == |m|
    ensures multiset(Select(s, m)) <= multiset(s)
    ensures forall x :: x in Select(s, m) <==> exists i :: 0 <= i < |m| && m[i] && s[i] == x
  {
    if |s| > 0 {
      var n := |s| - 1;
      SelectMembers(s[..n], m[..n]);
      assert s == s[..n] + [s[n]];
    }
    forall x ensures x in Select(s, m) <==> exists i :: 0 <= i < |m| && m[i] && s[i] == x {
      SelectMember(s, m, x);
    }
  }

  /** One value at a time: `x` is in `s[mask]` exactly when some selected position holds it. */
  lemma {:induction false} SelectMember<T>(s: seq<T>, m: seq<bool>, x: T)
    requires |s| == |m|
    ensures x in Select(s, m) <==> exists i :: 0 <= i < |m| && m[i] && s[i] == x
  {
    if |s| > 0 {
      var n := |s| - 1;
      var s0, m0 := s[..n], m[..n];
      SelectMember(s0, m0, x);
      var p0 := Select(s0, m0);
      assert Select(s, m) == p0 + (if m[n] then [s[n]] else []);
      if x in Select(s, m) {
        if x in p0 {
          var i :| 0 <= i < |m0| && m0[i] && s0[i] == x;
          assert m[i] && s[i] == x;
        } else {
          assert m[n] && s[n] == x;
        }
      }
      if exists i :: 0 <= i < |m| && m[i] && s[i] == x {
        var i :| 0 <= i < |m| && m[i] && s[i] == x;
        if i < n {
          assert m0[i] && s0[i] == x;
        }
      }
    }
  }

  /** Selecting with a mask keeps exactly `mask.sum()` elements. */
  lemma {:induction false} SelectLength<T>(s: seq<T>, m: seq<bool>)
    requires |s| == |m|
    ensures |Select(s, m)| == MaskCount(m)
  {
    if |s| > 0 {
      SelectLength(s[..|s| - 1], m[..|s| - 1]);
    }
  }

  lemma SelectSnoc<T>(s: seq<T>, m: seq<bool>)
    requires |s| == |m| > 0
    ensures var n := |m| - 1;
      Select(s, m) == Select(s[..n], m[..n]) + (if m[n] then [s[n]] else [])
  {
  }

  /** `(pred[mask] == y[mask]).sum()`: the matches among the selected elements. */
  function MaskedMatches<T(==)>(pred: seq<T>, y: seq<T>, m: seq<bool>): (r: nat)
    requires |pred| == |y| == |m|
    ensures r <= MaskCount(m)
  {
    SelectLength(pred, m);
    SelectLength(y, m);
    MatchCount(Select(pred, m), Select(y, m))
  }

  /** The selected positions at which the predictions are right. */
  ghost function MaskedMatchIndices<T>(pred: seq<T>, y: seq<T>, m: seq<bool>): set<int>
    requires |pred| == |y| == |m|
  {
    set i | 0 <= i < |m| && m[i] && pred[i] == y[i]
  }

  lemma MatchCountSnoc<T>(a: seq<T>, b: seq<T>, x: T, z: T)
    requires |a| == |b|
    ensures MatchCount(a + [x], b + [z]) == MatchCount(a, b) + (if x == z then 1 else 0)
  {
    assert (a + [x])[..|a|] == a;
    assert (b + [z])[..|b|] == b;
  }

  /** The inductive step of `MaskedMatchesIsCardinality` on the counting side. */
  lemma MaskedMatchesStep<T>(pred: seq<T>, y: seq<T>, m: seq<bool>)
    requires |pred| == |y| == |m| > 0
    ensures var n := |m| - 1;
      MaskedMatches(pred, y, m)
      == MaskedMatches(pred[..n], y[..n], m[..n]) + (if m[n] && pred[n] == y[n] then 1 else 0)
  {
    var n := |m| - 1;
    var p0, y0 := Select(pred[..n], m[..n]), Select(y[..n], m[..n]);
    SelectLength(pred[..n], m[..n]);
    SelectLength(y[..n], m[..n]);
    SelectSnoc(pred, m);
    SelectSnoc(y, m);
    if m[n] {
      MatchCountSnoc(p0, y0, pred[n], y[n]);
    } else {
      assert Select(pred, m) == p0 + [];
      assert Select(y, m) == y0 + [];
      assert p0 + [] == p0 && y0 + [] == y0;
    }
  }

  /** The inductive step of `MaskedMatchesIsCardinality` on the set side. */
  lemma MaskedMatchIndicesStep<T>(pred: seq<T>, y: seq<T>, m: seq<bool>)
    requires |pred| == |y| == |m| > 0
    ensures var n := |m| - 1;
      |MaskedMatchIndices(pred, y, m)|
      == |MaskedMatchIndices(pred[..n], y[..n], m[..n])| + (if m[n] && pred[n] == y[n] then 1 else 0)
  {
    var n := |m| - 1;
    var before := MaskedMatchIndices(pred[..n], y[..n], m[..n]);
    assert MaskedMatchIndices(pred, y, m) == before + (if m[n] && pred[n] == y[n] then {n} else {});
    assert n !in before;
  }

  /** Counting the matches among the selected elements counts exactly the selected
      positions at which the predictions are right. */
  lemma {:induction false} MaskedMatchesIsCardinality<T>(pred: seq<T>, y: seq<T>, m: seq<bool>)
    requires |pred| == |y| == |m|
    ensures MaskedMatches(pred, y, m) == |MaskedMatchIndices(pred, y, m)|
  {
    if |m| > 0 {
      var n := |m| - 1;
      MaskedMatchesIsCardinality(pred[..n], y[..n], m[..n]);
      MaskedMatchesStep(pred, y, m);
      MaskedMatchIndicesStep(pred, y, m);
    }
  }

  /** Selected elements agree exactly when the two vectors agree at every selected position. */
  lemma {:induction false} SelectEqual<T>(pred: seq<T>, y: seq<T>, m: seq<bool>)
    requires |pred| == |y| == |m|
    ensures Select(pred, m) == Select(y, m) <==> forall i :: 0 <= i < |m| && m[i] ==> pred[i] == y[i]
  {
    if |m| > 0 {
      var n := |m| - 1;
      SelectEqual(pred[..n], y[..n], m[..n]);
      var p0, y0 := Select(pred[..n], m[..n]), Select(y[..n], m[..n]);
      SelectLength(pred[..n], m[..n]);
      SelectLength(y[..n], m[..n]);
      SelectSnoc(pred, m);
      SelectSnoc(y, m);
      if m[n] {
        if Select(pred, m) == Select(y, m) {
          assert p0 == Select(pred, m)[..|p0|] && y0 == Select(y, m)[..|y0|];
        }
      } else {
        assert Select(pred, m) == p0 + [] == p0;
        assert Select(y, m) == y0 + [] == y0;
      }
    }
  }

  /** Per-mask accuracy of OGC's `test`: matches inside the mask over `mask.sum()`. */
  function MaskedAccuracy<T(==)>(pred: seq<T>, y: seq<T>, m: seq<bool>): (r: Score)
    requires |pred| == |y| == |m|
    ensures r.NaN? <==> forall i :: 0 <= i < |m| ==> !m[i]
    ensures r.Num? ==> 0.0 <= r.v <= 1.0
    ensures r.Num? ==> (r.v == 1.0 <==> forall i :: 0 <= i < |m| && m[i] ==> pred[i] == y[i])
  {
    SelectLength(pred, m);
    SelectLength(y, m);
    SelectEqual(pred, y, m);
    MatchCountExtremes(Select(pred, m), Select(y, m));
    Ratio(MaskedMatches(pred, y, m), MaskCount(m))
  }

  /** On a non-empty mask the accuracy is the fraction of selected positions predicted
      correctly, and it equals `Accuracy` applied to the selected elements. */
  lemma MaskedAccuracyMeaning<T>(pred: seq<T>, y: seq<T>, m: seq<bool>)
    requires |pred| == |y| == |m|
    requires exists i :: 0 <= i < |m| && m[i]
    ensures |TrueIndices(m)| > 0
    ensures MaskedAccuracy(pred, y, m)
         == Num(|MaskedMatchIndices(pred, y, m)| as real / |TrueIndices(m)| as real)
    ensures |Select(pred, m)| == |Select(y, m)|
         && MaskedAccuracy(pred, y, m) == Accuracy(Select(pred, m), Select(y, m))
  {
    MaskedMatchesIsCardinality(pred, y, m);
    MaskCountIsCardinality(m);
    SelectLength(pred, m);
    SelectLength(y, m);
  }

  /** `MaskedAccuracy`'s value stated for every mask: a number is correct selected positions
      over selected positions. */
  lemma MaskedAccuracyValue<T>(pred: seq<T>, y: seq<T>, m: seq<bool>)
    requires |pred| == |y| == |m|
    ensures MaskedAccuracy(pred, y, m).Num? ==>
      |TrueIndices(m)| > 0
      && MaskedAccuracy(pred, y, m).v == |MaskedMatchIndices(pred, y, m)| as real / |TrueIndices(m)| as real
  {
    if MaskedAccuracy(pred, y, m).Num? {
      MaskedAccuracyMeaning(pred, y, m);
    }
  }

  /** The elementwise OR of two masks: `train_mask | val_mask`. It selects exactly the
      positions either mask selects. */
  function OrMask(a: seq<bool>, b: seq<bool>): (r: seq<bool>)
    requires |a| == |b|
    ensures |r| == |a|
    ensures forall i :: 0 <= i < |a| ==> (r[i] <==> a[i] || b[i])
    ensures TrueIndices(r) == TrueIndices(a) + TrueIndices(b)
  {
    seq(|a|, i requires 0 <= i < |a| => a[i] || b[i])
  }

  /** Hence the OR mask is at least as large as each mask and at most their sum. */
  lemma OrMaskCount(a: seq<bool>, b: seq<bool>)
    requires |a| == |b|
    ensures MaskCount(a) <= MaskCount(OrMask(a, b)) <= MaskCount(a) + MaskCount(b)
    ensures MaskCount(b) <= MaskCount(OrMask(a, b))
  {
    var o := OrMask(a, b);
    MaskCountIsCardinality(a);
    MaskCountIsCardinality(b);
    MaskCountIsCardinality(o);
    SubsetCardinality(TrueIndices(a), TrueIndices(o));
    SubsetCardinality(TrueIndices(b), TrueIndices(o));
  }

  lemma SubsetCardinality(small: set<int>, big: set<int>)
    requires small <= big
    ensures |small| <= |big|
  {
    assert big == small + (big - small);
  }
}
