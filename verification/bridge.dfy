/**
  The discrete part of the BRIDGE training script on TACM12K: the unified node
  index space (papers first, then authors), the relation list the homogeneous graph
  is built from, the stacked feature matrix, the per-epoch accuracies and the
  tracking of the best validation accuracy with its test accuracy.

  DataFrames become sequences of rows; a pandas cell that `Series.map` leaves
  without an image (NaN) becomes `None`.
 */
module Bridge {
  import opened Wrappers
  import opened Metrics

  // ---------------------------------------------------------------------------
  // Unified index space and relation list

  /** A row of the citation table: the citing paper and the cited paper. */
  datatype Cite = Cite(paper: int, cited: int)

  /** A row of the authorship table: the paper and one of its authors. */
  datatype Writes = Writes(paper: int, author: int)

  /** A row of `relation_df`: the first column of its source table and the `Target` column. */
  datatype Relation = Relation(src: int, target: Option<int>)

  /** `author2id`: the author at table position `k` gets the unified index `nPapers + k`.
      A dict comprehension keeps the last binding of a repeated key, so an author id
      that occurs twice maps to its last position. Every image lies past the paper
      indices and leads back to its author (`authors[m[a] - nPapers] == a`). */
  function Author2Id(nPapers: nat, authors: seq<int>): (m: map<int, int>)
    ensures forall a :: a in m <==> a in authors
    ensures forall a :: a in m ==> nPapers <= m[a] < nPapers + |authors| && authors[m[a] - nPapers] == a
  {
    if |authors| == 0 then map[]
    else
      var n := |authors| - 1;
      var m0 := Author2Id(nPapers, authors[..n]);
      assert authors == authors[..n] + [authors[n]];
      m0[authors[n] := nPapers + n]
  }

  /** A repeated author id maps to its last position in the table. */
  lemma {:induction false} Author2IdLastWins(nPapers: nat, authors: seq<int>, k: nat)
    requires k < |authors| && authors[k] !in authors[k + 1..]
    ensures authors[k] in Author2Id(nPapers, authors)
    ensures Author2Id(nPapers, authors)[authors[k]] == nPapers + k
  {
    var n := |authors| - 1;
    if k < n {
      assert authors[..n][k + 1..] == authors[k + 1..n];
      assert authors[k] != authors[n];
      Author2IdLastWins(nPapers, authors[..n], k);
    }
  }

  /** Different authors never share an index, and no author index collides with a paper
      index `0 .. nPapers - 1`. */
  lemma Author2IdInjective(nPapers: nat, authors: seq<int>)
    ensures var m := Author2Id(nPapers, authors);
      && (forall a, b :: a in m && b in m && a != b ==> m[a] != m[b])
      && (forall a :: a in m ==> !(0 <= m[a] < nPapers))
  {
  }

  /** With pairwise distinct author ids (an index column), author `k` maps to `nPapers + k`. */
  lemma Author2IdDistinct(nPapers: nat, authors: seq<int>)
    requires forall i, j :: 0 <= i < j < |authors| ==> authors[i] != authors[j]
    ensures var m := Author2Id(nPapers, authors);
      forall k :: 0 <= k < |authors| ==> authors[k] in m && m[authors[k]] == nPapers + k
  {
    var m := Author2Id(nPapers, authors);
    forall k | 0 <= k < |authors|
      ensures authors[k] in m && m[authors[k]] == nPapers + k
    {
      assert authors[k] in authors;
      var idx := m[authors[k]] - nPapers;
      assert authors[idx] == authors[k];
    }
  }

  /** The citation rows of `relation_df`: the citing paper with `Target = paper_id_cited`. */
  function CiteRelations(cites: seq<Cite>): (r: seq<Relation>)
    ensures |r| == |cites|
    ensures forall i :: 0 <= i < |cites| ==> r[i] == Relation(cites[i].paper, Some(cites[i].cited))
  {
    seq(|cites|, i requires 0 <= i < |cites| => Relation(cites[i].paper, Some(cites[i].cited)))
  }

  /** `author_id.map(author2id)`: the mapped index, NaN for an id the map does not know. */
  function MapAuthor(author2id: map<int, int>, author: int): Option<int> {
    if author in author2id then Some(author2id[author]) else None
  }

  /** The authorship rows of `relation_df`: the paper with `Target = author2id[author_id]`. */
  function WriteRelations(author2id: map<int, int>, writes: seq<Writes>): (r: seq<Relation>)
    ensures |r| == |writes|
    ensures forall j :: 0 <= j < |writes| ==> r[j] == Relation(writes[j].paper, MapAuthor(author2id, writes[j].author))
  {
    seq(|writes|, j requires 0 <= j < |writes| => Relation(writes[j].paper, MapAuthor(author2id, writes[j].author)))
  }

  /** `relation_df`: all citation rows, in order, followed by all authorship rows, in order.
      Citation targets are the cited paper ids unchanged; an authorship target is present
      exactly when the author is in the author table, and then it is an author index
      past all paper indices that leads back to that author. */
  function RelationList(nPapers: nat, authors: seq<int>, cites: seq<Cite>, writes: seq<Writes>)
    : (r: seq<Relation>)
    ensures |r| == |cites| + |writes|
    ensures forall i :: 0 <= i < |cites| ==> r[i] == Relation(cites[i].paper, Some(cites[i].cited))
    ensures forall j :: 0 <= j < |writes| ==> r[|cites| + j].src == writes[j].paper
    ensures forall j :: 0 <= j < |writes| ==> (r[|cites| + j].target.Some? <==> writes[j].author in authors)
    ensures forall j :: 0 <= j < |writes| && r[|cites| + j].target.Some? ==>
              var t := r[|cites| + j].target.value;
              nPapers <= t < nPapers + |authors| && authors[t - nPapers] == writes[j].author
  {
    var c := CiteRelations(cites);
    var m := Author2Id(nPapers, authors);
    var w := WriteRelations(m, writes);
    assert forall j :: 0 <= j < |writes| ==> (c + w)[|cites| + j] == w[j];
    c + w
  }

  /** `torch.cat([paper_embeddings, author_embeddings])`: paper rows, then author rows. */
  function Features<R>(paperEmb: seq<R>, authorEmb: seq<R>): (x: seq<R>)
    ensures |x| == |paperEmb| + |authorEmb|
    ensures forall i :: 0 <= i < |paperEmb| ==> x[i] == paperEmb[i]
    ensures forall k :: 0 <= k < |authorEmb| ==> x[|paperEmb| + k] == authorEmb[k]
  {
    paperEmb + authorEmb
  }

  /** The feature row at an author's unified index is the embedding row at that author's
      position in the author table, when the author embeddings follow the table order and
      the offset is the number of paper embedding rows. With repeated ids it is the row of
      the last occurrence, the one `author2id` keeps. */
  lemma FeatureRowOfAuthor<R>(paperEmb: seq<R>, authorEmb: seq<R>, authors: seq<int>)
    requires |authorEmb| == |authors|
    ensures var m := Author2Id(|paperEmb|, authors);
      var x := Features(paperEmb, authorEmb);
      forall a :: a in m ==>
        |paperEmb| <= m[a] < |x| && authors[m[a] - |paperEmb|] == a
        && x[m[a]] == authorEmb[m[a] - |paperEmb|]
  {
  }

  // ---------------------------------------------------------------------------
  // Per-epoch accuracies and best tracking

  /** `test_epoch`: `accuracy_score` of the predictions against the labels on the train,
      validation and test masks. An empty mask yields NaN. */
  function EpochAccuracies(preds: seq<int>, y: seq<int>, train: seq<bool>, val: seq<bool>, test: seq<bool>)
    : (r: (Score, Score, Score))
    requires |preds| == |y| == |train| == |val| == |test|
    ensures r.0.NaN? <==> forall i :: 0 <= i < |y| ==> !train[i]
    ensures r.1.NaN? <==> forall i :: 0 <= i < |y| ==> !val[i]
    ensures r.2.NaN? <==> forall i :: 0 <= i < |y| ==> !test[i]
    ensures r.0.Num? ==> 0.0 <= r.0.v <= 1.0
    ensures r.1.Num? ==> 0.0 <= r.1.v <= 1.0
    ensures r.2.Num? ==> 0.0 <= r.2.v <= 1.0
    ensures r.0 == MaskedAccuracy(preds, y, train)
    ensures r.1 == MaskedAccuracy(preds, y, val)
    ensures r.2 == MaskedAccuracy(preds, y, test)
  {
    (MaskAccuracy(preds, y, train), MaskAccuracy(preds, y, val), MaskAccuracy(preds, y, test))
  }

  /** `accuracy_score(preds[mask], y[mask])`. */
  function MaskAccuracy(preds: seq<int>, y: seq<int>, m: seq<bool>): (r: Score)
    requires |preds| == |y| == |m|
    ensures r == MaskedAccuracy(preds, y, m)
  {
    SelectLength(preds, m);
    SelectLength(y, m);
    MaskedAccuracyEqualsAccuracy(preds, y, m);
    Accuracy(Select(preds, m), Select(y, m))
  }

  lemma MaskedAccuracyEqualsAccuracy(preds: seq<int>, y: seq<int>, m: seq<bool>)
    requires |preds| == |y| == |m|
    ensures |Select(preds, m)| == |Select(y, m)|
    ensures MaskedAccuracy(preds, y, m) == Accuracy(Select(preds, m), Select(y, m))
  {
    SelectLength(preds, m);
    SelectLength(y, m);
    if MaskCount(m) > 0 {
      var i :| 0 <= i < |m| && m[i];
      MaskedAccuracyMeaning(preds, y, m);
    }
  }

  /** The validation and test accuracy of one epoch. */
  datatype EpochAccs = EpochAccs(val: Score, test: Score)

  /** `best_val_acc` and `best_test_acc`. */
  datatype Best = Best(val: real, test: Score)

  /** `best_val_acc = best_test_acc = 0` before the first epoch. */
  const Initial: Best := Best(0.0, Num(0.0))

  /** The update after one epoch: `if val_acc > best_val_acc` (false for NaN) take both. */
  function Improve(b: Best, e: EpochAccs): (r: Best)
    ensures r.val >= b.val
    ensures Exceeds(e.val, b.val) <==> r.val > b.val
    ensures Exceeds(e.val, b.val) ==> r == Best(e.val.v, e.test)
    ensures r != b ==> Exceeds(e.val, b.val)
  {
    if Exceeds(e.val, b.val) then Best(e.val.v, e.test) else b
  }

  /** The best pair after the given epochs, a left fold of `Improve` from `Initial`. */
  function Track(epochs: seq<EpochAccs>): (r: Best)
    ensures r.val >= 0.0
  {
    if |epochs| == 0 then Initial
    else Improve(Track(epochs[..|epochs| - 1]), epochs[|epochs| - 1])
  }

  /** `best_val_acc` never decreases from one epoch to a later one. */
  lemma {:induction false} TrackMonotone(epochs: seq<EpochAccs>, i: nat, j: nat)
    requires i <= j <= |epochs|
    ensures Track(epochs[..i]).val <= Track(epochs[..j]).val
  {
    if i < j {
      TrackMonotone(epochs, i, j - 1);
      assert epochs[..j][..j - 1] == epochs[..j - 1];
    }
  }

  /** Some epoch's validation accuracy exceeds the initial 0. */
  predicate AnyPositive(epochs: seq<EpochAccs>) {
    exists i :: 0 <= i < |epochs| && Exceeds(epochs[i].val, 0.0)
  }

  /** Epoch `i` is the first whose validation accuracy equals `x`. */
  predicate FirstAttains(epochs: seq<EpochAccs>, i: int, x: real) {
    && 0 <= i < |epochs|
    && epochs[i].val == Num(x)
    && forall j :: 0 <= j < i ==> epochs[j].val != Num(x)
  }

  /** At the end `best_val_acc` is the maximum of 0 and every (non-NaN) validation
      accuracy, and `best_test_acc` is the test accuracy of the first epoch attaining that
      maximum; when no validation accuracy exceeds 0 both stay 0. */
  lemma {:induction false} TrackIsFirstMaximum(epochs: seq<EpochAccs>)
    ensures forall i :: 0 <= i < |epochs| && epochs[i].val.Num? ==> epochs[i].val.v <= Track(epochs).val
    ensures AnyPositive(epochs) ==>
              exists i :: FirstAttains(epochs, i, Track(epochs).val) && Track(epochs).test == epochs[i].test
    ensures !AnyPositive(epochs) ==> Track(epochs) == Initial
  {
    if |epochs| > 0 {
      var n := |epochs| - 1;
      var p := epochs[..n];
      TrackIsFirstMaximum(p);
      var b := Track(p);
      assert forall i :: 0 <= i < n ==> p[i] == epochs[i];
      if Exceeds(epochs[n].val, b.val) {
        assert FirstAttains(epochs, n, Track(epochs).val);
        assert Exceeds(epochs[n].val, 0.0);
      } else {
        assert Track(epochs) == b;
        if AnyPositive(p) {
          var i :| FirstAttains(p, i, b.val) && b.test == p[i].test;
          assert FirstAttains(epochs, i, Track(epochs).val);
        } else {
          assert b == Initial;
          forall i | 0 <= i < |epochs| ensures !Exceeds(epochs[i].val, 0.0) {
            if i < n {
              assert Exceeds(p[i].val, 0.0) ==> AnyPositive(p);
            }
          }
        }
      }
    }
  }

  /** The worked case of a tie: two epochs with equal best validation accuracy keep the
      test accuracy of the earlier one. */
  lemma TiesKeepEarlierEpoch(v: real, t1: Score, t2: Score)
    requires v > 0.0
    ensures Track([EpochAccs(Num(v), t1), EpochAccs(Num(v), t2)]) == Best(v, t1)
  {
    var e := [EpochAccs(Num(v), t1), EpochAccs(Num(v), t2)];
    assert e[..1] == [EpochAccs(Num(v), t1)];
    assert e[..1][..0] == [];
    assert Track(e[..1]) == Best(v, t1);
  }
}
