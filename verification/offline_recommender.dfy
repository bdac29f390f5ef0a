/**
 * The earlier, offline recommender (`book-select-app/backend/recommendation.py`):
 * recommendations read from a precomputed map from a title to its ranked
 * `(title, score)` list, and a feature search over the rows of the book CSV.
 * The CSV rows are values here; a cell that pandas reads as NaN is a column
 * missing from the row's map.
 */
module OfflineRecommender {
  import opened Api
  import opened Strings
  import opened Lists
  import opened Sorting

  /** The pickled `top_similar_books`: each title's similar titles, best first. */
  type TopSimilar = map<string, seq<Similar>>

  /** One row of the CSV: its `title` and its other columns (absent when NaN). */
  datatype CsvBook = CsvBook(title: string, columns: map<string, string>)

  /** The titles of a list of pairs: `[book[0] for book in ...]`. */
  function Titles(entries: seq<Similar>): (r: seq<string>)
    ensures |r| == |entries|
    ensures forall i :: 0 <= i < |entries| ==> r[i] == entries[i].title
  {
    seq(|entries|, i requires 0 <= i < |entries| => entries[i].title)
  }

  /** `recommendByTitle(title, n)` of the offline recommender. */
  function RecommendByTitle(top: TopSimilar, title: string, n: nat): (r: seq<string>)
    ensures title !in top ==> r == []
    ensures title in top ==> |r| == if n < |top[title]| then n else |top[title]|
    ensures title in top ==> forall i :: 0 <= i < |r| ==> r[i] == top[title][i].title
  {
    if title in top then Titles(Take(top[title], n)) else []
  }

  /** `str.contains(feature, case=False, na=False)` on the `featureType` column. */
  predicate HasFeature(b: CsvBook, featureType: string, feature: string) {
    featureType in b.columns && ContainsIgnoreCase(b.columns[featureType], feature)
  }

  /** The rows selected by the boolean mask, in CSV order. */
  function FeatureRows(data: seq<CsvBook>, featureType: string, feature: string): (r: seq<CsvBook>)
    ensures forall x :: x in r ==> x in data && HasFeature(x, featureType, feature)
    ensures forall b :: b in data && HasFeature(b, featureType, feature) ==> b in r
  {
    if data == [] then []
    else
      var rest := FeatureRows(data[1..], featureType, feature);
      assert data == [data[0]] + data[1..];
      if HasFeature(data[0], featureType, feature) then [data[0]] + rest else rest
  }

  /** The mask keeps every matching row as often as the CSV holds it, and no other row. */
  lemma {:induction false} FeatureRowsCount(data: seq<CsvBook>, featureType: string, feature: string, b: CsvBook)
    ensures multiset(FeatureRows(data, featureType, feature))[b] ==
              if HasFeature(b, featureType, feature) then multiset(data)[b] else 0
  {
    if data != [] {
      FeatureRowsCount(data[1..], featureType, feature, b);
      assert data == [data[0]] + data[1..];
    }
  }

  /** The mask keeps the CSV order: filtering distributes over concatenation. */
  lemma {:induction false} FeatureRowsAppend(a: seq<CsvBook>, b: seq<CsvBook>, featureType: string, feature: string)
    ensures FeatureRows(a + b, featureType, feature) == FeatureRows(a, featureType, feature) + FeatureRows(b, featureType, feature)
  {
    if a != [] {
      var head, tail := a[0], a[1..];
      var kept := if HasFeature(head, featureType, feature) then [head] else [];
      HeadSplit(a, b);
      calc {
        FeatureRows(a + b, featureType, feature);
        { FeatureRowsCons(head, tail + b, featureType, feature); }
        kept + FeatureRows(tail + b, featureType, feature);
        { FeatureRowsAppend(tail, b, featureType, feature); }
        kept + (FeatureRows(tail, featureType, feature) + FeatureRows(b, featureType, feature));
        { AppendAssoc(kept, FeatureRows(tail, featureType, feature), FeatureRows(b, featureType, feature)); }
        (kept + FeatureRows(tail, featureType, feature)) + FeatureRows(b, featureType, feature);
        { FeatureRowsCons(head, tail, featureType, feature); }
        FeatureRows(a, featureType, feature) + FeatureRows(b, featureType, feature);
      }
    } else {
      assert a + b == b;
    }
  }

  /** The mask on one more leading row. */
  lemma FeatureRowsCons(x: CsvBook, s: seq<CsvBook>, featureType: string, feature: string)
    ensures FeatureRows([x] + s, featureType, feature) ==
              (if HasFeature(x, featureType, feature) then [x] else []) + FeatureRows(s, featureType, feature)
  {
    assert ([x] + s)[1..] == s;
  }

  /** The loop of `recommendByFeature`: the first `n` similar entries of each listed title that has any, in order. */
  function Candidates(top: TopSimilar, titles: seq<string>, n: nat): seq<Similar> {
    if titles == [] then []
    else
      var last := titles[|titles| - 1];
      Candidates(top, titles[..|titles| - 1], n) + (if last in top then Take(top[last], n) else [])
  }

  /** An entry is a candidate exactly when it is among the first `n` entries of some listed title in the map. */
  lemma {:induction false} InCandidates(top: TopSimilar, titles: seq<string>, n: nat, e: Similar)
    ensures e in Candidates(top, titles, n) <==>
              exists i :: 0 <= i < |titles| && titles[i] in top && e in Take(top[titles[i]], n)
  {
    if titles != [] {
      var p := titles[..|titles| - 1];
      var last := titles[|titles| - 1];
      InCandidates(top, p, n, e);
      if e in Candidates(top, p, n) {
        var i :| 0 <= i < |p| && p[i] in top && e in Take(top[p[i]], n);
        assert titles[i] == p[i];
      }
      if exists i :: 0 <= i < |titles| && titles[i] in top && e in Take(top[titles[i]], n) {
        var i :| 0 <= i < |titles| && titles[i] in top && e in Take(top[titles[i]], n);
        if i < |p| {
          assert p[i] == titles[i];
        }
      }
    }
  }

  /** The sort key: the similarity score. */
  function Score(e: Similar): real {
    e.score
  }

  /** The titles of the matching rows, in CSV order: `matching_books['title']`. */
  function RowTitles(rows: seq<CsvBook>): (r: seq<string>)
    ensures |r| == |rows|
    ensures forall i :: 0 <= i < |rows| ==> r[i] == rows[i].title
  {
    seq(|rows|, i requires 0 <= i < |rows| => rows[i].title)
  }

  /** The entries the loop of `recommendByFeature` gathers, before sorting. */
  function FeatureCandidates(data: seq<CsvBook>, top: TopSimilar, feature: string, featureType: string, n: nat): seq<Similar> {
    Candidates(top, RowTitles(FeatureRows(data, featureType, feature)), n)
  }

  /** The entries `recommendByFeature` keeps: all candidates by descending score, first `n`. */
  function FeatureRanking(data: seq<CsvBook>, top: TopSimilar, feature: string, featureType: string, n: nat): seq<Similar> {
    Take(SortDesc(FeatureCandidates(data, top, feature, featureType, n), Score), n)
  }

  /** `recommendByFeature(feature, featureType, n)`. */
  function FeatureRecommendations(data: seq<CsvBook>, top: TopSimilar, feature: string, featureType: string, n: nat): seq<string> {
    Titles(FeatureRanking(data, top, feature, featureType, n))
  }

  /** `recommendByFeature`: filter the CSV, gather the similar entries of each match, sort, truncate, project. */
  method RecommendByFeature(data: seq<CsvBook>, top: TopSimilar, feature: string, featureType: string, n: nat)
    returns (r: seq<string>)
    ensures r == FeatureRecommendations(data, top, feature, featureType, n)
  {
    var matching := FeatureRows(data, featureType, feature);
    if matching == [] {
      return [];
    }
    var recommendations := GatherCandidates(top, RowTitles(matching), n);
    recommendations := Take(SortDesc(recommendations, Score), n);
    r := Titles(recommendations);
  }

  /** The loop of `recommendByFeature` over the matching titles. */
  method GatherCandidates(top: TopSimilar, titles: seq<string>, n: nat) returns (recommendations: seq<Similar>)
    ensures recommendations == Candidates(top, titles, n)
  {
    recommendations := [];
    var i := 0;
    while i < |titles|
      invariant 0 <= i <= |titles|
      invariant recommendations == Candidates(top, titles[..i], n)
    {
      assert titles[..i + 1][..i] == titles[..i];
      if titles[i] in top {
        recommendations := recommendations + Take(top[titles[i]], n);
      }
      i := i + 1;
    }
    assert titles[..i] == titles;
  }

  /** When no row has the feature, the filter keeps nothing. */
  lemma {:induction false} NoFeatureNoRows(data: seq<CsvBook>, featureType: string, feature: string)
    requires forall b :: b in data ==> !HasFeature(b, featureType, feature)
    ensures FeatureRows(data, featureType, feature) == []
  {
    if data != [] {
      assert data[0] in data;
      NoFeatureNoRows(data[1..], featureType, feature);
    }
  }

  /** `e` is among the first `n` similar entries of the title of a row that has the feature. */
  predicate FromMatchingRow(data: seq<CsvBook>, top: TopSimilar, feature: string, featureType: string, n: nat, e: Similar) {
    exists b :: b in data && HasFeature(b, featureType, feature) && b.title in top && e in Take(top[b.title], n)
  }

  /**
   * The result has at most `n` titles; it is empty when no row has the
   * feature; the kept entries are in non-increasing score order; and each
   * is among the first `n` similar entries of a matching row's title.
   * Entries are not de-duplicated.
   */
  lemma FeatureRecommendationsSpec(data: seq<CsvBook>, top: TopSimilar, feature: string, featureType: string, n: nat)
    ensures |FeatureRecommendations(data, top, feature, featureType, n)| <= n
    ensures (forall b :: b in data ==> !HasFeature(b, featureType, feature)) ==>
              FeatureRecommendations(data, top, feature, featureType, n) == []
    ensures SortedDesc(FeatureRanking(data, top, feature, featureType, n), Score)
    ensures forall k :: 0 <= k < |FeatureRanking(data, top, feature, featureType, n)| ==>
              FromMatchingRow(data, top, feature, featureType, n, FeatureRanking(data, top, feature, featureType, n)[k])
  {
    var rows := FeatureRows(data, featureType, feature);
    if forall b :: b in data ==> !HasFeature(b, featureType, feature) {
      NoFeatureNoRows(data, featureType, feature);
    }
    var sorted := SortDesc(Candidates(top, RowTitles(rows), n), Score);
    forall i, j | 0 <= i < j < |Take(sorted, n)| ensures Score(Take(sorted, n)[i]) >= Score(Take(sorted, n)[j]) {
      assert Take(sorted, n)[i] == sorted[i] && Take(sorted, n)[j] == sorted[j];
    }
    forall k | 0 <= k < |FeatureRanking(data, top, feature, featureType, n)|
      ensures FromMatchingRow(data, top, feature, featureType, n, FeatureRanking(data, top, feature, featureType, n)[k])
    {
      RankedEntryOrigin(data, top, feature, featureType, n, k);
    }
  }

  /** Where one kept entry comes from: the first `n` similar entries of a matching row's title. */
  lemma RankedEntryOrigin(data: seq<CsvBook>, top: TopSimilar, feature: string, featureType: string, n: nat, k: nat)
    requires k < |FeatureRanking(data, top, feature, featureType, n)|
    ensures FromMatchingRow(data, top, feature, featureType, n, FeatureRanking(data, top, feature, featureType, n)[k])
  {
    var rows := FeatureRows(data, featureType, feature);
    var titles := RowTitles(rows);
    var cands := Candidates(top, titles, n);
    var sorted := SortDesc(cands, Score);
    var e := FeatureRanking(data, top, feature, featureType, n)[k];
    assert e == sorted[k];
    SortedFromInput(cands, Score, k);
    InCandidates(top, titles, n, e);
    var i :| 0 <= i < |titles| && titles[i] in top && e in Take(top[titles[i]], n);
    assert rows[i].title == titles[i];
    assert rows[i] in data && HasFeature(rows[i], featureType, feature);
  }

  /**
   * `sorted(...)[:numRecommendations]` keeps `min(n, len)` candidates, all of
   * them when they fit.
   */
  lemma FeatureRankingComplete(data: seq<CsvBook>, top: TopSimilar, feature: string, featureType: string, n: nat)
    ensures |FeatureRanking(data, top, feature, featureType, n)| ==
              if |FeatureCandidates(data, top, feature, featureType, n)| < n
              then |FeatureCandidates(data, top, feature, featureType, n)| else n
    ensures |FeatureCandidates(data, top, feature, featureType, n)| <= n ==>
              multiset(FeatureRanking(data, top, feature, featureType, n)) ==
              multiset(FeatureCandidates(data, top, feature, featureType, n))
  {
    var cands := FeatureCandidates(data, top, feature, featureType, n);
    if |cands| <= n {
      assert FeatureRanking(data, top, feature, featureType, n) == SortDesc(cands, Score);
    }
  }

  /** A candidate left out scores no higher than any entry kept: the kept entries are the `n` best. */
  lemma FeatureLeftOut(data: seq<CsvBook>, top: TopSimilar, feature: string, featureType: string, n: nat, e: Similar)
    requires e in FeatureCandidates(data, top, feature, featureType, n)
    requires e !in FeatureRanking(data, top, feature, featureType, n)
    ensures forall k :: 0 <= k < |FeatureRanking(data, top, feature, featureType, n)| ==>
              Score(e) <= Score(FeatureRanking(data, top, feature, featureType, n)[k])
  {
    var cands := FeatureCandidates(data, top, feature, featureType, n);
    var ranking := FeatureRanking(data, top, feature, featureType, n);
    assert ranking == SortDesc(cands, Score)[..|ranking|];
    PrefixLeftOut(cands, Score, |ranking|, e);
  }
}
