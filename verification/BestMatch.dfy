/** The best-match loops over TMDB search results: metadata/managers/metadata/movies.go and
    metadata/managers/metadata/series.go. */
module BestMatch {
  import opened EditDistance
  import opened Levenshtein

  const MAX_INT32: int := 0x7FFF_FFFF

  datatype SearchResult = SearchResult(id: int, title: string)

  datatype Lookup = Found(id: int) | NoMatch

  ghost function Gap(title: string, results: seq<SearchResult>, k: nat): nat
    requires k < |results|
  {
    Distance(title, results[k].title)
  }

  /** Result `k` is the first among the results of least distance, and the loop can see it: its
      distance is below the start value of `bestDistance`. */
  ghost predicate IsBest(title: string, results: seq<SearchResult>, k: nat) {
    && k < |results|
    && Gap(title, results, k) < MAX_INT32
    && (forall j :: 0 <= j < k ==> Gap(title, results, k) < Gap(title, results, j))
    && (forall j :: k <= j < |results| ==> Gap(title, results, k) <= Gap(title, results, j))
  }

  /** Result `k` is the first whose title is exactly the wanted one. */
  predicate IsFirstExact(title: string, results: seq<SearchResult>, k: nat) {
    && k < |results|
    && results[k].title == title
    && forall j :: 0 <= j < k ==> results[j].title != title
  }

  lemma ExactTitleIsBest(title: string, results: seq<SearchResult>, k: nat)
    requires IsFirstExact(title, results, k)
    ensures IsBest(title, results, k)
  {
    forall j | 0 <= j < |results| ensures Gap(title, results, j) == 0 <==> results[j].title == title {
      ZeroExactlyOnEquality(title, results[j].title);
    }
  }

  lemma BestIsUnique(title: string, results: seq<SearchResult>, k1: nat, k2: nat)
    requires IsBest(title, results, k1) && IsBest(title, results, k2)
    ensures k1 == k2
  {
    assert Gap(title, results, k1) == Gap(title, results, k2);
  }

  /** After `i` results: `d` is the least distance seen, capped by the start value, and below it `best`
      is the first result of that distance. */
  ghost predicate Leads(title: string, results: seq<SearchResult>, i: nat, best: nat, d: int) {
    && i <= |results| && d <= MAX_INT32
    && (forall j :: 0 <= j < i ==> d <= Gap(title, results, j))
    && (d < MAX_INT32 ==>
          && best < i && d == Gap(title, results, best)
          && forall j :: 0 <= j < best ==> d < Gap(title, results, j))
  }

  lemma LeaderIsBest(title: string, results: seq<SearchResult>, best: nat, d: int, k: nat)
    requires Leads(title, results, |results|, best, d)
    requires IsBest(title, results, k) || IsFirstExact(title, results, k)
    ensures d < MAX_INT32 && k == best
  {
    if IsFirstExact(title, results, k) {
      ExactTitleIsBest(title, results, k);
    }
    BestIsUnique(title, results, k, best);
  }

  /** One comparison of either loop: what ComputeDistance returns is the gap, because there is only one
      edit distance. */
  method TitleDistance(title: string, results: seq<SearchResult>, k: nat) returns (d: nat)
    requires k < |results|
    ensures d == Gap(title, results, k)
  {
    d := ComputeDistance(title, results[k].title);
    EditDistanceUnique(title, results[k].title, d);
  }

  /** Titles shorter than 2^31 - 1 characters are never hidden by the start value. */
  predicate Short(title: string, results: seq<SearchResult>) {
    |title| < 2_147_483_647 && forall k :: 0 <= k < |results| ==> |results[k].title| < 2_147_483_647
  }

  lemma {:induction false} LeastGap(title: string, results: seq<SearchResult>, n: nat) returns (k: nat)
    requires 0 < n <= |results|
    ensures k < n
    ensures forall j :: 0 <= j < k ==> Gap(title, results, k) < Gap(title, results, j)
    ensures forall j :: k <= j < n ==> Gap(title, results, k) <= Gap(title, results, j)
  {
    if n == 1 {
      k := 0;
    } else {
      k := LeastGap(title, results, n - 1);
      if Gap(title, results, n - 1) < Gap(title, results, k) {
        k := n - 1;
      }
    }
  }

  lemma BestExists(title: string, results: seq<SearchResult>)
    requires results != [] && Short(title, results)
    ensures exists k: nat :: IsBest(title, results, k)
  {
    var k := LeastGap(title, results, |results|);
    Bounds(title, results[k].title);
    assert IsBest(title, results, k);
  }

  /** movies.go keeps a copy of the best result, which starts as the zero value with id 0. */
  method MovieFromSearch(title: string, results: seq<SearchResult>) returns (r: Lookup)
    ensures r.NoMatch? <==> results == []
    ensures results != [] && Short(title, results) ==>
              exists k: nat :: IsBest(title, results, k) && r == Found(results[k].id)
    ensures forall k: nat :: IsBest(title, results, k) ==> r == Found(results[k].id)
    ensures forall k: nat :: IsFirstExact(title, results, k) ==> r == Found(results[k].id)
    ensures results != [] && (forall k :: 0 <= k < |results| ==> Gap(title, results, k) >= MAX_INT32) ==> r == Found(0)
  {
    if |results| == 0 {
      return NoMatch;
    }
    var bestDistance := MAX_INT32;
    var bestResult := SearchResult(0, "");
    ghost var best: nat := 0;
    for i := 0 to |results|
      invariant Leads(title, results, i, best, bestDistance)
      invariant if bestDistance < MAX_INT32 then bestResult == results[best] else bestResult.id == 0
    {
      var d := TitleDistance(title, results, i);
      if d < bestDistance {
        bestDistance := d;
        bestResult := results[i];
        best := i;
      }
    }
    forall k: nat | IsBest(title, results, k) || IsFirstExact(title, results, k) ensures bestResult == results[k] {
      LeaderIsBest(title, results, best, bestDistance, k);
    }
    if Short(title, results) {
      BestExists(title, results);
    }
    return Found(bestResult.id);
  }

  /** series.go keeps the index of the best result, which starts at 0. */
  method SeriesFromSearch(title: string, results: seq<SearchResult>) returns (r: Lookup)
    ensures r.NoMatch? <==> results == []
    ensures results != [] && Short(title, results) ==>
              exists k: nat :: IsBest(title, results, k) && r == Found(results[k].id)
    ensures forall k: nat :: IsBest(title, results, k) ==> r == Found(results[k].id)
    ensures forall k: nat :: IsFirstExact(title, results, k) ==> r == Found(results[k].id)
    ensures results != [] && (forall k :: 0 <= k < |results| ==> Gap(title, results, k) >= MAX_INT32) ==>
              r == Found(results[0].id)
  {
    if |results| == 0 {
      return NoMatch;
    }
    var bestDistance := MAX_INT32;
    var bestResultIdx: nat := 0;
    for i := 0 to |results|
      invariant bestResultIdx < |results| && Leads(title, results, i, bestResultIdx, bestDistance)
      invariant bestDistance == MAX_INT32 ==> bestResultIdx == 0
    {
      var d := TitleDistance(title, results, i);
      if d < bestDistance {
        bestDistance := d;
        bestResultIdx := i;
      }
    }
    forall k: nat | IsBest(title, results, k) || IsFirstExact(title, results, k) ensures k == bestResultIdx {
      LeaderIsBest(title, results, bestResultIdx, bestDistance, k);
    }
    if Short(title, results) {
      BestExists(title, results);
    }
    return Found(results[bestResultIdx].id);
  }
}
