/** The ranking pipeline of the `filter` crate: run one matcher over every
    item of a source, keep the items that match together with their score
    and matched indices, and sort the results so that scores never
    increase. */
module Filter {
  import opened Wrappers
  import opened Sorting

  /** Rust's `i64`, the type of a filtering score. */
  newtype i64 = x: int | -0x8000_0000_0000_0000 <= x < 0x8000_0000_0000_0000

  /** A candidate line; only its text is matched against. */
  datatype SourceItem = SourceItem(text: string)

  /** `(item, score, indices)`: the matched item, its score (higher is
      better) and the indices of the matched characters. */
  datatype FilterResult = FilterResult(item: SourceItem, score: i64, indices: seq<nat>)

  /** What the matcher says about one item that matches. */
  datatype MatchScore = MatchScore(score: i64, indices: seq<nat>)

  /** The settings the matcher is built from; their meaning is internal to
      the matcher crate. */
  type Algo(==)
  type MatchType(==)
  type Bonus(==)

  datatype Matcher = Matcher(algo: Algo, matchType: MatchType, bonuses: seq<Bonus>)

  /** The matcher's scoring, `None` when the item does not match the query. */
  type Scorer = (Matcher, string, SourceItem) -> Option<MatchScore>

  datatype SourceError = SourceError(message: string)

  /** A source enumerates its items; reading one may fail instead. */
  datatype Source = Source(items: seq<Result<SourceItem, SourceError>>) {

    /** `Source::filter` as this model assumes it: the first read error, or
        the results of the items that match, in enumeration order. */
    function Filter(matcher: Matcher, query: string, scorer: Scorer): (r: Result<seq<FilterResult>, SourceError>)
      ensures r.Ok? <==> forall i :: 0 <= i < |items| ==> items[i].Ok?
      ensures r.Err? ==> exists i :: 0 <= i < |items| && items[i] == Err(r.error) && forall j :: 0 <= j < i ==> items[j].Ok?
    {
      match CollectResults(items)
      case Err(e) => Err(e)
      case Ok(candidates) => Ok(Matches(candidates, matcher, query, scorer))
    }
  }

  function NewWithBonuses(algo: Algo, matchType: MatchType, bonuses: seq<Bonus>): Matcher {
    Matcher(algo, matchType, bonuses)
  }

  /** `x` is what `matcher` reports for the item of `x`. */
  predicate ScoredBy(x: FilterResult, matcher: Matcher, query: string, scorer: Scorer) {
    scorer(matcher, query, x.item) == Some(MatchScore(x.score, x.indices))
  }

  /** The items of `candidates` that match, each with the score and indices
      the matcher gave it, in the order of `candidates`. */
  function Matches(candidates: seq<SourceItem>, matcher: Matcher, query: string, scorer: Scorer): (r: seq<FilterResult>)
    ensures |r| <= |candidates|
    ensures forall x :: x in r ==> x.item in candidates && ScoredBy(x, matcher, query, scorer)
    ensures forall item, m :: item in candidates && scorer(matcher, query, item) == Some(m) ==>
              FilterResult(item, m.score, m.indices) in r
    ensures forall x :: multiset(r)[x] == if ScoredBy(x, matcher, query, scorer) then multiset(candidates)[x.item] else 0
  {
    if candidates == [] then []
    else
      var rest := Matches(candidates[1..], matcher, query, scorer);
      assert forall item :: item in candidates <==> item == candidates[0] || item in candidates[1..];
      assert candidates == [candidates[0]] + candidates[1..];
      match scorer(matcher, query, candidates[0])
      case None => rest
      case Some(m) => [FilterResult(candidates[0], m.score, m.indices)] + rest
  }

  /** `par_sort_unstable_by`'s comparator: `v2.partial_cmp(&v1)` on the
      scores of the two results. */
  function PartialCmp(a: i64, b: i64): (r: Option<Ordering>)
    ensures r.Some?
    ensures r.value == Less <==> a < b
    ensures r.value == Greater <==> a > b
  {
    if a < b then Some(Less) else if a == b then Some(Equal) else Some(Greater)
  }

  /** Sorting by this comparator puts higher scores first; it looks at the
      scores only. Because `i64` is totally ordered, `partial_cmp` always
      answers and the `unwrap` cannot fail. */
  function ByScoreDescending(x: FilterResult, y: FilterResult): (o: Ordering)
    ensures o == Greater <==> x.score < y.score
    ensures o == Equal <==> x.score == y.score
  {
    PartialCmp(y.score, x.score).value
  }

  lemma ByScoreDescendingIsTotalOrder()
    ensures IsTotalOrder(ByScoreDescending)
  {
  }

  /** `ranked` is `filtered` reordered so that scores never increase. */
  ghost predicate IsRanking(ranked: seq<FilterResult>, filtered: seq<FilterResult>) {
    SortedBy(ranked, ByScoreDescending) && multiset(ranked) == multiset(filtered)
  }

  /** `sync_run`: builds the matcher once, filters the source with it, and
      sorts what matched by descending score; an error of the source is
      returned as it is, with no partial ranking. */
  method SyncRun(query: string, source: Source, algo: Algo, matchType: MatchType, bonuses: seq<Bonus>, scorer: Scorer)
    returns (r: Result<seq<FilterResult>, SourceError>)
    ensures var matcher := NewWithBonuses(algo, matchType, bonuses);
            match source.Filter(matcher, query, scorer)
            case Err(e) => r == Err(e)
            case Ok(filtered) => r.Ok? && IsRanking(r.value, filtered)
    ensures r.Ok? ==> |r.value| <= |source.items|
    ensures r.Ok? ==> forall i :: 0 <= i && i + 1 < |r.value| ==> r.value[i].score >= r.value[i + 1].score
    ensures r.Ok? ==> forall x :: x in r.value ==>
              Ok(x.item) in source.items && ScoredBy(x, NewWithBonuses(algo, matchType, bonuses), query, scorer)
    ensures r.Ok? ==> forall x :: ScoredBy(x, NewWithBonuses(algo, matchType, bonuses), query, scorer) ==>
              multiset(r.value)[x] == multiset(source.items)[Ok(x.item)]
  {
    var matcher := NewWithBonuses(algo, matchType, bonuses);
    var filtered := source.Filter(matcher, query, scorer);
    if filtered.Err? {
      return Err(filtered.error);
    }
    var results := filtered.value;
    var ranked := new FilterResult[|results|](i requires 0 <= i < |results| => results[i]);
    assert ranked[..] == results;
    ByScoreDescendingIsTotalOrder();
    SortBy(ranked, ByScoreDescending);
    r := Ok(ranked[..]);
    RankingContents(r.value, source, matcher, query, scorer);
  }

  /** What a ranking of the filtered results holds: no more results than
      the source has items, each one an item of the source scored by the
      matcher, every matching item as often as the source holds it, with
      scores non-increasing from one result to the next. */
  lemma RankingContents(ranked: seq<FilterResult>, source: Source, matcher: Matcher, query: string, scorer: Scorer)
    requires source.Filter(matcher, query, scorer).Ok?
    requires IsRanking(ranked, source.Filter(matcher, query, scorer).value)
    ensures |ranked| <= |source.items|
    ensures forall i :: 0 <= i && i + 1 < |ranked| ==> ranked[i].score >= ranked[i + 1].score
    ensures forall x :: x in ranked ==> Ok(x.item) in source.items && ScoredBy(x, matcher, query, scorer)
    ensures forall x :: ScoredBy(x, matcher, query, scorer) ==> multiset(ranked)[x] == multiset(source.items)[Ok(x.item)]
  {
    var candidates := CollectResults(source.items).value;
    var filtered := Matches(candidates, matcher, query, scorer);
    forall x | ScoredBy(x, matcher, query, scorer)
      ensures multiset(ranked)[x] == multiset(source.items)[Ok(x.item)]
    {
      CollectedCounts(source.items);
      assert multiset(filtered)[x] == multiset(candidates)[x.item];
    }
    assert |ranked| == |multiset(ranked)| == |multiset(filtered)| == |filtered|;
    forall x | x in ranked
      ensures Ok(x.item) in source.items && ScoredBy(x, matcher, query, scorer)
    {
      assert x in multiset(ranked);
      assert x in filtered;
      var k :| 0 <= k < |candidates| && candidates[k] == x.item;
      assert source.items[k] == Ok(x.item);
    }
    forall i | 0 <= i && i + 1 < |ranked|
      ensures ranked[i].score >= ranked[i + 1].score
    {
      assert Precedes(ByScoreDescending, ranked[i], ranked[i + 1]);
    }
  }

  /** If `b[k]` is the head of another ranking of the same results, every
      result of `b` up to `b[k]` has the score of `b[k]`. */
  lemma TiedUpTo(a: seq<FilterResult>, b: seq<FilterResult>, k: nat)
    requires SortedBy(a, ByScoreDescending) && SortedBy(b, ByScoreDescending)
    requires multiset(a) == multiset(b)
    requires a != [] && k < |b| && b[k] == a[0]
    ensures forall j :: 0 <= j <= k ==> b[j].score == a[0].score
  {
    assert b[0] in multiset(a);
    var m :| 0 <= m < |a| && a[m] == b[0];
    assert m > 0 ==> Precedes(ByScoreDescending, a[0], a[m]);
    forall j | 0 <= j <= k
      ensures b[j].score == a[0].score
    {
      assert j > 0 ==> Precedes(ByScoreDescending, b[0], b[j]);
      assert j < k ==> Precedes(ByScoreDescending, b[j], b[k]);
    }
  }

  /** Puts the scores back together after the head of `a` was matched with
      `b[k]` and removed from both. */
  lemma ScoresAfterRemoval(a: seq<FilterResult>, b: seq<FilterResult>, k: nat)
    requires 0 < |a| == |b| && k < |b|
    requires forall j :: 0 <= j <= k ==> b[j].score == a[0].score
    requires forall i :: 0 <= i < |a| - 1 ==> RemoveAt(a, 0)[i].score == RemoveAt(b, k)[i].score
    ensures forall i :: 0 <= i < |a| ==> a[i].score == b[i].score
  {
    forall i | 0 < i < |a|
      ensures a[i].score == b[i].score
    {
      assert a[i] == RemoveAt(a, 0)[i - 1];
      assert RemoveAt(b, k)[i - 1] == if i - 1 < k then b[i - 1] else b[i];
    }
  }

  /** Two rankings of the same results may put results of equal score in
      different orders, but they agree on the score at every position: the
      unstable sort leaves only the order among ties open. */
  lemma {:induction false} RankingsAgreeOnScores(a: seq<FilterResult>, b: seq<FilterResult>)
    requires SortedBy(a, ByScoreDescending) && SortedBy(b, ByScoreDescending)
    requires multiset(a) == multiset(b)
    ensures |a| == |b|
    ensures forall i :: 0 <= i < |a| ==> a[i].score == b[i].score
  {
    assert |a| == |multiset(a)| == |multiset(b)| == |b|;
    if a != [] {
      var k :| 0 <= k < |b| && b[k] == a[0] by {
        assert a[0] in multiset(b);
      }
      TiedUpTo(a, b, k);
      RemoveAtSorted(a, 0, ByScoreDescending);
      RemoveAtSorted(b, k, ByScoreDescending);
      RankingsAgreeOnScores(RemoveAt(a, 0), RemoveAt(b, k));
      ScoresAfterRemoval(a, b, k);
    }
  }

  /** Results of equal score may come out in either order. */
  lemma TieOrderUnconstrained(x: FilterResult, y: FilterResult)
    requires x.score == y.score
    ensures IsRanking([x, y], [x, y]) && IsRanking([y, x], [x, y])
  {
    assert multiset([y, x]) == multiset([x, y]);
  }
}
