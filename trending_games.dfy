/** "Most Popular Games": the first four trending games, ranked #1.. in
    display order. */
module TrendingGames {
  import opened Sequences
  import opened Text
  import opened Catalog

  predicate IsTrending(g: Game) { g.isTrending }

  /** `trendingGames`: filter on `isTrending`, then `slice(0, 4)`. */
  function Trending(catalog: seq<Game>): (popular: seq<Game>)
    ensures |popular| <= 4 && IsSubsequence(popular, catalog)
    ensures forall i :: 0 <= i < |popular| ==> popular[i].isTrending
  {
    FirstPassingSpec(catalog, IsTrending, 4);
    Take(Select(catalog, IsTrending), 4)
  }

  /** At most four games, all trending, in catalog order: the first min(4, k)
      of the k trending games of the catalog. */
  lemma TrendingSpec(catalog: seq<Game>) returns (j: nat)
    ensures |Trending(catalog)| == Min(4, |Select(catalog, IsTrending)|)
    ensures forall i :: 0 <= i < |Trending(catalog)| ==> Trending(catalog)[i].isTrending
    ensures IsSubsequence(Trending(catalog), catalog)
    ensures j <= |catalog| && Trending(catalog) == Select(catalog[..j], IsTrending)
    ensures j == |catalog| || |Trending(catalog)| == 4
  {
    FirstPassingSpec(catalog, IsTrending, 4);
    j := FirstPassing(catalog, IsTrending, 4);
  }

  /** `#{index + 1}`: the rank shown on the card at position index. */
  function RankLabel(index: nat): (tag: string)
    ensures |tag| >= 2 && tag[0] == '#'
    ensures IsNumeral(tag[1..]) && ParseDecimal(tag[1..]) == index + 1
  {
    NatToStringNumeral(index + 1);
    assert ("#" + NatToString(index + 1))[1..] == NatToString(index + 1);
    "#" + NatToString(index + 1)
  }

  /** The rank labels of the rendered list, in display order. */
  function RankLabels(catalog: seq<Game>): (labels: seq<string>)
    ensures |labels| == |Trending(catalog)|
    ensures forall i :: 0 <= i < |labels| ==> labels[i] == RankLabel(i)
  {
    seq(|Trending(catalog)|, i requires 0 <= i < |Trending(catalog)| => RankLabel(i))
  }

  /** The labels read #1, #2, ... up to the list's length: consecutive, with
      no rank repeated or skipped. */
  lemma RankLabelsConsecutive(catalog: seq<Game>)
    ensures |RankLabels(catalog)| <= 4
    ensures forall i :: 0 <= i < |RankLabels(catalog)| ==> ParseDecimal(RankLabels(catalog)[i][1..]) == i + 1
    ensures forall i, k :: 0 <= i < k < |RankLabels(catalog)| ==> RankLabels(catalog)[i] != RankLabels(catalog)[k]
  {
    var labels := RankLabels(catalog);
    forall i, k | 0 <= i < k < |labels| ensures labels[i] != labels[k] {
      assert ParseDecimal(labels[i][1..]) != ParseDecimal(labels[k][1..]);
    }
  }

  /** `game.platform.slice(0, 2)`: the platform names on a card. */
  function CardPlatforms(g: Game): (shown: seq<string>)
    ensures |shown| <= 2 && |shown| == Min(2, |g.platforms|)
    ensures shown <= g.platforms
  {
    Take(g.platforms, 2)
  }
}
