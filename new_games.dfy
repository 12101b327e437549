/** "New Games": the first three games flagged new. */
module NewGames {
  import opened Sequences
  import opened Catalog

  predicate IsNew(g: Game) { g.isNew }

  /** `newGames`: filter on `isNew`, then `slice(0, 3)`. */
  function NewReleases(catalog: seq<Game>): (releases: seq<Game>)
    ensures |releases| <= 3 && IsSubsequence(releases, catalog)
    ensures forall i :: 0 <= i < |releases| ==> releases[i].isNew
  {
    FirstPassingSpec(catalog, IsNew, 3);
    Take(Select(catalog, IsNew), 3)
  }

  /** At most three games, all new, in catalog order: the first min(3, k)
      of the k new games of the catalog. */
  lemma NewReleasesSpec(catalog: seq<Game>) returns (j: nat)
    ensures |NewReleases(catalog)| == Min(3, |Select(catalog, IsNew)|)
    ensures forall i :: 0 <= i < |NewReleases(catalog)| ==> NewReleases(catalog)[i].isNew
    ensures IsSubsequence(NewReleases(catalog), catalog)
    ensures j <= |catalog| && NewReleases(catalog) == Select(catalog[..j], IsNew)
    ensures j == |catalog| || |NewReleases(catalog)| == 3
  {
    FirstPassingSpec(catalog, IsNew, 3);
    j := FirstPassing(catalog, IsNew, 3);
  }

  /** `game.platform.slice(0, 3)`: the platform names on a card. */
  function CardPlatforms(g: Game): (shown: seq<string>)
    ensures |shown| <= 3 && |shown| == Min(3, |g.platforms|)
    ensures shown <= g.platforms
  {
    Take(g.platforms, 3)
  }
}
