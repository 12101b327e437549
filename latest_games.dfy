/** "New Arrivals": the first six catalog entries, with a NEW badge and
    platform initials. */
module LatestGames {
  import opened Sequences
  import opened Catalog
  import NewGames

  /** `latestGames = games.slice(0, 6)`. */
  function Latest(catalog: seq<Game>): (latest: seq<Game>)
    ensures |latest| <= 6 && latest <= catalog
  {
    Take(catalog, 6)
  }

  /** The first min(6, |catalog|) entries in catalog order; with uniquely keyed
      catalog entries no card repeats. */
  lemma LatestSpec(catalog: seq<Game>)
    ensures |Latest(catalog)| == Min(6, |catalog|)
    ensures forall i :: 0 <= i < |Latest(catalog)| ==> Latest(catalog)[i] == catalog[i]
    ensures multiset(Latest(catalog)) <= multiset(catalog)
    ensures UniqueIds(catalog) ==> UniqueIds(Latest(catalog))
  {
    var k := Min(6, |catalog|);
    assert catalog == catalog[..k] + catalog[k..];
  }

  /** `{game.isNew && <NEW badge>}`: the badge marks exactly the games the
      "New Games" section selects on. */
  predicate ShowsNewBadge(g: Game): (shown: bool)
    ensures shown <==> NewGames.IsNew(g)
  {
    g.isNew
  }

  /** A card of the latest list carries the NEW badge exactly when its game
      is among the catalog's new games. */
  lemma NewBadgeMarksNewGames(catalog: seq<Game>, i: nat)
    requires i < |Latest(catalog)|
    ensures ShowsNewBadge(Latest(catalog)[i]) <==> Latest(catalog)[i] in Select(catalog, NewGames.IsNew)
  {
    LatestSpec(catalog);
    SelectMembership(catalog, NewGames.IsNew, Latest(catalog)[i]);
  }

  /** The tiles of a card: the initials of its first three platforms. */
  function PlatformTiles(g: Game): (tiles: seq<string>)
    ensures |tiles| == Min(3, |g.platforms|)
    ensures forall i :: 0 <= i < |tiles| ==> i < |g.platforms| && tiles[i] == Initial(g.platforms[i])
    ensures forall i :: 0 <= i < |tiles| ==> |tiles[i]| <= 1 && (g.platforms[i] != [] ==> tiles[i] == [g.platforms[i][0]])
  {
    PlatformInitials(g.platforms)
  }
}
