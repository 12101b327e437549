/** "Highest Rated Games": the games rated 4.8 or more, best first, six at
    most, each with a rank badge. */
module TopRatedGames {
  import opened Sequences
  import opened Catalog

  /** `game.rating >= 4.8`, with ratings in tenths. */
  predicate IsTopRated(g: Game) { g.rating >= 48 }

  /** Ratings never increase along the list. */
  predicate SortedByRatingDesc(s: seq<Game>) {
    forall i, j :: 0 <= i < j < |s| ==> s[i].rating >= s[j].rating
  }

  /** The games of a list that carry exactly rating v, in list order. */
  function HasRating(v: int): Game -> bool { (g: Game) => g.rating == v }

  function RatedExactly(s: seq<Game>, v: int): seq<Game> {
    Select(s, HasRating(v))
  }

  /** Put g in front of the first game rated no higher than g: a game that
      came earlier in the catalog stays ahead of equally rated ones. */
  function InsertByRating(g: Game, sorted: seq<Game>): (r: seq<Game>)
    ensures multiset(r) == multiset(sorted) + multiset{g}
  {
    if sorted == [] || g.rating >= sorted[0].rating then [g] + sorted
    else
      assert sorted == [sorted[0]] + sorted[1..];
      [sorted[0]] + InsertByRating(g, sorted[1..])
  }

  /** `.sort((a, b) => b.rating - a.rating)` on the fresh filtered array:
      a stable sort, highest rating first. */
  function SortByRatingDesc(s: seq<Game>): (r: seq<Game>)
    ensures multiset(r) == multiset(s)
  {
    if s == [] then []
    else
      assert s == [s[0]] + s[1..];
      InsertByRating(s[0], SortByRatingDesc(s[1..]))
  }

  /** `topRatedGames`: filter, sort, then `slice(0, 6)`. */
  function TopRated(catalog: seq<Game>): (top: seq<Game>)
    ensures |top| == Min(6, |Select(catalog, IsTopRated)|)
  {
    var qualifying := Select(catalog, IsTopRated);
    var sorted := SortByRatingDesc(qualifying);
    assert |sorted| == |multiset(sorted)| == |multiset(qualifying)| == |qualifying|;
    Take(sorted, 6)
  }

  lemma {:induction false} InsertKeepsSorted(g: Game, sorted: seq<Game>)
    requires SortedByRatingDesc(sorted)
    ensures SortedByRatingDesc(InsertByRating(g, sorted))
  {
    if sorted != [] && g.rating < sorted[0].rating {
      var rest := InsertByRating(g, sorted[1..]);
      InsertKeepsSorted(g, sorted[1..]);
      var r := [sorted[0]] + rest;
      forall j | 1 <= j < |r| ensures r[0].rating >= r[j].rating {
        assert r[j] in multiset(rest);
        assert r[j] in multiset(sorted[1..]) + multiset{g};
        if r[j] != g {
          var k :| 0 <= k < |sorted[1..]| && sorted[1..][k] == r[j];
          assert sorted[k + 1] == r[j];
        }
      }
    }
  }

  /** The sort puts the list in non-increasing rating order. */
  lemma {:induction false} SortIsSorted(s: seq<Game>)
    ensures SortedByRatingDesc(SortByRatingDesc(s))
  {
    if s != [] {
      SortIsSorted(s[1..]);
      InsertKeepsSorted(s[0], SortByRatingDesc(s[1..]));
    }
  }

  lemma {:induction false} InsertStable(g: Game, sorted: seq<Game>, v: int)
    requires SortedByRatingDesc(sorted)
    ensures RatedExactly(InsertByRating(g, sorted), v) ==
            (if g.rating == v then [g] else []) + RatedExactly(sorted, v)
  {
    var head := if g.rating == v then [g] else [];
    if sorted == [] || g.rating >= sorted[0].rating {
      SelectAppend([g], sorted, HasRating(v));
      assert Select([g], HasRating(v)) == head by {
        assert [g][1..] == [];
      }
    } else {
      var t := sorted[1..];
      InsertStable(g, t, v);
      SelectAppend([sorted[0]], InsertByRating(g, t), HasRating(v));
      SelectAppend([sorted[0]], t, HasRating(v));
      assert sorted == [sorted[0]] + t;
      assert [sorted[0]][1..] == [];
      var first := Select([sorted[0]], HasRating(v));
      assert first == if sorted[0].rating == v then [sorted[0]] else [];
      if g.rating == v {
        assert first == [];
      } else {
        assert head == [];
      }
    }
  }

  /** Stability: for every rating, the games with that rating come out of
      the sort in exactly the order they went in. */
  lemma {:induction false} SortIsStable(s: seq<Game>, v: int)
    ensures RatedExactly(SortByRatingDesc(s), v) == RatedExactly(s, v)
  {
    if s != [] {
      SortIsStable(s[1..], v);
      SortIsSorted(s[1..]);
      InsertStable(s[0], SortByRatingDesc(s[1..]), v);
      SelectAppend([s[0]], s[1..], HasRating(v));
      assert s == [s[0]] + s[1..];
      assert [s[0]][1..] == [];
    }
  }

  /** Picking the top-rated games and then one rating class is picking that
      class directly, provided it qualifies at all. */
  lemma {:induction false} RatedExactlyOfTopRated(s: seq<Game>, v: int)
    ensures RatedExactly(Select(s, IsTopRated), v) == if v >= 48 then RatedExactly(s, v) else []
  {
    if s != [] {
      RatedExactlyOfTopRated(s[1..], v);
    }
  }

  /** The head of a list of rating-v games is the first game rated v. */
  lemma ClassHead(s: seq<Game>, k: nat)
    requires k < |s| && forall i :: 0 <= i < k ==> s[i].rating != s[k].rating
    ensures RatedExactly(s, s[k].rating) != [] && RatedExactly(s, s[k].rating)[0] == s[k]
  {
    assert s == s[..k] + s[k..];
    SelectAppend(s[..k], s[k..], HasRating(s[k].rating));
    SelectAllFail(s[..k], HasRating(s[k].rating));
    assert s[k..] == [s[k]] + s[k + 1..];
  }

  lemma {:induction false} SelectAllFail(s: seq<Game>, keep: Game -> bool)
    requires forall i :: 0 <= i < |s| ==> !keep(s[i])
    ensures Select(s, keep) == []
  {
    if s != [] {
      SelectAllFail(s[1..], keep);
    }
  }

  /** Two sorted lists that agree on every rating class agree on their
      first game. */
  lemma HeadsAgree(a: seq<Game>, b: seq<Game>)
    requires SortedByRatingDesc(a) && SortedByRatingDesc(b)
    requires forall v :: RatedExactly(a, v) == RatedExactly(b, v)
    requires a != []
    ensures b != [] && a[0] == b[0]
  {
    var v := a[0].rating;
    ClassHead(a, 0);
    assert RatedExactly(b, v)[0] in RatedExactly(b, v);
    SelectMembership(b, HasRating(v), RatedExactly(b, v)[0]);
    var w := b[0].rating;
    ClassHead(b, 0);
    SelectMembership(a, HasRating(w), RatedExactly(a, w)[0]);
    var i :| 0 <= i < |a| && a[i] == RatedExactly(a, w)[0];
    var j :| 0 <= j < |b| && b[j] == RatedExactly(b, v)[0];
    assert v == w;
  }

  /** There is only one stable descending order: a sorted list is fixed by
      its rating classes, so any stable sort (as ECMAScript 2019 requires of
      `Array.prototype.sort`) gives exactly SortByRatingDesc. */
  lemma {:induction false} StableOrderUnique(a: seq<Game>, b: seq<Game>)
    requires SortedByRatingDesc(a) && SortedByRatingDesc(b)
    requires forall v :: RatedExactly(a, v) == RatedExactly(b, v)
    ensures a == b
    decreases |a| + |b|
  {
    if a != [] {
      HeadsAgree(a, b);
      forall v ensures RatedExactly(a[1..], v) == RatedExactly(b[1..], v) {
        var ra, rb := RatedExactly(a[1..], v), RatedExactly(b[1..], v);
        if a[0].rating == v {
          assert RatedExactly(a, v) == [a[0]] + ra;
          assert RatedExactly(b, v) == [b[0]] + rb;
          assert ([a[0]] + ra)[1..] == ra && ([b[0]] + rb)[1..] == rb;
        } else {
          assert RatedExactly(a, v) == ra && RatedExactly(b, v) == rb;
        }
      }
      StableOrderUnique(a[1..], b[1..]);
      assert a == [a[0]] + a[1..] && b == [b[0]] + b[1..];
    } else if b != [] {
      HeadsAgree(b, a);
    }
  }

  /** Hence the catalog's top-rated order is the one any stable sort gives. */
  lemma SortIsTheStableOrder(s: seq<Game>, sorted: seq<Game>)
    requires SortedByRatingDesc(sorted)
    requires forall v :: RatedExactly(sorted, v) == RatedExactly(s, v)
    ensures sorted == SortByRatingDesc(s)
  {
    SortIsSorted(s);
    forall v ensures RatedExactly(sorted, v) == RatedExactly(SortByRatingDesc(s), v) {
      SortIsStable(s, v);
    }
    StableOrderUnique(sorted, SortByRatingDesc(s));
  }

  /** A prefix's rating class is a prefix of the whole list's rating class. */
  lemma RatedExactlyPrefix(s: seq<Game>, k: nat, v: int)
    requires k <= |s|
    ensures RatedExactly(s[..k], v) <= RatedExactly(s, v)
  {
    assert s == s[..k] + s[k..];
    SelectAppend(s[..k], s[k..], HasRating(v));
  }

  /** The shown list is the first min(6, n) games of the sorted qualifying list. */
  lemma TopRatedIsPrefix(catalog: seq<Game>)
    ensures var sorted := SortByRatingDesc(Select(catalog, IsTopRated));
      |TopRated(catalog)| <= 6 && |TopRated(catalog)| <= |sorted| &&
      TopRated(catalog) == sorted[..|TopRated(catalog)|] &&
      sorted == TopRated(catalog) + sorted[|TopRated(catalog)|..]
  {
    TakeSplit(SortByRatingDesc(Select(catalog, IsTopRated)), 6);
  }

  /** Every shown game qualifies and comes from the catalog. */
  lemma TopRatedMembers(catalog: seq<Game>)
    ensures forall i :: 0 <= i < |TopRated(catalog)| ==> TopRated(catalog)[i].rating >= 48
    ensures multiset(TopRated(catalog)) <= multiset(catalog)
  {
    var qualifying := Select(catalog, IsTopRated);
    var sorted := SortByRatingDesc(qualifying);
    var top := TopRated(catalog);
    TopRatedIsPrefix(catalog);
    assert multiset(sorted) == multiset(top) + multiset(sorted[|top|..]);
    forall i | 0 <= i < |top| ensures top[i].rating >= 48 {
      assert top[i] in multiset(qualifying);
    }
    SelectIsSubsequence(catalog, IsTopRated);
    SubsequenceMembers(qualifying, catalog);
  }

  /** The shown list is ordered best first. */
  lemma TopRatedSorted(catalog: seq<Game>)
    ensures SortedByRatingDesc(TopRated(catalog))
  {
    TopRatedIsPrefix(catalog);
    SortIsSorted(Select(catalog, IsTopRated));
  }

  /** For each rating, the shown games are a prefix of the catalog's games
      with that rating. */
  lemma TopRatedClassPrefix(catalog: seq<Game>, v: int)
    ensures RatedExactly(TopRated(catalog), v) <= RatedExactly(catalog, v)
  {
    var qualifying := Select(catalog, IsTopRated);
    var sorted := SortByRatingDesc(qualifying);
    TopRatedIsPrefix(catalog);
    RatedExactlyPrefix(sorted, |TopRated(catalog)|, v);
    SortIsStable(qualifying, v);
    RatedExactlyOfTopRated(catalog, v);
  }

  /** What the top-rated list promises: at most six games, all rated 4.8 or
      more, best first, a sub-multiset of the catalog, and, for each rating,
      a prefix of the catalog's games with that rating: equally rated games
      keep their catalog order and none is skipped in favour of a later one. */
  lemma TopRatedSpec(catalog: seq<Game>)
    ensures |TopRated(catalog)| == Min(6, |Select(catalog, IsTopRated)|)
    ensures forall i :: 0 <= i < |TopRated(catalog)| ==> TopRated(catalog)[i].rating >= 48
    ensures SortedByRatingDesc(TopRated(catalog))
    ensures multiset(TopRated(catalog)) <= multiset(catalog)
    ensures forall v :: RatedExactly(TopRated(catalog), v) <= RatedExactly(catalog, v)
  {
    TopRatedIsPrefix(catalog);
    TopRatedMembers(catalog);
    TopRatedSorted(catalog);
    forall v ensures RatedExactly(TopRated(catalog), v) <= RatedExactly(catalog, v) {
      TopRatedClassPrefix(catalog, v);
    }
  }

  /** In a list sorted best first, nothing after position k is rated higher
      than anything before it. */
  lemma SplitSorted(sorted: seq<Game>, k: nat, out: Game, kept: Game)
    requires SortedByRatingDesc(sorted) && k <= |sorted|
    requires out in multiset(sorted[k..]) && kept in sorted[..k]
    ensures out.rating <= kept.rating
  {
    var rest := sorted[k..];
    var j :| 0 <= j < |rest| && rest[j] == out;
    var i :| 0 <= i < k && sorted[..k][i] == kept;
    assert sorted[i] == kept && sorted[k + j] == out;
  }

  /** No qualifying game is left out while a game rated strictly lower got a
      place: everything cut by `slice(0, 6)` is rated at most as high as
      everything kept. */
  lemma LeftOutRatedNoHigher(catalog: seq<Game>, out: Game, kept: Game)
    requires out in multiset(Select(catalog, IsTopRated)) - multiset(TopRated(catalog))
    requires kept in TopRated(catalog)
    ensures out.rating <= kept.rating
  {
    var sorted := SortByRatingDesc(Select(catalog, IsTopRated));
    var top := TopRated(catalog);
    TopRatedIsPrefix(catalog);
    SortIsSorted(Select(catalog, IsTopRated));
    assert multiset(sorted) == multiset(top) + multiset(sorted[|top|..]);
    SplitSorted(sorted, |top|, out, kept);
  }

  /** The first card (the Crown) holds a game rated at least as high as any
      game of the catalog; the list is empty only when no game reaches 4.8. */
  lemma CrownIsBest(catalog: seq<Game>)
    ensures TopRated(catalog) == [] <==> forall g :: g in catalog ==> g.rating < 48
    ensures TopRated(catalog) != [] ==> forall g :: g in catalog ==> g.rating <= TopRated(catalog)[0].rating
  {
    var qualifying := Select(catalog, IsTopRated);
    var sorted := SortByRatingDesc(qualifying);
    SortIsSorted(qualifying);
    forall g | g in catalog && g.rating >= 48 ensures g in sorted {
      SelectMembership(catalog, IsTopRated, g);
      assert g in multiset(sorted);
    }
    if sorted != [] {
      assert TopRated(catalog)[0] == sorted[0];
      assert sorted[0] in multiset(qualifying);
      SelectMembership(catalog, IsTopRated, sorted[0]);
      forall g | g in catalog ensures g.rating <= sorted[0].rating {
        if g.rating >= 48 {
          var k :| 0 <= k < |sorted| && sorted[k] == g;
        }
      }
    }
  }

  /** With uniquely keyed catalog entries, no game appears twice. */
  lemma TopRatedUniqueIds(catalog: seq<Game>)
    requires UniqueIds(catalog)
    ensures UniqueIds(TopRated(catalog))
  {
    var qualifying := Select(catalog, IsTopRated);
    var sorted := SortByRatingDesc(qualifying);
    IdsSelect(catalog, IsTopRated);
    IdsPermutation(qualifying);
    IdsPrefix(sorted, |TopRated(catalog)|);
    UniqueIdsSub(TopRated(catalog), catalog);
  }

  lemma {:induction false} IdsInsert(g: Game, s: seq<Game>)
    ensures Ids(InsertByRating(g, s)) == multiset{g.id} + Ids(s)
  {
    if s != [] && g.rating < s[0].rating {
      IdsInsert(g, s[1..]);
    }
  }

  lemma {:induction false} IdsPermutation(s: seq<Game>)
    ensures Ids(SortByRatingDesc(s)) == Ids(s)
  {
    if s != [] {
      IdsPermutation(s[1..]);
      IdsInsert(s[0], SortByRatingDesc(s[1..]));
    }
  }

  /** `getRankIcon`: Crown, Diamond, Award for the first three places, Star
      for the rest. */
  function RankIcon(index: int): (icon: Icon)
    ensures icon in {Crown, Diamond, Award, Star}
    ensures icon == Star <==> index !in {0, 1, 2}
  {
    match index
    case 0 => Crown
    case 1 => Diamond
    case 2 => Award
    case _ => Star
  }

  /** `getRankColor`: the badge gradient for a place. */
  function RankColor(index: int): (color: string)
    ensures color == "from-red-500 to-red-600" <==> index !in {0, 1, 2}
  {
    match index
    case 0 => "from-yellow-500 to-yellow-600"
    case 1 => "from-gray-300 to-gray-400"
    case 2 => "from-orange-500 to-orange-600"
    case _ => "from-red-500 to-red-600"
  }

  /** Badge icon and colour go together: each of the first three places has
      its own icon and its own colour, and every later place shares the
      fourth pair. */
  lemma RankBadgesDistinct(i: int, j: int)
    ensures RankIcon(i) == RankIcon(j) <==> (i == j || (i !in {0, 1, 2} && j !in {0, 1, 2}))
    ensures RankColor(i) == RankColor(j) <==> RankIcon(i) == RankIcon(j)
  {
  }
}
