/** The catalog entry every section renders. The catalog itself (the module
    `src/data/games`) is not part of this model: each view takes it as a
    parameter `seq<Game>`. */
module Catalog {
  import opened Sequences

  datatype Option<T> = None | Some(value: T)

  /** One catalog entry. `rating` is in tenths of a star (4.8 is 48) so that
      the threshold and the sort comparator are exact; prices are in cents
      and only displayed. Image and description are not modelled. */
  datatype Game = Game(
    id: int,
    title: string,
    genre: string,
    price: int,
    originalPrice: Option<int>,
    discount: Option<int>,
    rating: int,
    releaseDate: string,
    platforms: seq<string>,
    isNew: bool,
    isTrending: bool)

  /** The lucide-react icons the sections choose between. */
  datatype Icon =
    | Swords | Rocket | Crown | Target | Gamepad2 | Car | Users | Ghost
    | Puzzle | CreditCard | Sword | Music | Diamond | Award | Star

  /** No two entries share an id (ids are the React keys of every list). */
  predicate UniqueIds(s: seq<Game>) {
    forall i, j :: 0 <= i < j < |s| ==> s[i].id != s[j].id
  }

  /** The ids of a list, with multiplicity. */
  function Ids(s: seq<Game>): multiset<int> {
    if s == [] then multiset{} else multiset{s[0].id} + Ids(s[1..])
  }

  lemma {:induction false} IdsAppend(a: seq<Game>, b: seq<Game>)
    ensures Ids(a + b) == Ids(a) + Ids(b)
  {
    if a != [] {
      assert (a + b)[0] == a[0] && (a + b)[1..] == a[1..] + b;
      IdsAppend(a[1..], b);
    } else {
      assert a + b == b;
    }
  }

  /** An id occurs in Ids(s) exactly when some entry carries it. */
  lemma {:induction false} IdsMembership(s: seq<Game>, id: int)
    ensures id in Ids(s) <==> exists i :: 0 <= i < |s| && s[i].id == id
  {
    if s != [] {
      IdsMembership(s[1..], id);
      if id in Ids(s[1..]) {
        var i :| 0 <= i < |s[1..]| && s[1..][i].id == id;
        assert s[i + 1].id == id;
      }
      if exists i :: 0 <= i < |s| && s[i].id == id {
        var i :| 0 <= i < |s| && s[i].id == id;
        if i > 0 {
          assert s[1..][i - 1].id == id;
        }
      }
    }
  }

  /** Ids are unique exactly when every id is counted at most once. */
  lemma {:induction false} UniqueIdsCount(s: seq<Game>)
    ensures UniqueIds(s) <==> forall id :: Ids(s)[id] <= 1
  {
    if s != [] {
      UniqueIdsCount(s[1..]);
      IdsMembership(s[1..], s[0].id);
      var t := s[1..];
      if UniqueIds(s) {
        assert UniqueIds(t) by {
          forall i, j | 0 <= i < j < |t| ensures t[i].id != t[j].id {
            assert t[i] == s[i + 1] && t[j] == s[j + 1];
          }
        }
        assert s[0].id !in Ids(t) by {
          forall j | 0 <= j < |t| ensures t[j].id != s[0].id {
            assert t[j] == s[j + 1];
          }
        }
      }
      assert Ids(s) == multiset{s[0].id} + Ids(t);
      if forall id :: Ids(s)[id] <= 1 {
        assert forall id :: Ids(t)[id] <= 1 by {
          forall id ensures Ids(t)[id] <= 1 {
            assert Ids(s)[id] <= 1;
          }
        }
        assert s[0].id !in Ids(t) by {
          assert Ids(s)[s[0].id] <= 1;
        }
        forall i, j | 0 <= i < j < |s| ensures s[i].id != s[j].id {
          if i == 0 {
            assert t[j - 1] == s[j];
          } else {
            assert t[i - 1] == s[i] && t[j - 1] == s[j];
          }
        }
      }
    }
  }

  /** filter never adds an id. */
  lemma {:induction false} IdsSelect(s: seq<Game>, keep: Game -> bool)
    ensures Ids(Select(s, keep)) <= Ids(s)
  {
    if s != [] {
      IdsSelect(s[1..], keep);
    }
  }

  /** A prefix carries a part of the ids. */
  lemma IdsPrefix(s: seq<Game>, k: nat)
    requires k <= |s|
    ensures Ids(s[..k]) <= Ids(s)
  {
    assert s == s[..k] + s[k..];
    IdsAppend(s[..k], s[k..]);
  }

  /** A list whose ids are among a uniquely keyed list's ids, counted with
      multiplicity, is itself uniquely keyed. */
  lemma UniqueIdsSub(r: seq<Game>, s: seq<Game>)
    requires Ids(r) <= Ids(s) && UniqueIds(s)
    ensures UniqueIds(r)
  {
    UniqueIdsCount(s);
    UniqueIdsCount(r);
  }

  /** `platform[0]`: the first character of a platform name, or nothing for
      an empty name (indexing past the end gives `undefined`, which React
      renders as nothing). */
  function Initial(platform: string): (r: string)
    ensures |r| <= 1
    ensures |r| == 1 <==> platform != []
    ensures platform != [] ==> r[0] == platform[0]
  {
    if platform == [] then [] else platform[..1]
  }

  /** `platform.slice(0, 3).map(p => p[0])`, the initials on a grid card and
      on a latest-release tile. */
  function PlatformInitials(platforms: seq<string>): (r: seq<string>)
    ensures |r| == Min(3, |platforms|)
    ensures forall i :: 0 <= i < |r| ==> r[i] == Initial(platforms[i])
  {
    var shown := Take(platforms, 3);
    seq(|shown|, i requires 0 <= i < |shown| => Initial(shown[i]))
  }
}
