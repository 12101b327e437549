/** The "All Games" browser: a search box, a category select, a view-mode
    toggle and numbered pages of twelve cards over the filtered catalog. */
module GameGrid {
  import opened Sequences
  import opened Text
  import opened Catalog

  const ItemsPerPage: nat := 12

  datatype ViewMode = Grid | Large

  /** 'All' is a wildcard; any other category must equal the genre exactly. */
  predicate MatchesCategory(g: Game, category: string) {
    category == "All" || g.genre == category
  }

  /** The lower-cased title includes the lower-cased query. */
  predicate MatchesSearch(g: Game, query: string) {
    Contains(Lower(g.title), Lower(query))
  }

  function Matches(category: string, query: string): Game -> bool {
    g => MatchesCategory(g, category) && MatchesSearch(g, query)
  }

  /** `filteredGames`: the games matching both the category and the search,
      in catalog order. */
  function Filter(catalog: seq<Game>, category: string, query: string): (r: seq<Game>)
    ensures IsSubsequence(r, catalog)
    ensures forall i :: 0 <= i < |r| ==> MatchesCategory(r[i], category) && MatchesSearch(r[i], query)
  {
    SelectIsSubsequence(catalog, Matches(category, query));
    Select(catalog, Matches(category, query))
  }

  /** A game is listed exactly when it is in the catalog and matches both
      criteria, and it is listed as often as the catalog holds it. */
  lemma FilterExact(catalog: seq<Game>, category: string, query: string, g: Game)
    ensures g in Filter(catalog, category, query) <==>
            g in catalog && MatchesCategory(g, category) && MatchesSearch(g, query)
    ensures multiset(Filter(catalog, category, query))[g] ==
            if MatchesCategory(g, category) && MatchesSearch(g, query) then multiset(catalog)[g] else 0
  {
    SelectMultiset(catalog, Matches(category, query), g);
  }

  /** The initial state, category 'All' and an empty search, shows the whole
      catalog: the empty query is included in every title. */
  lemma FilterShowsAll(catalog: seq<Game>)
    ensures Filter(catalog, "All", "") == catalog
  {
    forall i | 0 <= i < |catalog| ensures Matches("All", "")(catalog[i]) {
      assert Lower("") == "";
      ContainsEmpty(Lower(catalog[i].title));
    }
    SelectAllPass(catalog, Matches("All", ""));
  }

  /** Applying the same filter to its own result changes nothing. */
  lemma FilterIdempotent(catalog: seq<Game>, category: string, query: string)
    ensures Filter(Filter(catalog, category, query), category, query) == Filter(catalog, category, query)
  {
    SelectIdempotent(catalog, Matches(category, query));
  }

  /** The search ignores letter case: typing the query in lower case (or any
      case that lower-cases to it) lists the same games. */
  lemma FilterIgnoresQueryCase(catalog: seq<Game>, category: string, query: string)
    ensures Filter(catalog, category, Lower(query)) == Filter(catalog, category, query)
  {
    LowerIdempotent(query);
    SelectCongruent(catalog, Matches(category, Lower(query)), Matches(category, query));
  }

  /** Two queries that differ only in letter case ("DRAG" and "Drag") list
      the same games. */
  lemma QueryCaseInsensitive(catalog: seq<Game>, category: string, q1: string, q2: string)
    requires |q1| == |q2|
    requires forall i :: 0 <= i < |q1| ==> LowerChar(q1[i]) == LowerChar(q2[i])
    ensures Filter(catalog, category, q1) == Filter(catalog, category, q2)
  {
    LowerIgnoresCase(q1, q2);
    SelectCongruent(catalog, Matches(category, q1), Matches(category, q2));
  }

  /** A query that occurs verbatim in a title always finds that game. */
  lemma VerbatimQueryMatches(g: Game, query: string, i: int)
    requires OccursAt(g.title, query, i)
    ensures MatchesSearch(g, query)
  {
    var t, q := Lower(g.title), Lower(query);
    assert t[i..i + |q|] == q;
    assert OccursAt(t, q, i);
  }

  /** `Math.ceil(n / itemsPerPage)`: the fewest pages of twelve that hold n
      games, which is 0 when nothing matches. */
  function PageCount(n: nat): (pages: nat)
    ensures pages * ItemsPerPage >= n
    ensures pages == 0 || (pages - 1) * ItemsPerPage < n
    ensures pages == 0 <==> n == 0
  {
    (n + ItemsPerPage - 1) / ItemsPerPage
  }

  function StartIndex(page: int): int { (page - 1) * ItemsPerPage }

  /** `filteredGames.slice(startIndex, startIndex + itemsPerPage)`: at most
      twelve games, read from the filtered list starting at startIndex. */
  function Page(filtered: seq<Game>, page: int): (r: seq<Game>)
    ensures |r| <= ItemsPerPage
    ensures 1 <= page ==> |r| == if StartIndex(page) < |filtered| then Min(ItemsPerPage, |filtered| - StartIndex(page)) else 0
    ensures 1 <= page ==> forall i :: 0 <= i < |r| ==>
              StartIndex(page) + i < |filtered| && r[i] == filtered[StartIndex(page) + i]
  {
    Slice(filtered, StartIndex(page), StartIndex(page) + ItemsPerPage)
  }

  /** Pages 1..PageCount tile the filtered list: game i is on page i/12 + 1,
      at position i % 12, and on no other page. */
  lemma EveryGameOnOnePage(filtered: seq<Game>, i: nat, page: int)
    requires i < |filtered|
    ensures 1 <= i / ItemsPerPage + 1 <= PageCount(|filtered|)
    ensures var p := i / ItemsPerPage + 1;
            i - StartIndex(p) < |Page(filtered, p)| && Page(filtered, p)[i - StartIndex(p)] == filtered[i]
    ensures 1 <= page && StartIndex(page) <= i < StartIndex(page) + ItemsPerPage ==> page == i / ItemsPerPage + 1
  {
  }

  /** A page that the handlers can reach (1, or at most the page count) is
      never empty while something matches. */
  lemma ReachablePageNonEmpty(filtered: seq<Game>, page: int)
    requires 1 <= page && (page == 1 || page <= PageCount(|filtered|))
    requires |filtered| > 0
    ensures 0 < |Page(filtered, page)|
  {
  }

  /** The controls are rendered when `totalPages > 1`, i.e. when more than
      one page of games matches. */
  predicate ShowsPagination(n: nat): (shown: bool)
    ensures shown <==> n > ItemsPerPage
  {
    PageCount(n) > 1
  }

  /** `Array.from({ length: totalPages }, (_, i) => i + 1)`: the numbered
      buttons, exactly the pages 1..total in increasing order. */
  function PageButtons(total: nat): (r: seq<int>)
    ensures |r| == total
    ensures forall i, j :: 0 <= i < j < |r| ==> r[i] < r[j]
    ensures forall p :: p in r <==> 1 <= p <= total
  {
    var r := seq(total, i requires 0 <= i < total => i + 1);
    ButtonsCoverPages(r, total);
    r
  }

  lemma ButtonsCoverPages(r: seq<int>, total: nat)
    requires |r| == total && forall i :: 0 <= i < total ==> r[i] == i + 1
    ensures forall p :: p in r <==> 1 <= p <= total
  {
    forall p | 1 <= p <= total ensures p in r {
      assert r[p - 1] == p;
    }
  }

  /** The previous-page button: `Math.max(1, currentPage - 1)`. */
  function PrevPage(current: int): (p: int)
    ensures 1 <= p && current - 1 <= p
    ensures 1 <= current ==> p <= current
  {
    if current - 1 < 1 then 1 else current - 1
  }

  /** The next-page button: `Math.min(totalPages, currentPage + 1)`. */
  function NextPage(current: int, total: int): (p: int)
    ensures p <= total && p <= current + 1
    ensures current <= total ==> current <= p
  {
    if total < current + 1 then total else current + 1
  }

  /** From a page in [1, total], prev and next stay in [1, total], move by at
      most one page, and are no-ops exactly where their button is disabled
      (prev on page 1, next on the last page). */
  lemma PrevNextClamp(current: int, total: int)
    requires 1 <= current <= total
    ensures 1 <= PrevPage(current) <= total && 1 <= NextPage(current, total) <= total
    ensures PrevPage(current) == current <==> current == 1
    ensures NextPage(current, total) == current <==> current == total
    ensures current > 1 ==> PrevPage(current) == current - 1
    ensures current < total ==> NextPage(current, total) == current + 1
  {
  }

  /** The example of a fourteen-game result: two pages, twelve games on the
      first, two on the second. A page request beyond the last page is not
      clamped: it shows no games. */
  lemma FourteenGamesExample(filtered: seq<Game>)
    requires |filtered| == 14
    ensures PageCount(|filtered|) == 2
    ensures |Page(filtered, 1)| == 12 && |Page(filtered, 2)| == 2
    ensures Page(filtered, 5) == []
  {
  }

  /** The search example: "drag" in category "RPG" finds the RPG dragon game
      and not the action one. */
  lemma DragonSearchExample(legend: Game, warrior: Game)
    requires legend.title == "Dragon's Legend" && legend.genre == "RPG"
    requires warrior.title == "Dragon Warrior" && warrior.genre == "Action"
    ensures Filter([legend, warrior], "RPG", "drag") == [legend]
  {
    var q := Lower("drag");
    assert q == "drag";
    var t := Lower(legend.title);
    assert t[..4] == "drag";
    assert StartsWith(t, q);
    assert Contains(t, q);
    assert Matches("RPG", "drag")(legend);
    assert !Matches("RPG", "drag")(warrior);
    var m := Matches("RPG", "drag");
    assert [legend, warrior][1..] == [warrior];
    assert [warrior][1..] == [];
    assert Select([warrior], m) == [];
    assert Select([legend, warrior], m) == [legend] + Select([warrior], m);
  }

  /** The browser's query state: the React state hooks of the section. The
      catalog is the imported constant `games`. */
  class Browser {
    const catalog: seq<Game>
    var currentPage: int
    var selectedCategory: string
    var searchQuery: string
    var viewMode: ViewMode

    /** The handlers keep the page at 1 or within the page count. */
    ghost predicate Valid()
      reads this
    {
      1 <= currentPage && (currentPage == 1 || currentPage <= TotalPages())
    }

    function FilteredGames(): seq<Game>
      reads this
    {
      Filter(catalog, selectedCategory, searchQuery)
    }

    function TotalPages(): nat
      reads this
    {
      PageCount(|FilteredGames()|)
    }

    function CurrentGames(): seq<Game>
      reads this
    {
      Page(FilteredGames(), currentPage)
    }

    constructor (catalog: seq<Game>)
      ensures this.catalog == catalog
      ensures currentPage == 1 && selectedCategory == "All" && searchQuery == "" && viewMode == Grid
      ensures Valid()
      ensures FilteredGames() == catalog
    {
      this.catalog := catalog;
      currentPage := 1;
      selectedCategory := "All";
      searchQuery := "";
      viewMode := Grid;
      FilterShowsAll(catalog);
    }

    /** The search input's onChange: store the text, go back to page 1. */
    method OnSearchChange(value: string)
      modifies this
      ensures searchQuery == value && currentPage == 1
      ensures selectedCategory == old(selectedCategory) && viewMode == old(viewMode)
      ensures Valid()
    {
      searchQuery := value;
      currentPage := 1;
    }

    /** The category select's onChange: store the category, go back to page 1. */
    method OnCategoryChange(value: string)
      modifies this
      ensures selectedCategory == value && currentPage == 1
      ensures searchQuery == old(searchQuery) && viewMode == old(viewMode)
      ensures Valid()
    {
      selectedCategory := value;
      currentPage := 1;
    }

    /** The two view-mode buttons: only the layout changes, never the query
      state or the games shown. */
    method SetViewMode(mode: ViewMode)
      modifies this`viewMode
      ensures viewMode == mode
      ensures CurrentGames() == old(CurrentGames()) && TotalPages() == old(TotalPages())
      ensures Valid() == old(Valid())
    {
      viewMode := mode;
    }

    /** `handlePageChange`: set the page (the smooth scroll to the section is
      not modelled). */
    method HandlePageChange(page: int)
      modifies this`currentPage
      ensures currentPage == page
    {
      currentPage := page;
    }

    /** The previous button, rendered only when there is more than one page. */
    method OnPrevClick()
      requires Valid() && ShowsPagination(|FilteredGames()|)
      modifies this`currentPage
      ensures currentPage == PrevPage(old(currentPage))
      ensures Valid() && 1 <= currentPage <= TotalPages()
    {
      PrevNextClamp(currentPage, TotalPages());
      HandlePageChange(PrevPage(currentPage));
    }

    /** The next button, rendered only when there is more than one page. */
    method OnNextClick()
      requires Valid() && ShowsPagination(|FilteredGames()|)
      modifies this`currentPage
      ensures currentPage == NextPage(old(currentPage), TotalPages())
      ensures Valid() && 1 <= currentPage <= TotalPages()
    {
      PrevNextClamp(currentPage, TotalPages());
      HandlePageChange(NextPage(currentPage, TotalPages()));
    }

    /** A numbered button: one of the pages the pagination row lists. */
    method OnPageButtonClick(page: int)
      requires Valid() && ShowsPagination(|FilteredGames()|)
      requires page in PageButtons(TotalPages())
      modifies this`currentPage
      ensures currentPage == page
      ensures Valid() && 1 <= currentPage <= TotalPages()
    {
      HandlePageChange(page);
    }
  }
}
