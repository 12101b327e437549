# Game storefront page: catalog queries, counters and tiles

This project models the logic of a React game storefront page. It also
proves properties of that logic. Most of the page is static markup and
animation, and that part is not modelled. The modelled parts are:

- **The "All Games" browser** (`GameGrid`).
  - It filters the catalog by category and by a case-insensitive title
    search, in a stable way.
  - It shows pages of twelve cards.
  - It keeps its state in four React state hooks. The model holds that
    state in the class `GameGrid.Browser`, which has one method per event
    handler.
- **The catalog views.** Each of these is a filter, then a slice, over the
  catalog:
  - "Highest Rated" (`TopRatedGames`) keeps games rated 4.8 or more and
    runs a stable sort, best first. It shows six at most, each with a rank
    icon and a rank colour.
  - "Hot Deals" (`DiscountGames`) keeps discounted games, six at most. Each
    card shows a discount badge and, when present, the original price.
  - "New Games" (`NewGames`) keeps the first three new games.
  - "Most Popular" (`TrendingGames`) keeps the first four trending games,
    labelled `#1`, `#2` and so on.
  - "New Arrivals" (`LatestGames`) shows the first six catalog entries.
- **The statistics section** (`Stats`).
  - `formatNumber` writes numbers with an M or K suffix.
  - The `AnimatedCounter` counts up from 0 once, when it scrolls into
    view. It uses a latch, a progress value capped at 1, and an ease-out
    cubic curve. The class `Stats.AnimatedCounter` holds its refs and
    state.
- **The category tiles** (`Categories`). Each tile gets an icon from a
  fixed table, or a default icon. Its colour cycles through six gradients.

Supporting modules model the JavaScript built-ins the page relies on:

- `Sequences`: `Array.prototype.slice`, including negative and clamped
  bounds, and the stable `Array.prototype.filter`.
- `Text`: `toLowerCase`, `includes` and `Number.prototype.toString`.
- `Catalog`: the catalog entry and the icons.

The game catalog itself is a parameter of every view.

Numbers are represented as follows:

- A rating is a whole number of tenths, so 4.8 is 48.
- A price is a whole number of cents. Prices are only displayed.
- A discount is a whole percentage.
- Progress and easing use Dafny's `real`.

### Page count and page clamping

- **Empty result.** `totalPages` is `Math.ceil(n / 12)`, so a search that
  matches nothing has 0 pages. `GameGrid.PageCount` ensures
  `pages == 0 <==> n == 0`.
- **Clamping.** Nothing clamps `currentPage` itself. Only the prev/next
  buttons compute a clamped target. A page beyond the end shows no games
  (`GameGrid.FourteenGamesExample`, `Page(filtered, 5) == []`).
  - `Browser.Valid()` says the page is 1, or within the page count. The
    constructor establishes it. Search, category, view-mode, prev, next and
    numbered-button events keep it. `HandlePageChange` on its own accepts
    any page and does not keep it.

## Model

| member | source | states |
|---|---|---|
| Sequences.Slice | src/sections/GameGrid.tsx:31 | `slice(start, end)` never fails. The result has `min(end,len) - min(start,len)` elements for `0 <= start <= end`. Element i is the input's element at the clamped start plus i. |
| Sequences.Take | src/sections/LatestGames.tsx:58 | `slice(0, k)` is exactly the prefix of length `min(k, len)`. |
| Sequences.Select | src/sections/GameGrid.tsx:23-27 | `filter` keeps only passing elements and never grows the list. |
| Sequences.SelectIsSubsequence | src/sections/GameGrid.tsx:23-27 | `filter` keeps catalog order: its result is a subsequence of its input. |
| Sequences.SelectMultiset | src/sections/GameGrid.tsx:23-27 | Every passing element is kept as often as it occurs. No failing element is kept. |
| Sequences.SelectMembership | src/sections/GameGrid.tsx:23-27 | An element survives `filter` if and only if it is in the input and passes. |
| Sequences.SelectAppend | src/sections/GameGrid.tsx:23-27 | `filter` distributes over concatenation. |
| Sequences.SelectCongruent | src/sections/GameGrid.tsx:23-27 | Two predicates that agree on every element filter alike. |
| Sequences.SelectIdempotent | src/sections/GameGrid.tsx:23-27 | Filtering twice with the same predicate equals filtering once. |
| Sequences.FirstPassing | src/sections/DiscountGames.tsx:56 | `filter(p).slice(0, k)` is the complete filter of some prefix of the input. That prefix stops short of the end only once k elements were found. |
| Sequences.FirstPassingSpec | src/sections/NewGames.tsx:57 | `filter(p).slice(0, k)` has `min(k, #passing)` elements, all passing, in input order. |
| Sequences.SubsequenceTransitive | src/sections/GameGrid.tsx:23-31 | A subsequence of a subsequence is a subsequence, as when a slice of a filter is taken. |
| Sequences.SubsequenceMembers | src/sections/GameGrid.tsx:23-27 | Every element of a subsequence occurs in the sequence, counted with multiplicity. |
| Text.Lower | src/sections/GameGrid.tsx:25 | `toLowerCase` keeps the length and leaves no upper-case letter. |
| Text.LowerIdempotent | src/sections/GameGrid.tsx:25 | Lower-casing twice equals lower-casing once. |
| Text.Contains | src/sections/GameGrid.tsx:25 | `includes` holds if and only if the query occurs at some position of the text. |
| Text.ContainsEmpty | src/sections/GameGrid.tsx:18-25 | The empty query is included in every title. |
| Text.NatToString | src/sections/Stats.tsx:32 | `toString` of a whole number is a non-empty string of digits with no leading zero. |
| Text.IntToString | src/sections/Stats.tsx:32 | `toString` of an integer starts with '-' if and only if the integer is negative. |
| Text.ParseNatToString | src/sections/Stats.tsx:32 | Reading back the decimal digits of n gives n. |
| Text.NatToStringInjective | src/sections/Stats.tsx:32 | Different numbers are written differently. |
| Text.NatToStringNumeral | src/sections/Stats.tsx:32 | `toString` of a whole number is a numeral: one or more digits, no leading zero unless it is "0". It reads back as the number. |
| Text.NumeralUnique | src/sections/Stats.tsx:32 | A numeral is the `toString` of its own value, so the value fixes the text. |
| Catalog.IdsMembership | src/sections/GameGrid.tsx:156 | An id is among a list's ids if and only if some entry carries it. |
| Catalog.UniqueIdsCount | src/sections/GameGrid.tsx:156 | The React keys `game.id` are unique if and only if every id occurs at most once. |
| Catalog.IdsSelect | src/sections/GameGrid.tsx:23-27 | `filter` never adds an id. |
| Catalog.UniqueIdsSub | src/sections/TopRatedGames.tsx:56-59 | A list whose ids are among a uniquely keyed list's ids is uniquely keyed. |
| Catalog.Initial | src/sections/GameGrid.tsx:218 | `platform[0]` is the first character, or nothing for an empty name. |
| Catalog.PlatformInitials | src/sections/GameGrid.tsx:213-220 | A grid card shows at most three platform initials, one per platform, in order. |
| GameGrid.Filter | src/sections/GameGrid.tsx:23-27 | The filtered games are a subsequence of the catalog. Each matches the category and the lower-cased search. |
| GameGrid.FilterExact | src/sections/GameGrid.tsx:23-27 | A game is listed if and only if it is in the catalog, matches the category (`'All'` or equal genre) and contains the query ignoring case. It is listed as often as the catalog holds it. |
| GameGrid.FilterShowsAll | src/sections/GameGrid.tsx:17-27 | With category `'All'` and an empty search, the whole catalog is shown. |
| GameGrid.FilterIdempotent | src/sections/GameGrid.tsx:23-27 | Filtering the filtered list again changes nothing. |
| GameGrid.FilterIgnoresQueryCase | src/sections/GameGrid.tsx:25 | A query and its lower-cased form list the same games. |
| GameGrid.QueryCaseInsensitive | src/sections/GameGrid.tsx:25 | Two queries that differ only in letter case list the same games. |
| GameGrid.VerbatimQueryMatches | src/sections/GameGrid.tsx:25 | A query occurring verbatim in a title always matches that game. |
| GameGrid.PageCount | src/sections/GameGrid.tsx:21-29 | `Math.ceil(n / 12)` is the fewest pages of twelve that hold n games. It is 0 exactly when nothing matches. |
| GameGrid.Page | src/sections/GameGrid.tsx:30-31 | A page holds at most twelve games, taken from the filtered list starting at `(page - 1) * 12`. Its length is given exactly. |
| GameGrid.EveryGameOnOnePage | src/sections/GameGrid.tsx:29-31 | Filtered game i is on page `i / 12 + 1`, which exists, and on no other page. |
| GameGrid.ReachablePageNonEmpty | src/sections/GameGrid.tsx:29-31 | A page the handlers can reach is not empty while some game matches. |
| GameGrid.ShowsPagination | src/sections/GameGrid.tsx:229 | The pagination row is rendered if and only if more than twelve games match. |
| GameGrid.PageButtons | src/sections/GameGrid.tsx:239 | The numbered buttons are exactly the pages 1..totalPages, in increasing order. |
| GameGrid.PrevPage | src/sections/GameGrid.tsx:232 | `Math.max(1, currentPage - 1)` is never below page 1, goes back at most one page, and never goes forward from a page of at least 1. |
| GameGrid.NextPage | src/sections/GameGrid.tsx:254 | `Math.min(totalPages, currentPage + 1)` is never past the last page, goes forward at most one page, and never goes back from a page within the page count. |
| GameGrid.PrevNextClamp | src/sections/GameGrid.tsx:232-255 | From a page in [1, total], prev and next stay in [1, total] and move by at most one. Each is a no-op exactly where its button is disabled. |
| GameGrid.FourteenGamesExample | src/sections/GameGrid.tsx:29-31 | Fourteen matches give two pages of 12 and 2 games. Page 5 is not clamped and shows nothing. |
| GameGrid.DragonSearchExample | src/sections/GameGrid.tsx:23-27 | "drag" in "RPG" finds "Dragon's Legend" and not the Action "Dragon Warrior". |
| GameGrid.Browser.constructor | src/sections/GameGrid.tsx:16-19 | The initial state is page 1, category `'All'`, an empty search and grid view. It shows the whole catalog. |
| GameGrid.Browser.OnSearchChange | src/sections/GameGrid.tsx:102-105 | Typing stores the query and resets the page to 1. The category and view mode are unchanged. |
| GameGrid.Browser.OnCategoryChange | src/sections/GameGrid.tsx:113-116 | Selecting stores the category and resets the page to 1. The query and view mode are unchanged. |
| GameGrid.Browser.SetViewMode | src/sections/GameGrid.tsx:127-135 | Switching the layout leaves the page, query state, page count and shown games unchanged. The page invariant holds afterwards exactly when it held before. |
| GameGrid.Browser.HandlePageChange | src/sections/GameGrid.tsx:75-76 | Sets the requested page, unclamped. Everything else is unchanged. |
| GameGrid.Browser.OnPrevClick | src/sections/GameGrid.tsx:232 | The page becomes `max(1, page - 1)` and stays in [1, totalPages]. |
| GameGrid.Browser.OnNextClick | src/sections/GameGrid.tsx:254 | The page becomes `min(totalPages, page + 1)` and stays in [1, totalPages]. |
| GameGrid.Browser.OnPageButtonClick | src/sections/GameGrid.tsx:239-243 | A numbered button sets that page, which lies in [1, totalPages]. |
| TopRatedGames.InsertByRating | src/sections/TopRatedGames.tsx:58 | One insertion step of the stable sort adds exactly the inserted game. |
| TopRatedGames.SortByRatingDesc | src/sections/TopRatedGames.tsx:58 | The sort is a permutation of its input. |
| TopRatedGames.InsertKeepsSorted | src/sections/TopRatedGames.tsx:58 | Insertion keeps the list ordered by rating, highest first. |
| TopRatedGames.SortIsSorted | src/sections/TopRatedGames.tsx:58 | The comparator `b.rating - a.rating` orders by rating, highest first. |
| TopRatedGames.SortIsStable | src/sections/TopRatedGames.tsx:58 | Sorting keeps the catalog order of equally rated games. |
| TopRatedGames.StableOrderUnique | src/sections/TopRatedGames.tsx:58 | Two rating-sorted permutations that keep each rating's order are equal. So the modelled sort is the one a stable sort gives. |
| TopRatedGames.SortIsTheStableOrder | src/sections/TopRatedGames.tsx:58 | Any stable rating-descending arrangement of a list equals `SortByRatingDesc` of it. |
| TopRatedGames.TopRated | src/sections/TopRatedGames.tsx:56-59 | The list holds exactly `min(6, #games rated 4.8 or more)` games. |
| TopRatedGames.TopRatedSpec | src/sections/TopRatedGames.tsx:56-59 | Exactly `min(6, #qualifying)` games, all rated at least 4.8, best first, drawn from the catalog. For every rating, the listed games are a prefix of the catalog's games with that rating. |
| TopRatedGames.TopRatedMembers | src/sections/TopRatedGames.tsx:56-59 | Every listed game is rated at least 4.8 and is taken from the catalog, counted with multiplicity. |
| TopRatedGames.TopRatedSorted | src/sections/TopRatedGames.tsx:58-59 | The listed games are ordered by rating, highest first. |
| TopRatedGames.TopRatedClassPrefix | src/sections/TopRatedGames.tsx:56-59 | For a rating v, the listed games rated v are the first of the catalog's games rated v, in catalog order. |
| TopRatedGames.LeftOutRatedNoHigher | src/sections/TopRatedGames.tsx:56-59 | A qualifying game cut by `slice(0, 6)` is rated no higher than any listed game. |
| TopRatedGames.CrownIsBest | src/sections/TopRatedGames.tsx:56-63 | The first (Crown) card is rated at least as high as every catalog game. The list is empty if and only if no game reaches 4.8. |
| TopRatedGames.TopRatedUniqueIds | src/sections/TopRatedGames.tsx:56-59 | With unique catalog ids, no game is listed twice. |
| TopRatedGames.IdsPermutation | src/sections/TopRatedGames.tsx:58 | The sort keeps the ids, counted with multiplicity. |
| TopRatedGames.RankIcon | src/sections/TopRatedGames.tsx:61-68 | Places 0, 1 and 2 get Crown, Diamond and Award. Every other index gets Star. |
| TopRatedGames.RankColor | src/sections/TopRatedGames.tsx:70-77 | The red gradient is used if and only if the index is not 0, 1 or 2. |
| TopRatedGames.RankBadgesDistinct | src/sections/TopRatedGames.tsx:61-77 | The first three places have pairwise different icons. Icon and colour always go together. |
| DiscountGames.Discounted | src/sections/DiscountGames.tsx:56 | At most six games, each with a discount above 0, in catalog order. |
| DiscountGames.DiscountedSpec | src/sections/DiscountGames.tsx:56 | At most six games, each with a present discount above 0 (0 is falsy), in catalog order. They are the first `min(6, #discounted)` discounted games. |
| DiscountGames.DiscountBadge | src/sections/DiscountGames.tsx:101 | The badge is '-', then the numeral of the discount (digits, no leading zero), then '%'. |
| DiscountGames.BadgesForListed | src/sections/DiscountGames.tsx:101 | Every listed card has a badge. Two badges are equal if and only if the discounts are. |
| DiscountGames.ShowsOriginalPrice | src/sections/DiscountGames.tsx:134 | The struck-through price appears only when an original price is present, and always when a positive one is. |
| DiscountGames.OriginalPriceShownIff | src/sections/DiscountGames.tsx:134-138 | The struck-through price appears only with an original price. For entries priced below a non-zero original price, it appears exactly when that price is present. |
| NewGames.NewReleases | src/sections/NewGames.tsx:57 | At most three games, each new, in catalog order. |
| NewGames.NewReleasesSpec | src/sections/NewGames.tsx:57 | At most three new games, in catalog order: the first `min(3, #new)`. |
| NewGames.CardPlatforms | src/sections/NewGames.tsx:132 | A card shows the first `min(3, #platforms)` platform names. |
| TrendingGames.Trending | src/sections/TrendingGames.tsx:56 | At most four games, each trending, in catalog order. |
| TrendingGames.TrendingSpec | src/sections/TrendingGames.tsx:56 | At most four trending games, in catalog order: the first `min(4, #trending)`. |
| TrendingGames.RankLabel | src/sections/TrendingGames.tsx:86 | The label is '#' then the numeral of index + 1 (digits, no leading zero). |
| TrendingGames.RankLabels | src/sections/TrendingGames.tsx:78-86 | One label per listed game, the i-th being `#{i+1}`. |
| TrendingGames.RankLabelsConsecutive | src/sections/TrendingGames.tsx:78-86 | The labels read #1, #2, ... with no rank repeated or skipped. There are at most four. |
| TrendingGames.CardPlatforms | src/sections/TrendingGames.tsx:122 | A card shows the first `min(2, #platforms)` platform names. |
| LatestGames.Latest | src/sections/LatestGames.tsx:58 | At most six games, a prefix of the catalog. |
| LatestGames.LatestSpec | src/sections/LatestGames.tsx:58 | The first `min(6, #catalog)` entries, in order. With unique catalog ids, they are uniquely keyed. |
| LatestGames.ShowsNewBadge | src/sections/LatestGames.tsx:99 | The NEW badge is drawn exactly for games the "New Games" section counts as new. |
| LatestGames.NewBadgeMarksNewGames | src/sections/LatestGames.tsx:99 | A latest card has the NEW badge exactly when its game is among the catalog's new games. |
| LatestGames.PlatformTiles | src/sections/LatestGames.tsx:107-112 | Exactly `min(3, #platforms)` tiles, each equal to `Initial` of the matching platform: its first character, or nothing for an empty name. |
| Stats.RoundHalfUp | src/sections/Stats.tsx:28-30 | `(n / d).toFixed(0)` is the nearest whole number, with ties rounded up. |
| Stats.FormatNumber | src/sections/Stats.tsx:26-33 | The text is non-empty. It starts with '-' if and only if n is negative. It ends in "M" if and only if n is at least a million, and in "K" if and only if n is in [1000, 10^6). |
| Stats.FormatNumberSpec | src/sections/Stats.tsx:26-33 | From a million up the text is the numeral of n/10^6 rounded half up, then "M". From a thousand up it is the numeral of n/1000 rounded half up, then "K". From 0 to 999 it is n's numeral. Below 0 it is '-' and then the numeral of -n. |
| Stats.FormatNumberExamples | src/sections/Stats.tsx:26-33 | 999999 gives "1000K", 1500 gives "2K", 70 gives "70", and two million with "+" gives "2M+". |
| Stats.Progress | src/sections/Stats.tsx:50-51 | Progress is at most 1 and is non-negative for a non-negative elapsed time. It equals 1 if and only if the duration has elapsed. Below 1 it is elapsed/duration. |
| Stats.Ease | src/sections/Stats.tsx:52 | `1 - (1 - p)^3` stays in [0, 1] for p in [0, 1]. It is 0 at 0 and 1 at 1. |
| Stats.EaseMonotone | src/sections/Stats.tsx:52 | `1 - (1-p)^3` is 0 at 0 and 1 at 1, stays in [0, 1], and is monotone on [0, 1]. |
| Stats.FrameCount | src/sections/Stats.tsx:53 | `Math.floor(eased * value)` lies in [0, value] for a non-negative target, and is the target at progress 1. |
| Stats.FrameCountBounds | src/sections/Stats.tsx:52-53 | The shown count stays in [0, value], never decreases as progress grows, and ends exactly at value. |
| Stats.MainStatsSettle | src/sections/Stats.tsx:10-15 | The four main counters settle at "2M+", "70+", "500+" and "10M+". |
| Stats.AnimatedCounter.constructor | src/sections/Stats.tsx:35-38 | A counter starts at 0 with the latch open and nothing observed or scheduled. |
| Stats.AnimatedCounter.Mount | src/sections/Stats.tsx:40-65 | The effect observes the element only when it is rendered and not yet animated. |
| Stats.AnimatedCounter.Unmount | src/sections/Stats.tsx:66 | Cleanup disconnects the observer. |
| Stats.AnimatedCounter.Animate | src/sections/Stats.tsx:49-56 | One frame sets the eased count. It stays within [0, value] once time has not gone back. Another frame is requested if and only if progress is below 1, and otherwise the count is the target. |
| Stats.AnimatedCounter.OnEntries | src/sections/Stats.tsx:44-60 | The latch closes on the first intersecting entry and never reopens. The tween starts at most once, at count 0, and later entries change nothing. A batch with no intersecting entry while the latch is open changes nothing either. |
| Stats.AnimatedCounter.RunFrames | src/sections/Stats.tsx:54-56 | Frames continue exactly while progress is below 1. The first reading at full duration stops them and leaves the formatted target displayed. With no clock readings the count is unchanged and a frame stays pending. |
| Categories.CategoryIcon | src/sections/Categories.tsx:99 | The icon is the table entry, or Gamepad2 for a category missing from the table. |
| Categories.CategoryIconSpec | src/sections/Categories.tsx:12-31 | Every icon is one the section imports. Gamepad2 is drawn exactly for "All", "Strategy" and unknown names. |
| Categories.TileColor | src/sections/Categories.tsx:100-108 | `colors[index % 6]` is always in range, one of the six gradients. |
| Categories.ColorsDistinct | src/sections/Categories.tsx:100-107 | The six gradients are pairwise different. |
| Categories.TileColorCycle | src/sections/Categories.tsx:108 | Colours repeat with period six. Any six consecutive tiles have six different colours. |
| Categories.Tiles | src/sections/Categories.tsx:98-112 | There is one tile per category, in order. Each is keyed and named by its category and has that category's icon and the colour of its position. |

## Left out

- The catalog data module (`src/data/games`) is not part of this model. Every view takes the catalog and the category list as parameters.
- GSAP, ScrollTrigger and `ctx.revert()` calls in every section are external library calls driven by timing. They are not modelled.
- `IntersectionObserver`, `requestAnimationFrame` and `Date.now()` are browser APIs.
  - The observer's callbacks are modelled as calls to `OnEntries`.
  - Frames are calls to `Animate` and `RunFrames`.
  - Clock readings are parameters. The first frame reads the same instant as the start time.
- `window.scrollTo` in `handlePageChange` is a DOM side effect and is not modelled.
- The static sections (Hero, Features, About, Platforms, Community, Reviews, CTA, Footer, Header, Login form, Newsletter and App timers) hold no query logic.
- Markup, CSS classes (other than the gradient names chosen by index), images and descriptions are not modelled.
- Text.Lower: lower-cases ASCII letters only. `toLowerCase` also maps non-ASCII letters; that mapping has no model.
- Floating point:
  - Ratings are whole tenths, so the 4.8 threshold and the sort comparator are exact.
  - Prices are whole cents and are only displayed.
  - Stats.FormatNumberSpec: exact integer arithmetic is used in place of the double quotient `n / d` (d is 1000 or 10^6). For a whole n the exact quotient is either a half-integer, which a double holds exactly, or at least 1/(2d) away from every half-integer. The double division is off by at most (n/d)·2^-53, which is below 1/(2d) while n < 2^52. So both round to the same whole number for every whole n below 2^52. The section's counters are at most 10^7. Larger inputs and `toFixed`'s exponential notation above 10^21 are not modelled.
- DiscountGames.DiscountBadge: discounts are whole percentages; a fractional discount's badge text (such as `-12.5%`) and a discount below 1% are not modelled.
- Stats.Progress: requires a positive duration. The section only uses its default of 2 seconds.
- Stats.AnimatedCounter.Unmount: a pending animation frame is not cancelled by the cleanup. The model keeps `frameRequested` as it is but does not model frames running after unmount.
- The `value`/`duration` dependencies of the counter's effect are constants of each counter, so re-running the effect is not modelled.
- A JavaScript object lookup `categoryIcons[category]` also finds inherited properties such as `toString`. Categories.CategoryIcon treats only the table's own eighteen names as present.
- Duplicate category names would give duplicate React keys. The model states the keys but does not require them to be distinct.
