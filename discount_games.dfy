/** "Hot Deals": the first six discounted games, each with its discount
    badge and, when there is one, the struck-through original price. */
module DiscountGames {
  import opened Sequences
  import opened Text
  import opened Catalog

  /** `game.discount && game.discount > 0`: a missing or zero discount is falsy. */
  predicate HasDiscount(g: Game) {
    g.discount.Some? && g.discount.value > 0
  }

  /** `discountGames`: filter, then `slice(0, 6)`. */
  function Discounted(catalog: seq<Game>): (deals: seq<Game>)
    ensures |deals| <= 6 && IsSubsequence(deals, catalog)
    ensures forall i :: 0 <= i < |deals| ==> HasDiscount(deals[i])
  {
    FirstPassingSpec(catalog, HasDiscount, 6);
    Take(Select(catalog, HasDiscount), 6)
  }

  /** At most six games, each with a present discount above 0, in catalog
      order; they are the whole set of discounted games of some catalog
      prefix, and that prefix ends early only once six were found. */
  lemma DiscountedSpec(catalog: seq<Game>) returns (j: nat)
    ensures |Discounted(catalog)| == Min(6, |Select(catalog, HasDiscount)|)
    ensures forall i :: 0 <= i < |Discounted(catalog)| ==>
              Discounted(catalog)[i].discount.Some? && Discounted(catalog)[i].discount.value > 0
    ensures IsSubsequence(Discounted(catalog), catalog)
    ensures j <= |catalog| && Discounted(catalog) == Select(catalog[..j], HasDiscount)
    ensures j == |catalog| || |Discounted(catalog)| == 6
  {
    FirstPassingSpec(catalog, HasDiscount, 6);
    j := FirstPassing(catalog, HasDiscount, 6);
  }

  /** The badge `-{game.discount}%` shown on every listed card. */
  function DiscountBadge(g: Game): (badge: string)
    requires HasDiscount(g)
    ensures |badge| >= 3 && badge[0] == '-' && badge[|badge| - 1] == '%'
    ensures IsNumeral(badge[1..|badge| - 1]) && ParseDecimal(badge[1..|badge| - 1]) == g.discount.value
  {
    var digits := NatToString(g.discount.value);
    NatToStringNumeral(g.discount.value);
    assert ("-" + digits + "%")[1..|digits| + 1] == digits;
    "-" + digits + "%"
  }

  /** Every card of the list can show its badge, and different discounts give
      different badges. */
  lemma BadgesForListed(catalog: seq<Game>, i: nat, k: nat)
    requires i < |Discounted(catalog)| && k < |Discounted(catalog)|
    ensures HasDiscount(Discounted(catalog)[i])
    ensures DiscountBadge(Discounted(catalog)[i]) == DiscountBadge(Discounted(catalog)[k]) <==>
            Discounted(catalog)[i].discount == Discounted(catalog)[k].discount
  {
    var d := Discounted(catalog);
    var _ := DiscountedSpec(catalog);
    var bi, bk := DiscountBadge(d[i]), DiscountBadge(d[k]);
    if bi == bk {
      assert bi[1..|bi| - 1] == bk[1..|bk| - 1];
    }
  }

  /** `{game.originalPrice && ...}`: the struck-through price is rendered when
      the original price is present and not 0 (0 is falsy). */
  predicate ShowsOriginalPrice(g: Game): (shown: bool)
    ensures shown ==> g.originalPrice.Some?
    ensures g.originalPrice.Some? && g.originalPrice.value > 0 ==> shown
  {
    g.originalPrice.Some? && g.originalPrice.value != 0
  }

  /** The struck-through price only appears when there is an original price;
      for catalog entries whose original price exceeds a non-negative price
      it appears exactly when the original price is present. */
  lemma OriginalPriceShownIff(g: Game)
    ensures ShowsOriginalPrice(g) ==> g.originalPrice.Some?
    ensures g.price >= 0 && (g.originalPrice.Some? ==> g.originalPrice.value > g.price) ==>
            (ShowsOriginalPrice(g) <==> g.originalPrice.Some?)
  {
  }
}
