/** The category tiles: one tile per category with an icon from a fixed
    table and a gradient that cycles through six colours. */
module Categories {
  import opened Catalog

  /** `categoryIcons`. */
  const CategoryIcons: map<string, Icon> := map[
    "Action" := Swords,
    "Adventure" := Rocket,
    "RPG" := Crown,
    "Shooter" := Target,
    "Strategy" := Gamepad2,
    "Racing" := Car,
    "Sports" := Users,
    "Horror" := Ghost,
    "Puzzle" := Puzzle,
    "Simulation" := CreditCard,
    "Fighting" := Sword,
    "Stealth" := Ghost,
    "Card Game" := CreditCard,
    "Music" := Music,
    "Battle Royale" := Crown,
    "Survival" := Ghost,
    "Mystery" := Puzzle,
    "All" := Gamepad2
  ]

  /** `categoryIcons[category] || Gamepad2`. */
  function CategoryIcon(category: string): (icon: Icon)
    ensures category in CategoryIcons ==> icon == CategoryIcons[category]
    ensures category !in CategoryIcons ==> icon == Gamepad2
  {
    if category in CategoryIcons then CategoryIcons[category] else Gamepad2
  }

  /** The icons the section can draw: exactly the twelve it imports. */
  predicate IsImportedIcon(icon: Icon) {
    icon in {Swords, Rocket, Puzzle, Car, Users, Gamepad2, Target, Ghost, Music, CreditCard, Crown, Sword}
  }

  /** Every category gets one of the imported icons; the game-pad is drawn
      exactly for "All", "Strategy" and names missing from the table. */
  lemma CategoryIconSpec(category: string)
    ensures IsImportedIcon(CategoryIcon(category))
    ensures CategoryIcon(category) == Gamepad2 <==>
      category == "All" || category == "Strategy" || category !in CategoryIcons
    ensures CategoryIcon("All") == Gamepad2
  {
  }

  /** `colors`, the six tile gradients. */
  const Colors: seq<string> := [
    "from-red-500 to-red-600",
    "from-blue-500 to-blue-600",
    "from-green-500 to-green-600",
    "from-yellow-500 to-yellow-600",
    "from-purple-500 to-purple-600",
    "from-pink-500 to-pink-600"
  ]

  /** `colors[index % colors.length]`. */
  function TileColor(index: nat): (color: string)
    ensures color in Colors
  {
    Colors[index % |Colors|]
  }

  /** The six gradients are different from each other. */
  lemma ColorsDistinct()
    ensures forall i, j :: 0 <= i < j < |Colors| ==> Colors[i] != Colors[j]
  {
    assert Colors[0][5] == 'r' && Colors[1][5] == 'b' && Colors[2][5] == 'g';
    assert Colors[3][5] == 'y' && Colors[4][5] == 'p' && Colors[5][5] == 'p';
    assert Colors[4][6] == 'u' && Colors[5][6] == 'i';
  }

  /** Six consecutive indices leave six different remainders. */
  lemma RemaindersDiffer(i: nat, j: nat)
    requires i < j < i + 6
    ensures i % 6 != j % 6
  {
    var d := j - i;
    assert j % 6 == (i % 6 + d) % 6;
  }

  /** Colours repeat with period six, and any six consecutive tiles show six
      different colours. */
  lemma TileColorCycle(i: nat, j: nat)
    ensures TileColor(i + 6) == TileColor(i)
    ensures i < j < i + 6 ==> TileColor(i) != TileColor(j)
  {
    assert (i + 6) % 6 == i % 6;
    if i < j < i + 6 {
      RemaindersDiffer(i, j);
      ColorsDistinct();
    }
  }

  /** One rendered tile. */
  datatype Tile = Tile(key: string, name: string, icon: Icon, color: string)

  /** `categories.map((category, index) => ...)`. */
  function Tiles(categories: seq<string>): (tiles: seq<Tile>)
    ensures |tiles| == |categories|
    ensures forall i :: 0 <= i < |tiles| ==>
      tiles[i].key == tiles[i].name == categories[i] &&
      tiles[i].icon == CategoryIcon(categories[i]) && tiles[i].color == TileColor(i)
  {
    seq(|categories|, i requires 0 <= i < |categories| => Tile(categories[i], categories[i], CategoryIcon(categories[i]), TileColor(i)))
  }
}
