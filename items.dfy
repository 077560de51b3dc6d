/** The shop catalogue of lib/items.ts: `SHOP_ITEMS` and `ItemType`. */
module Items {
  import opened Options

  /** `keyof typeof SHOP_ITEMS`. */
  datatype ItemType = Vest | Magnifier | Warrant

  /** One catalogue entry (icon, description and colour are display-only). */
  datatype ShopItem = ShopItem(id: string, name: string, price: nat)

  /** The key of an item type in `SHOP_ITEMS`. */
  function Key(t: ItemType): string {
    match t
    case Vest => "VEST"
    case Magnifier => "MAGNIFIER"
    case Warrant => "WARRANT"
  }

  /** `SHOP_ITEMS[t]`. */
  function Catalogue(t: ItemType): (item: ShopItem)
    ensures item.id == Key(t)
    ensures item.price > 0
  {
    match t
    case Vest => ShopItem("VEST", "Bouclier de CRS", 500)
    case Magnifier => ShopItem("MAGNIFIER", "Radar de Chantier", 300)
    case Warrant => ShopItem("WARRANT", "Abus de Pouvoir", 1000)
  }

  function Price(t: ItemType): (p: nat)
    ensures p > 0
  {
    Catalogue(t).price
  }

  /** `SHOP_ITEMS[key]` for a request's item key: the entry, or nothing. */
  function Lookup(key: string): (r: Option<ItemType>)
    ensures r.Some? ==> Key(r.value) == key
    ensures r.None? ==> forall t: ItemType :: Key(t) != key
  {
    if key == "VEST" then Some(Vest)
    else if key == "MAGNIFIER" then Some(Magnifier)
    else if key == "WARRANT" then Some(Warrant)
    else None
  }

  /** Every item type is found under its own key. */
  lemma LookupOfKey(t: ItemType)
    ensures Lookup(Key(t)) == Some(t)
  {
  }

  /** The catalogue has exactly the three keys VEST, MAGNIFIER and WARRANT. */
  lemma ExactlyThreeItems(key: string)
    ensures Lookup(key).Some? <==> key in {"VEST", "MAGNIFIER", "WARRANT"}
  {
  }

  lemma Prices()
    ensures Price(Vest) == 500 && Price(Magnifier) == 300 && Price(Warrant) == 1000
  {
  }
}
