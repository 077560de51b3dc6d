/**
 * POST of app/api/shop/buy/route.ts: an authenticated user buys one item of
 * the catalogue; the price is debited and the (user, item type) quantity is
 * incremented, or created at 1, in one transaction.
 */
module ShopBuyRoute {
  import opened Options
  import opened Database
  import opened Items

  /** The inventory after one more item `t` for user `u`: the upsert. */
  function AddOne(inventory: map<(nat, ItemType), nat>, u: nat, t: ItemType): (r: map<(nat, ItemType), nat>)
    ensures r.Keys == inventory.Keys + {(u, t)}
    ensures r[(u, t)] == if (u, t) in inventory then inventory[(u, t)] + 1 else 1
    ensures forall k :: k in inventory && k != (u, t) ==> r[k] == inventory[k]
  {
    inventory[(u, t) := if (u, t) in inventory then inventory[(u, t)] + 1 else 1]
  }

  /**
   * `sessionEmail` is the session's user email (None without a session);
   * `itemKey` is the request's itemType; `commitFails` stands for the store
   * aborting the transaction.
   */
  method Post(db: Store, sessionEmail: Option<string>, itemKey: string, commitFails: bool)
    returns (r: Result<(), ApiError>)
    requires db.Valid()
    modifies db
    ensures db.Valid()
    ensures sessionEmail.None? || sessionEmail.value == "" ==> r == Err(NotAuthorized)
    ensures sessionEmail.Some? && sessionEmail.value != "" && Lookup(itemKey).None? ==> r == Err(UnknownItem)
    ensures sessionEmail.Some? && sessionEmail.value != "" && Lookup(itemKey).Some? ==>
      var found := FindByEmail(old(db.users), sessionEmail.value);
      && (found.None? ==> r == Err(InsufficientFunds))
      && (found.Some? && old(db.users)[found.value].balance < Price(Lookup(itemKey).value) ==>
            r == Err(InsufficientFunds))
      && (commitFails ==> r.Err?)
      && (found.Some? && Price(Lookup(itemKey).value) <= old(db.users)[found.value].balance && commitFails ==>
            r == Err(ServerError))
      && (found.Some? && Price(Lookup(itemKey).value) <= old(db.users)[found.value].balance && !commitFails ==>
            r == Ok(()))
    ensures r.Err? ==> unchanged(db)
    ensures r.Ok? ==>
      && sessionEmail.Some? && Lookup(itemKey).Some?
      && var t, found := Lookup(itemKey).value, FindByEmail(old(db.users), sessionEmail.value);
      && found.Some?
      && var u := found.value;
      && Price(t) <= old(db.users)[u].balance
      && db.users == old(db.users)[u := old(db.users)[u].(balance := old(db.users)[u].balance - Price(t))]
      && db.inventory == AddOne(old(db.inventory), u, t)
      && db.courses == old(db.courses) && db.bets == old(db.bets) && db.badges == old(db.badges)
  {
    if sessionEmail.None? || sessionEmail.value == "" {
      return Err(NotAuthorized);
    }
    var item := Lookup(itemKey);
    if item.None? {
      return Err(UnknownItem);
    }
    var t := item.value;
    var found := FindByEmail(db.users, sessionEmail.value);
    if found.None? || db.users[found.value].balance < Price(t) {
      return Err(InsufficientFunds);
    }
    if commitFails {
      return Err(ServerError);
    }
    var u := found.value;
    db.users := db.users[u := db.users[u].(balance := db.users[u].balance - Price(t))];
    db.inventory := AddOne(db.inventory, u, t);
    r := Ok(());
  }
}
