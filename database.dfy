/**
 * `database.py`: the store behind the bot, one connection-free object whose
 * two fields are the `wallets` and `users` tables. Each coroutine of the
 * module becomes a method (statements) or a function reading the object
 * (queries).
 */
module Database {
  import opened Wrappers
  import opened Tables

  class Store {
    /** `wallets`, in rowid order. */
    var wallets: seq<WalletRow>
    /** `users`, in rowid (= `user_id`) order. */
    var users: seq<UserRow>
    /** The AUTOINCREMENT counter of `wallets` (`sqlite_sequence` plus one). */
    var nextId: nat

    /** The constraints the schema enforces. */
    ghost predicate Valid()
      reads this
    {
      WellFormed(wallets, nextId) && nextId >= 1 && SortedIds(users)
    }

    /** A freshly created database: both tables empty. */
    constructor ()
      ensures Valid()
      ensures wallets == [] && users == [] && nextId == 1
    {
      wallets := [];
      users := [];
      nextId := 1;
    }

    /**
     * `add_wallet`: the INSERT fails on the UNIQUE address (whoever owns it),
     * leaving the table as it was; otherwise one row is appended with the
     * next id and `last_balance` 0.
     */
    method AddWallet(userId: int, name: string, address: string) returns (added: bool)
      requires Valid()
      modifies this
      ensures Valid()
      ensures added <==> !HasAddress(old(wallets), address)
      ensures added ==> wallets == Inserted(old(wallets), old(nextId), userId, name, address) && nextId == old(nextId) + 1
      ensures !added ==> wallets == old(wallets) && nextId == old(nextId)
      ensures users == old(users)
    {
      if HasAddress(wallets, address) {
        added := false;
      } else {
        InsertedWellFormed(wallets, nextId, userId, name, address);
        wallets := Inserted(wallets, nextId, userId, name, address);
        nextId := nextId + 1;
        added := true;
      }
    }

    /** `get_user_wallets`: the `(name, address, last_balance)` of the user's rows, in scan order. */
    function GetUserWallets(userId: int): (vs: seq<WalletView>)
      reads this
      ensures forall i :: 0 <= i < |wallets| && wallets[i].userId == userId ==> View(wallets[i]) in vs
      ensures forall v :: v in vs ==> exists w :: w in wallets && w.userId == userId && View(w) == v
      ensures |vs| == |OwnedRows(wallets, userId)|
      ensures forall k :: 0 <= k < |vs| ==> vs[k] == View(wallets[OwnedRows(wallets, userId)[k]])
    {
      OwnedByRows(wallets, userId);
      OwnedBy(wallets, userId)
    }

    /** `get_all_wallets`: the same triple for every row, in scan order. */
    function GetAllWallets(): (vs: seq<WalletView>)
      reads this
      ensures |vs| == |wallets|
      ensures forall i :: 0 <= i < |wallets| ==>
        vs[i].name == wallets[i].name && vs[i].address == wallets[i].address
        && vs[i].lastBalance == wallets[i].lastBalance
    {
      Views(wallets)
    }

    /** `update_balance`: `last_balance` of the rows with that address; nothing if there is none. */
    method UpdateBalance(address: string, newBalance: real)
      requires Valid()
      modifies this
      ensures Valid()
      ensures wallets == WithBalance(old(wallets), address, newBalance)
      ensures users == old(users) && nextId == old(nextId)
    {
      WithBalanceWellFormed(wallets, nextId, address, newBalance);
      wallets := WithBalance(wallets, address, newBalance);
    }

    /** `delete_wallet`: every row of that user with that name goes; true iff there was one. */
    method DeleteWallet(userId: int, name: string) returns (deleted: bool)
      requires Valid()
      modifies this
      ensures Valid()
      ensures wallets == Without(old(wallets), userId, NameIs(name))
      ensures deleted <==> HasWallet(old(wallets), userId, NameIs(name))
      ensures users == old(users) && nextId == old(nextId)
    {
      deleted := Delete(userId, NameIs(name));
    }

    /**
     * The statement the wallet list's delete button needs
     * (`DELETE FROM wallets WHERE user_id = ? AND address = ?`); database.py
     * has no such function.
     */
    method DeleteWalletAt(userId: int, address: string) returns (deleted: bool)
      requires Valid()
      modifies this
      ensures Valid()
      ensures wallets == Without(old(wallets), userId, AddressIs(address))
      ensures deleted <==> HasWallet(old(wallets), userId, AddressIs(address))
      ensures users == old(users) && nextId == old(nextId)
    {
      deleted := Delete(userId, AddressIs(address));
    }

    /** A DELETE and its `rowcount > 0`. */
    method Delete(userId: int, key: Selector) returns (deleted: bool)
      requires Valid()
      modifies this
      ensures Valid()
      ensures wallets == Without(old(wallets), userId, key)
      ensures deleted <==> HasWallet(old(wallets), userId, key)
      ensures users == old(users) && nextId == old(nextId)
    {
      WithoutWellFormed(wallets, nextId, userId, key);
      var remaining := Without(wallets, userId, key);
      deleted := |remaining| < |wallets|;
      wallets := remaining;
    }

    /** `is_admin`: false for a user without a row. */
    function IsAdmin(userId: int): (admin: bool)
      reads this
      ensures (forall i :: 0 <= i < |users| ==> users[i].userId != userId) ==> !admin
      ensures SortedIds(users) ==>
        (admin <==> exists i :: 0 <= i < |users| && users[i].userId == userId && users[i].isAdmin)
    {
      if SortedIds(users) then
        IsAdminInRows(users, userId);
        IsAdminIn(users, userId)
      else IsAdminIn(users, userId)
    }

    /** `add_admin` (INSERT OR REPLACE). */
    method AddAdmin(userId: int)
      requires Valid()
      modifies this
      ensures Valid()
      ensures users == Promoted(old(users), userId)
      ensures wallets == old(wallets) && nextId == old(nextId)
    {
      PromotedEffect(users, userId);
      users := Promoted(users, userId);
    }

    /** `add_user` (INSERT OR IGNORE). */
    method AddUser(userId: int)
      requires Valid()
      modifies this
      ensures Valid()
      ensures users == Registered(old(users), userId)
      ensures wallets == old(wallets) && nextId == old(nextId)
    {
      RegisteredEffect(users, userId);
      if Lookup(users, userId).None? {
        users := Upsert(users, NewUser(userId));
      }
    }

    /** `add_subscriber`: an UPDATE, so a user without a row stays without one. */
    method AddSubscriber(userId: int)
      requires Valid()
      modifies this
      ensures Valid()
      ensures users == WithSubscription(old(users), userId)
      ensures wallets == old(wallets) && nextId == old(nextId)
    {
      WithSubscriptionEffect(users, userId);
      users := WithSubscription(users, userId);
    }

    /** `get_subscribers` (the later definition): the subscribed ids, smallest first. */
    function GetSubscribers(): (ids: seq<int>)
      reads this
      requires SortedIds(users)
      ensures forall v :: v in ids <==> IsSubscribedIn(users, v)
      ensures StrictlyAscending(ids)
    {
      SubscribersExact(users);
      Subscribers(users)
    }
  }
}
