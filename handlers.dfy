/**
 * The decisions the bot's message and callback handlers take before they
 * answer (bot.py): which keyboard a user gets, whether a user may go on,
 * which wallets a report lists, and what the subscribe, add-wallet and
 * delete-wallet commands do to the store. Whether a user is approved or
 * subscribed comes from functions database.py does not define, so it is a
 * parameter here.
 */
module Handlers {
  import opened Wrappers
  import opened Text
  import opened Tables
  import opened Database
  import opened Commands

  // ---------------------------------------------------------------------
  // get_main_menu

  datatype Button =
    | MyWallets | Balance | AddWallet | TotalBalance | SetAdmin
    | ApproveUsers | UpdateDb | Unsubscribe | Subscribe

  /** The toggle's label follows the subscription: "unsubscribe" for a subscriber. */
  function SubscriptionButton(isSubscribed: bool): Button {
    if isSubscribed then Unsubscribe else Subscribe
  }

  /** The four rows only an admin's keyboard has. */
  const AdminRows: seq<seq<Button>> :=
    [[MyWallets, Balance], [AddWallet], [TotalBalance, SetAdmin], [ApproveUsers, UpdateDb]]

  /** The keyboard rows `get_main_menu` builds. */
  function MainMenu(isAdmin: bool, isSubscribed: bool): (rows: seq<seq<Button>>)
    ensures rows != [] && rows[|rows| - 1] == [SubscriptionButton(isSubscribed)]
    ensures |rows| == if isAdmin then 5 else 1
  {
    if isAdmin then AdminRows + [[SubscriptionButton(isSubscribed)]]
    else [[SubscriptionButton(isSubscribed)]]
  }

  /** The buttons of a keyboard, row after row. */
  function Flatten(rows: seq<seq<Button>>): seq<Button> {
    if rows == [] then [] else Flatten(rows[..|rows| - 1]) + rows[|rows| - 1]
  }

  predicate IsToggle(b: Button) {
    b == Subscribe || b == Unsubscribe
  }

  /**
   * A non-admin sees only the toggle; an admin sees every button, and one
   * toggle; the toggle offers to unsubscribe exactly when the user is
   * subscribed.
   */
  lemma MenuButtons(isAdmin: bool, isSubscribed: bool)
    ensures forall b :: b in Flatten(MainMenu(isAdmin, isSubscribed)) <==>
      b == SubscriptionButton(isSubscribed) || (isAdmin && !IsToggle(b))
    ensures Unsubscribe in Flatten(MainMenu(isAdmin, isSubscribed)) <==> isSubscribed
    ensures Subscribe in Flatten(MainMenu(isAdmin, isSubscribed)) <==> !isSubscribed
    ensures !isAdmin ==> Flatten(MainMenu(isAdmin, isSubscribed)) == [SubscriptionButton(isSubscribed)]
  {
    var toggle := SubscriptionButton(isSubscribed);
    var rows := MainMenu(isAdmin, isSubscribed);
    var one := [[toggle]];
    assert one[..0] == [];
    assert Flatten(one) == [toggle];
    if isAdmin {
      var r := AdminRows + [[toggle]];
      assert r[..4] == AdminRows;
      assert AdminRows[..3] == [[MyWallets, Balance], [AddWallet], [TotalBalance, SetAdmin]];
      assert AdminRows[..3][..2] == [[MyWallets, Balance], [AddWallet]];
      assert AdminRows[..3][..2][..1] == [[MyWallets, Balance]];
      assert AdminRows[..3][..2][..1][..0] == [];
      assert Flatten(AdminRows[..3][..2][..1]) == [MyWallets, Balance];
      assert Flatten(AdminRows[..3][..2]) == [MyWallets, Balance, AddWallet];
      assert Flatten(AdminRows[..3]) == [MyWallets, Balance, AddWallet, TotalBalance, SetAdmin];
      assert Flatten(AdminRows) == [MyWallets, Balance, AddWallet, TotalBalance, SetAdmin, ApproveUsers, UpdateDb];
      assert Flatten(r) == [MyWallets, Balance, AddWallet, TotalBalance, SetAdmin, ApproveUsers, UpdateDb, toggle];
    }
  }

  // ---------------------------------------------------------------------
  // check_access and the wallet reports

  /** What `balance_handler` goes on to do. */
  datatype Listing =
    | NoAccess                                  // check_access answered and stopped
    | NoWallets                                 // "no saved wallets"
    | Listed(everyone: bool, wallets: seq<WalletView>)

  /**
   * `balance_handler` up to the report: an unapproved user is stopped by
   * `check_access`; an admin is shown every wallet, anyone else their own.
   */
  function BalanceListing(store: Store, userId: int, approved: bool): (r: Listing)
    reads store
    ensures r == NoAccess <==> !approved
    ensures r.Listed? ==> r.wallets != [] && r.everyone == IsAdminIn(store.users, userId)
    ensures r.Listed? && r.everyone ==> r.wallets == Views(store.wallets)
    ensures r.Listed? && !r.everyone ==> r.wallets == OwnedBy(store.wallets, userId)
    ensures r == NoWallets <==>
      (approved && if IsAdminIn(store.users, userId) then store.wallets == [] else OwnedBy(store.wallets, userId) == [])
  {
    if !approved then NoAccess
    else
      var admin := store.IsAdmin(userId);
      var wallets := if admin then store.GetAllWallets() else store.GetUserWallets(userId);
      if wallets == [] then NoWallets else Listed(admin, wallets)
  }

  /**
   * A user who is not an admin is shown one line per wallet of theirs, in
   * the table's order, and nothing else.
   */
  lemma BalanceListingOwnOnly(store: Store, userId: int)
    requires !IsAdminIn(store.users, userId)
    ensures var r := BalanceListing(store, userId, true);
      var own := OwnedRows(store.wallets, userId);
      r.Listed? ==>
        && |r.wallets| == |own|
        && (forall k :: 0 <= k < |own| ==> r.wallets[k] == View(store.wallets[own[k]]))
  {
    OwnedByRows(store.wallets, userId);
  }

  /** What `total_balance_handler` goes on to do. */
  datatype TotalListing =
    | TotalNoAccess                             // check_access answered and stopped
    | NotAdmin                                  // "no rights for this command"
    | Totals(wallets: seq<WalletView>)

  /**
   * `total_balance_handler`: approved admins only; every wallet is listed,
   * and an empty table still gets the header and the total line.
   */
  function TotalBalanceListing(store: Store, userId: int, approved: bool): (r: TotalListing)
    reads store
    ensures r == TotalNoAccess <==> !approved
    ensures r == NotAdmin <==> approved && !IsAdminIn(store.users, userId)
    ensures r.Totals? ==> r.wallets == Views(store.wallets)
  {
    if !approved then TotalNoAccess
    else if !store.IsAdmin(userId) then NotAdmin
    else Totals(store.GetAllWallets())
  }

  // ---------------------------------------------------------------------
  // Commands that change the store

  datatype SubscribeReply = SubscribeDenied | SubscribedNotice

  /**
   * The module-level `subscribe_handler`: past `check_access` it always
   * confirms, although `add_subscriber` leaves a user without a row
   * unsubscribed.
   */
  method SubscribeHandler(store: Store, userId: int, approved: bool) returns (reply: SubscribeReply)
    requires store.Valid()
    modifies store
    ensures store.Valid()
    ensures reply == SubscribeDenied <==> !approved
    ensures !approved ==> store.users == old(store.users)
    ensures approved ==> store.users == WithSubscription(old(store.users), userId)
    ensures store.wallets == old(store.wallets) && store.nextId == old(store.nextId)
  {
    if !approved {
      reply := SubscribeDenied;
    } else {
      store.AddSubscriber(userId);
      reply := SubscribedNotice;
    }
  }

  datatype AddWalletReply = AddForbidden | AddUsage | AddDuplicate | AddDone(name: string, address: string)

  /**
   * `add_wallet_handler`: an admin's well-formed command inserts a row owned
   * by the admin; a taken address is reported and changes nothing.
   */
  method AddWalletHandler(store: Store, userId: int, text: string) returns (reply: AddWalletReply)
    requires store.Valid()
    modifies store
    ensures store.Valid()
    ensures reply == AddForbidden <==> !IsAdminIn(old(store.users), userId)
    ensures reply == AddUsage <==> IsAdminIn(old(store.users), userId) && |Split(text)| < 3
    ensures reply.AddDone? ==>
      && ParseAddWallet(true, text) == Add(reply.name, reply.address)
      && reply.name == Split(text)[1]
      && Split(reply.address) == Split(text)[2..]
      && !HasAddress(old(store.wallets), reply.address)
      && store.wallets == Inserted(old(store.wallets), old(store.nextId), userId, reply.name, reply.address)
    ensures reply == AddDuplicate <==>
      && IsAdminIn(old(store.users), userId) && |Split(text)| >= 3
      && HasAddress(old(store.wallets), ParseAddWallet(true, text).address)
    ensures !reply.AddDone? ==> store.wallets == old(store.wallets)
    ensures store.nextId == if reply.AddDone? then old(store.nextId) + 1 else old(store.nextId)
    ensures store.users == old(store.users)
  {
    var command := ParseAddWallet(store.IsAdmin(userId), text);
    match command {
      case NotAllowed =>
        reply := AddForbidden;
      case Usage =>
        reply := AddUsage;
      case Add(name, address) =>
        var added := store.AddWallet(userId, name, address);
        reply := if added then AddDone(name, address) else AddDuplicate;
    }
  }

  datatype DeleteReply = DeleteDone(address: string) | DeleteFailed

  /** The payload of a wallet's delete button. */
  function DeleteButtonData(address: string): string {
    "delete_wallet:" + address
  }

  lemma DeleteButtonArgument(address: string)
    requires ':' !in address
    ensures CallbackArgument(DeleteButtonData(address)) == Some(address)
  {
    CallbackArgumentRoundTrip("delete_wallet", address, []);
    assert "delete_wallet" + ":" + address + [] == DeleteButtonData(address);
  }

  /**
   * `delete_wallet_callback` as written: the address taken from the payload
   * is handed to `delete_wallet`, which matches it against the wallet NAME.
   */
  method DeleteCallback(store: Store, userId: int, data: string) returns (reply: DeleteReply)
    requires store.Valid()
    requires "delete_wallet:" <= data
    modifies store
    ensures store.Valid()
    ensures CallbackArgument(data).Some?
    ensures store.wallets == Without(old(store.wallets), userId, NameIs(CallbackArgument(data).value))
    ensures reply.DeleteDone? <==> HasWallet(old(store.wallets), userId, NameIs(CallbackArgument(data).value))
    ensures store.users == old(store.users) && store.nextId == old(store.nextId)
  {
    assert data[|"delete_wallet"|] == ':';
    var address := CallbackArgument(data).value;
    var deleted := store.DeleteWallet(userId, address);
    reply := if deleted then DeleteDone(address) else DeleteFailed;
  }

  /**
   * As written, pressing the delete button of a wallet whose name differs
   * from its address deletes nothing and reports a failure.
   */
  lemma DeleteButtonMissesWallet()
    ensures var ws := [WalletRow(1, 7, "main", "TAddr1", 0.0)];
      var arg := CallbackArgument(DeleteButtonData("TAddr1"));
      && arg == Some("TAddr1")
      && Without(ws, 7, NameIs(arg.value)) == ws
      && !HasWallet(ws, 7, NameIs(arg.value))
  {
    DeleteButtonArgument("TAddr1");
    var ws := [WalletRow(1, 7, "main", "TAddr1", 0.0)];
    assert ws[..0] == [];
    assert !Matches(ws[0], 7, NameIs("TAddr1"));
  }

  /** The callback with the lookup it evidently means: the pressed wallet, by its address. */
  method DeleteCallbackByAddress(store: Store, userId: int, data: string) returns (reply: DeleteReply)
    requires store.Valid()
    requires "delete_wallet:" <= data
    modifies store
    ensures store.Valid()
    ensures CallbackArgument(data).Some?
    ensures store.wallets == Without(old(store.wallets), userId, AddressIs(CallbackArgument(data).value))
    ensures reply.DeleteDone? <==> HasWallet(old(store.wallets), userId, AddressIs(CallbackArgument(data).value))
    ensures store.users == old(store.users) && store.nextId == old(store.nextId)
  {
    assert data[|"delete_wallet"|] == ':';
    var address := CallbackArgument(data).value;
    var deleted := store.DeleteWalletAt(userId, address);
    reply := if deleted then DeleteDone(address) else DeleteFailed;
  }

  /**
   * Corrected, the button of one of the user's wallets removes that wallet
   * and keeps every other one.
   */
  lemma DeleteButtonRemovesWallet(ws: seq<WalletRow>, userId: int, k: nat)
    requires UniqueAddresses(ws)
    requires k < |ws| && ws[k].userId == userId && ':' !in ws[k].address
    ensures var arg := CallbackArgument(DeleteButtonData(ws[k].address));
      && arg == Some(ws[k].address)
      && HasWallet(ws, userId, AddressIs(arg.value))
      && ws[k] !in Without(ws, userId, AddressIs(arg.value))
      && forall j :: 0 <= j < |ws| && j != k ==> ws[j] in Without(ws, userId, AddressIs(arg.value))
  {
    DeleteButtonArgument(ws[k].address);
    assert Matches(ws[k], userId, AddressIs(ws[k].address));
    forall j | 0 <= j < |ws| && j != k
      ensures !Matches(ws[j], userId, AddressIs(ws[k].address))
    {
      if j < k {
        assert ws[j].address != ws[k].address;
      } else {
        assert ws[k].address != ws[j].address;
      }
    }
  }
}
