/**
 * One pass of `check_wallets` (bot.py): every wallet of a snapshot of the
 * table is re-read from the explorer; a wallet whose balance changed is
 * announced to the subscribers (deposits to all of them, withdrawals to the
 * admins among them) and then written back.
 *
 * The explorer is a function from address to response; a message send is
 * the `Deliver` oracle, which may fail on any call. A pass is specified by
 * its log: the `send_message` attempts and the `update_balance` calls, in
 * the order they happen.
 */
module Reconcile {
  import opened Tables
  import opened Explorer
  import opened Database

  datatype Kind = Deposit | Withdrawal

  /** The facts one notification reports (its text is built from these). */
  datatype Notice = Notice(kind: Kind, name: string, address: string, diff: real, balance: real)

  datatype Action =
    | Send(recipient: int, notice: Notice)    // one `bot.send_message` attempt
    | Write(address: string, balance: real)   // one `update_balance` call

  /** A positive difference is a deposit; anything else that reaches here is a withdrawal. */
  function KindOf(diff: real): (kind: Kind)
    ensures kind == Deposit <==> diff > 0.0
  {
    if diff > 0.0 then Deposit else Withdrawal
  }

  function NoticeFor(v: WalletView, newBalance: real): Notice {
    var diff := newBalance - v.lastBalance;
    Notice(KindOf(diff), v.name, v.address, diff, newBalance)
  }

  /** `diff_usdt > 0 or await is_admin(user_id)`. */
  predicate Qualifies(users: seq<UserRow>, notice: Notice, userId: int) {
    notice.diff > 0.0 || IsAdminIn(users, userId)
  }

  /** The attempts of the subscriber loop, in list order. */
  function Fanout(subscribers: seq<int>, notice: Notice, users: seq<UserRow>): (acts: seq<Action>)
    ensures forall a :: a in acts ==>
      a.Send? && a.notice == notice && a.recipient in subscribers && Qualifies(users, notice, a.recipient)
    ensures forall u :: u in subscribers && Qualifies(users, notice, u) ==> Send(u, notice) in acts
  {
    if subscribers == [] then []
    else
      var init := subscribers[..|subscribers| - 1];
      var u := subscribers[|subscribers| - 1];
      assert forall x :: x in subscribers <==> x in init || x == u;
      Fanout(init, notice, users) + (if Qualifies(users, notice, u) then [Send(u, notice)] else [])
  }

  /** What the pass does for one wallet, given the balance just fetched for it. */
  function WalletActions(v: WalletView, newBalance: real, users: seq<UserRow>): seq<Action> {
    if newBalance == v.lastBalance then []
    else Fanout(Subscribers(users), NoticeFor(v, newBalance), users) + [Write(v.address, newBalance)]
  }

  /** The log of a whole pass over a snapshot, the users table being left alone by the pass. */
  function PassActions(snapshot: seq<WalletView>, fetch: string -> FetchOutcome, users: seq<UserRow>): seq<Action> {
    if snapshot == [] then []
    else
      var v := snapshot[|snapshot| - 1];
      PassActions(snapshot[..|snapshot| - 1], fetch, users) + WalletActions(v, UsdtBalance(fetch(v.address)), users)
  }

  /** A row after the pass: `last_balance` is what the explorer reported. */
  function Refresh(w: WalletRow, fetch: string -> FetchOutcome): WalletRow {
    w.(lastBalance := UsdtBalance(fetch(w.address)))
  }

  function Refreshed(ws: seq<WalletRow>, fetch: string -> FetchOutcome): seq<WalletRow> {
    seq(|ws|, i requires 0 <= i < |ws| => Refresh(ws[i], fetch))
  }

  /** The recipients of the attempts of a log, in order. */
  function Recipients(log: seq<Action>): seq<int> {
    if log == [] then []
    else
      var a := log[|log| - 1];
      Recipients(log[..|log| - 1]) + (if a.Send? then [a.recipient] else [])
  }

  /** `bot.send_message`: whether it raised is up to the transport. */
  method Deliver(recipient: int, notice: Notice) returns (delivered: bool)
  {
    delivered :| true;
  }

  lemma {:induction false} RecipientsConcat(a: seq<Action>, b: seq<Action>)
    ensures Recipients(a + b) == Recipients(a) + Recipients(b)
  {
    if b == [] {
      assert a + b == a;
    } else {
      var init := b[..|b| - 1];
      assert (a + b)[..|a + b| - 1] == a + init;
      assert (a + b)[|a + b| - 1] == b[|b| - 1];
      RecipientsConcat(a, init);
    }
  }

  /** The subscriber loop, one subscriber further. */
  lemma FanoutSnoc(init: seq<int>, u: int, notice: Notice, users: seq<UserRow>)
    ensures Fanout(init + [u], notice, users) ==
      Fanout(init, notice, users) + (if Qualifies(users, notice, u) then [Send(u, notice)] else [])
  {
    assert (init + [u])[..|init|] == init;
  }

  lemma RecipientsSnoc(log: seq<Action>, a: Action)
    ensures Recipients(log + [a]) == Recipients(log) + (if a.Send? then [a.recipient] else [])
  {
    assert (log + [a])[..|log|] == log;
  }

  /** The loop over `subscribers` (bot.py): one attempt per qualifying subscriber, in list order. */
  method Notify(store: Store, subscribers: seq<int>, notice: Notice) returns (attempts: seq<Action>, outcomes: seq<bool>)
    ensures attempts == Fanout(subscribers, notice, store.users)
    ensures |outcomes| == |Recipients(attempts)|
  {
    attempts := [];
    outcomes := [];
    var j := 0;
    while j < |subscribers|
      invariant 0 <= j <= |subscribers|
      invariant attempts == Fanout(subscribers[..j], notice, store.users)
      invariant |outcomes| == |Recipients(attempts)|
    {
      var userId := subscribers[j];
      assert subscribers[..j + 1] == subscribers[..j] + [userId];
      FanoutSnoc(subscribers[..j], userId, notice, store.users);
      if notice.diff > 0.0 || store.IsAdmin(userId) {
        var ok := Deliver(userId, notice);
        RecipientsSnoc(attempts, Send(userId, notice));
        attempts := attempts + [Send(userId, notice)];
        outcomes := outcomes + [ok];
      }
      j := j + 1;
    }
    assert subscribers[..j] == subscribers;
  }

  /** The first `i` rows of `current` are refreshed, the others as in `rows`. */
  ghost predicate RefreshedUpTo(current: seq<WalletRow>, rows: seq<WalletRow>, i: nat, fetch: string -> FetchOutcome) {
    && |current| == |rows| && i <= |rows|
    && (forall k :: 0 <= k < i ==> current[k] == Refresh(rows[k], fetch))
    && (forall k :: i <= k < |rows| ==> current[k] == rows[k])
  }

  /** Writing the fetched balance of row `i` by its (unique) address refreshes exactly that row. */
  lemma WriteRefreshes(current: seq<WalletRow>, rows: seq<WalletRow>, i: nat, fetch: string -> FetchOutcome)
    requires RefreshedUpTo(current, rows, i, fetch) && i < |rows|
    requires UniqueAddresses(current)
    ensures RefreshedUpTo(WithBalance(current, rows[i].address, UsdtBalance(fetch(rows[i].address))), rows, i + 1, fetch)
  {
    var next := WithBalance(current, rows[i].address, UsdtBalance(fetch(rows[i].address)));
    forall k | 0 <= k < |current| && k != i
      ensures next[k] == current[k]
    {
      assert current[i] == rows[i];
      if k < i {
        assert current[k].address != current[i].address;
      } else {
        assert current[i].address != current[k].address;
      }
    }
  }

  /** A wallet whose balance did not change refreshes to itself. */
  lemma SkipRefreshes(current: seq<WalletRow>, rows: seq<WalletRow>, i: nat, fetch: string -> FetchOutcome)
    requires RefreshedUpTo(current, rows, i, fetch) && i < |rows|
    requires UsdtBalance(fetch(rows[i].address)) == rows[i].lastBalance
    ensures RefreshedUpTo(current, rows, i + 1, fetch)
  {
    assert Refresh(rows[i], fetch) == rows[i];
  }

  lemma PassActionsStep(snapshot: seq<WalletView>, i: nat, fetch: string -> FetchOutcome, users: seq<UserRow>)
    requires i < |snapshot|
    ensures PassActions(snapshot[..i + 1], fetch, users) ==
      PassActions(snapshot[..i], fetch, users)
      + WalletActions(snapshot[i], UsdtBalance(fetch(snapshot[i].address)), users)
  {
    assert snapshot[..i + 1][..i] == snapshot[..i];
  }

  /**
   * One turn of the loop of `check_wallets`: fetch the wallet's balance and,
   * when it changed, notify the subscribers and write the balance back.
   * `rows` and `i` (ghost) place the wallet in the snapshot.
   */
  method CheckWallet(store: Store, v: WalletView, fetch: string -> FetchOutcome, ghost rows: seq<WalletRow>, ghost i: nat)
      returns (acts: seq<Action>, outcomes: seq<bool>)
    requires store.Valid()
    requires RefreshedUpTo(store.wallets, rows, i, fetch) && i < |rows| && v == View(rows[i])
    modifies store
    ensures store.Valid()
    ensures acts == WalletActions(v, UsdtBalance(fetch(v.address)), old(store.users))
    ensures RefreshedUpTo(store.wallets, rows, i + 1, fetch)
    ensures store.users == old(store.users) && store.nextId == old(store.nextId)
    ensures |outcomes| == |Recipients(acts)|
  {
    var name, address, lastBalance := v.name, v.address, v.lastBalance;
    var newBalance := GetUsdtBalance(fetch(address));
    if newBalance != lastBalance {
      var diff := newBalance - lastBalance;
      var notice := Notice(if diff > 0.0 then Deposit else Withdrawal, name, address, diff, newBalance);
      assert notice == NoticeFor(v, newBalance);
      var subscribers := store.GetSubscribers();
      var attempts;
      attempts, outcomes := Notify(store, subscribers, notice);
      WriteRefreshes(store.wallets, rows, i, fetch);
      store.UpdateBalance(address, newBalance);
      acts := attempts + [Write(address, newBalance)];
      RecipientsConcat(attempts, [Write(address, newBalance)]);
      assert Recipients([Write(address, newBalance)]) == [];
    } else {
      SkipRefreshes(store.wallets, rows, i, fetch);
      acts, outcomes := [], [];
    }
  }

  /**
   * `check_wallets`. Every attempt is logged whatever the transport does, so
   * the log, and with it every later attempt and every write, does not
   * depend on which sends failed; `delivered` records those outcomes.
   */
  method CheckWallets(store: Store, fetch: string -> FetchOutcome) returns (log: seq<Action>, delivered: seq<bool>)
    requires store.Valid()
    modifies store
    ensures store.Valid()
    ensures log == PassActions(Views(old(store.wallets)), fetch, old(store.users))
    ensures store.wallets == Refreshed(old(store.wallets), fetch)
    ensures store.users == old(store.users) && store.nextId == old(store.nextId)
    ensures |delivered| == |Recipients(log)|
    ensures forall k :: 0 <= k < |old(store.wallets)| ==>
      WriteCount(log, old(store.wallets)[k].address) == if Changed(View(old(store.wallets)[k]), fetch) then 1 else 0
  {
    var wallets := store.GetAllWallets();
    ghost var rows := store.wallets;
    ghost var users := store.users;
    assert wallets == Views(rows);
    log := [];
    delivered := [];
    var i := 0;
    while i < |wallets|
      invariant 0 <= i <= |wallets| == |rows|
      invariant store.Valid()
      invariant store.users == users && store.nextId == old(store.nextId)
      invariant RefreshedUpTo(store.wallets, rows, i, fetch)
      invariant log == PassActions(wallets[..i], fetch, users)
      invariant |delivered| == |Recipients(log)|
    {
      assert wallets[i] == View(rows[i]);
      var acts, outcomes := CheckWallet(store, wallets[i], fetch, rows, i);
      PassActionsStep(wallets, i, fetch, users);
      RecipientsConcat(log, acts);
      log := log + acts;
      delivered := delivered + outcomes;
      i := i + 1;
    }
    assert wallets[..i] == wallets;
    assert store.wallets == Refreshed(rows, fetch);
    forall k | 0 <= k < |rows|
      ensures WriteCount(log, rows[k].address) == if Changed(View(rows[k]), fetch) then 1 else 0
    {
      StorePassWritesOnce(rows, fetch, users, k);
    }
  }

  // ---------------------------------------------------------------------
  // Properties of a pass

  predicate Changed(v: WalletView, fetch: string -> FetchOutcome) {
    UsdtBalance(fetch(v.address)) != v.lastBalance
  }

  /** The number of `update_balance` calls of a log for an address. */
  function WriteCount(log: seq<Action>, address: string): nat {
    if log == [] then 0
    else
      var a := log[|log| - 1];
      WriteCount(log[..|log| - 1], address) + (if a.Write? && a.address == address then 1 else 0)
  }

  lemma {:induction false} WriteCountConcat(a: seq<Action>, b: seq<Action>, address: string)
    ensures WriteCount(a + b, address) == WriteCount(a, address) + WriteCount(b, address)
  {
    if b == [] {
      assert a + b == a;
    } else {
      var init := b[..|b| - 1];
      assert (a + b)[..|a + b| - 1] == a + init;
      assert (a + b)[|a + b| - 1] == b[|b| - 1];
      WriteCountConcat(a, init, address);
    }
  }

  lemma {:induction false} SendsOnlyNoWrites(log: seq<Action>, address: string)
    requires forall a :: a in log ==> a.Send?
    ensures WriteCount(log, address) == 0
  {
    if log != [] {
      assert log[|log| - 1] in log;
      assert forall a :: a in log[..|log| - 1] ==> a in log;
      SendsOnlyNoWrites(log[..|log| - 1], address);
    }
  }

  /** One wallet's actions write its own address once if it changed, and nothing else. */
  lemma WalletWrites(v: WalletView, newBalance: real, users: seq<UserRow>, address: string)
    ensures WriteCount(WalletActions(v, newBalance, users), address) ==
      if newBalance != v.lastBalance && address == v.address then 1 else 0
  {
    if newBalance != v.lastBalance {
      var fan := Fanout(Subscribers(users), NoticeFor(v, newBalance), users);
      SendsOnlyNoWrites(fan, address);
      WriteCountConcat(fan, [Write(v.address, newBalance)], address);
      assert [Write(v.address, newBalance)][..0] == [];
    }
  }

  /** A pass never writes an address that is not in its snapshot. */
  lemma {:induction false} PassWritesOnlySnapshot(snapshot: seq<WalletView>, fetch: string -> FetchOutcome, users: seq<UserRow>, address: string)
    requires forall k :: 0 <= k < |snapshot| ==> snapshot[k].address != address
    ensures WriteCount(PassActions(snapshot, fetch, users), address) == 0
  {
    if snapshot != [] {
      var init := snapshot[..|snapshot| - 1];
      var v := snapshot[|snapshot| - 1];
      PassWritesOnlySnapshot(init, fetch, users, address);
      WriteCountConcat(PassActions(init, fetch, users), WalletActions(v, UsdtBalance(fetch(v.address)), users), address);
      WalletWrites(v, UsdtBalance(fetch(v.address)), users, address);
    }
  }

  /** No two wallets of a snapshot share an address (the UNIQUE constraint). */
  predicate DistinctAddresses(snapshot: seq<WalletView>) {
    forall i, j :: 0 <= i < j < |snapshot| ==> snapshot[i].address != snapshot[j].address
  }

  lemma DistinctAddressesInit(snapshot: seq<WalletView>)
    requires snapshot != [] && DistinctAddresses(snapshot)
    ensures DistinctAddresses(snapshot[..|snapshot| - 1])
  {
    var init := snapshot[..|snapshot| - 1];
    forall i, j | 0 <= i < j < |init|
      ensures init[i].address != init[j].address
    {
      assert init[i] == snapshot[i] && init[j] == snapshot[j];
    }
  }

  /** Every wallet before the last has an address other than the last one's. */
  lemma DistinctAddressesLast(init: seq<WalletView>, v: WalletView)
    requires DistinctAddresses(init + [v])
    ensures forall k :: 0 <= k < |init| ==> init[k].address != v.address
  {
    forall k | 0 <= k < |init|
      ensures init[k].address != v.address
    {
      assert (init + [v])[k] == init[k] && (init + [v])[|init|] == v;
    }
  }

  /** The last wallet of a snapshot is written once if it changed, and by nobody else. */
  lemma PassWritesLast(snapshot: seq<WalletView>, fetch: string -> FetchOutcome, users: seq<UserRow>)
    requires snapshot != [] && DistinctAddresses(snapshot)
    ensures WriteCount(PassActions(snapshot, fetch, users), snapshot[|snapshot| - 1].address) ==
      if Changed(snapshot[|snapshot| - 1], fetch) then 1 else 0
  {
    var init := snapshot[..|snapshot| - 1];
    var v := snapshot[|snapshot| - 1];
    WriteCountConcat(PassActions(init, fetch, users), WalletActions(v, UsdtBalance(fetch(v.address)), users), v.address);
    WalletWrites(v, UsdtBalance(fetch(v.address)), users, v.address);
    assert snapshot == init + [v];
    DistinctAddressesLast(init, v);
    PassWritesOnlySnapshot(init, fetch, users, v.address);
  }

  /** The last wallet of a snapshot does not write the address of an earlier one. */
  lemma PassWritesEarlier(snapshot: seq<WalletView>, fetch: string -> FetchOutcome, users: seq<UserRow>, k: nat)
    requires k < |snapshot| - 1 && DistinctAddresses(snapshot)
    ensures WriteCount(PassActions(snapshot, fetch, users), snapshot[k].address) ==
      WriteCount(PassActions(snapshot[..|snapshot| - 1], fetch, users), snapshot[k].address)
  {
    var init := snapshot[..|snapshot| - 1];
    var v := snapshot[|snapshot| - 1];
    var address := snapshot[k].address;
    WriteCountConcat(PassActions(init, fetch, users), WalletActions(v, UsdtBalance(fetch(v.address)), users), address);
    WalletWrites(v, UsdtBalance(fetch(v.address)), users, address);
  }

  /**
   * With unique addresses, a pass calls `update_balance` exactly once for
   * each wallet whose balance changed and never for one that did not.
   */
  lemma {:induction false} PassWritesOnce(snapshot: seq<WalletView>, fetch: string -> FetchOutcome, users: seq<UserRow>, k: nat)
    requires k < |snapshot|
    requires DistinctAddresses(snapshot)
    ensures WriteCount(PassActions(snapshot, fetch, users), snapshot[k].address) ==
      if Changed(snapshot[k], fetch) then 1 else 0
  {
    if k == |snapshot| - 1 {
      PassWritesLast(snapshot, fetch, users);
    } else {
      var init := snapshot[..|snapshot| - 1];
      PassWritesEarlier(snapshot, fetch, users, k);
      assert init[k] == snapshot[k];
      DistinctAddressesInit(snapshot);
      PassWritesOnce(init, fetch, users, k);
    }
  }

  /** The UNIQUE constraint gives every snapshot of the table distinct addresses. */
  lemma ViewsDistinct(ws: seq<WalletRow>)
    requires UniqueAddresses(ws)
    ensures DistinctAddresses(Views(ws))
  {
    var snapshot := Views(ws);
    assert forall i :: 0 <= i < |ws| ==> snapshot[i].address == ws[i].address;
  }

  /** A pass over the table writes each changed row's address exactly once and an unchanged one's never. */
  lemma StorePassWritesOnce(ws: seq<WalletRow>, fetch: string -> FetchOutcome, users: seq<UserRow>, k: nat)
    requires UniqueAddresses(ws) && k < |ws|
    ensures WriteCount(PassActions(Views(ws), fetch, users), ws[k].address) ==
      if Changed(View(ws[k]), fetch) then 1 else 0
  {
    ViewsDistinct(ws);
    PassWritesOnce(Views(ws), fetch, users, k);
    assert Views(ws)[k] == View(ws[k]);
  }

  /** When no balance changed, a pass sends nothing and writes nothing. */
  lemma {:induction false} QuietPass(snapshot: seq<WalletView>, fetch: string -> FetchOutcome, users: seq<UserRow>)
    requires forall k :: 0 <= k < |snapshot| ==> !Changed(snapshot[k], fetch)
    ensures PassActions(snapshot, fetch, users) == []
  {
    if snapshot != [] {
      QuietPass(snapshot[..|snapshot| - 1], fetch, users);
    }
  }

  /**
   * For a changed wallet, every attempt comes first and carries that
   * wallet's notice, and the single write of the new balance comes last.
   */
  lemma WalletActionsOrder(v: WalletView, newBalance: real, users: seq<UserRow>)
    requires newBalance != v.lastBalance
    ensures var acts := WalletActions(v, newBalance, users);
      && acts != []
      && acts[|acts| - 1] == Write(v.address, newBalance)
      && forall k :: 0 <= k < |acts| - 1 ==> acts[k].Send? && acts[k].notice == NoticeFor(v, newBalance)
  {
    var acts := WalletActions(v, newBalance, users);
    var fan := Fanout(Subscribers(users), NoticeFor(v, newBalance), users);
    forall k | 0 <= k < |acts| - 1
      ensures acts[k].Send? && acts[k].notice == NoticeFor(v, newBalance)
    {
      assert acts[k] == fan[k];
      assert fan[k] in fan;
    }
  }

  /** The attempts of the subscriber loop go to exactly the qualifying subscribers. */
  lemma {:induction false} FanoutRecipients(subscribers: seq<int>, notice: Notice, users: seq<UserRow>)
    ensures forall r :: r in Recipients(Fanout(subscribers, notice, users)) <==>
      r in subscribers && Qualifies(users, notice, r)
  {
    if subscribers != [] {
      var init := subscribers[..|subscribers| - 1];
      var u := subscribers[|subscribers| - 1];
      FanoutRecipients(init, notice, users);
      var tail: seq<Action> := if Qualifies(users, notice, u) then [Send(u, notice)] else [];
      RecipientsConcat(Fanout(init, notice, users), tail);
      assert Recipients(tail) == if Qualifies(users, notice, u) then [u] else [] by {
        if Qualifies(users, notice, u) {
          assert tail[..0] == [];
        }
      }
      assert forall x :: x in subscribers <==> x in init || x == u;
    }
  }

  /** For a deposit every subscriber is attempted, in list order. */
  lemma {:induction false} FanoutDeposit(subscribers: seq<int>, notice: Notice, users: seq<UserRow>)
    requires notice.diff > 0.0
    ensures Recipients(Fanout(subscribers, notice, users)) == subscribers
  {
    if subscribers != [] {
      var init := subscribers[..|subscribers| - 1];
      var u := subscribers[|subscribers| - 1];
      var earlier := Fanout(init, notice, users);
      assert Fanout(subscribers, notice, users) == earlier + [Send(u, notice)];
      FanoutDeposit(init, notice, users);
      RecipientsConcat(earlier, [Send(u, notice)]);
      assert Recipients([Send(u, notice)]) == [u] by {
        assert [Send(u, notice)][..0] == [];
      }
      assert subscribers == init + [u];
    }
  }

  /**
   * With the users table well formed: an increase reaches every subscriber,
   * smallest id first; a decrease reaches exactly the subscribers who are
   * admins.
   */
  lemma WalletRecipients(v: WalletView, newBalance: real, users: seq<UserRow>)
    requires SortedIds(users)
    ensures newBalance > v.lastBalance ==>
      Recipients(WalletActions(v, newBalance, users)) == Subscribers(users)
    ensures newBalance < v.lastBalance ==>
      forall r :: r in Recipients(WalletActions(v, newBalance, users)) <==>
        IsSubscribedIn(users, r) && IsAdminIn(users, r)
    ensures newBalance == v.lastBalance ==> Recipients(WalletActions(v, newBalance, users)) == []
  {
    if newBalance != v.lastBalance {
      var notice := NoticeFor(v, newBalance);
      var fan := Fanout(Subscribers(users), notice, users);
      FanoutRecipients(Subscribers(users), notice, users);
      if newBalance > v.lastBalance {
        FanoutDeposit(Subscribers(users), notice, users);
      }
      SubscribersExact(users);
      RecipientsConcat(fan, [Write(v.address, newBalance)]);
      assert [Write(v.address, newBalance)][..0] == [];
    }
  }

  /**
   * A failed request reads as balance 0, so a wallet holding funds is
   * reported as a withdrawal of everything (to admins only) and 0 is written.
   */
  lemma FailedFetchWritesZero(v: WalletView, fetch: string -> FetchOutcome, users: seq<UserRow>)
    requires fetch(v.address) == RequestFailed
    requires v.lastBalance > 0.0
    ensures var acts := WalletActions(v, UsdtBalance(fetch(v.address)), users);
      && acts != []
      && acts[|acts| - 1] == Write(v.address, 0.0)
      && forall k :: 0 <= k < |acts| - 1 ==>
           acts[k].Send? && acts[k].notice.kind == Withdrawal && IsAdminIn(users, acts[k].recipient)
  {
    var acts := WalletActions(v, 0.0, users);
    WalletActionsOrder(v, 0.0, users);
    var fan := Fanout(Subscribers(users), NoticeFor(v, 0.0), users);
    forall k | 0 <= k < |acts| - 1
      ensures IsAdminIn(users, acts[k].recipient)
    {
      assert acts[k] == fan[k];
      assert fan[k] in fan;
    }
  }

  /** Subscribers 1 (an admin), 2 and 3, as in the worked example below. */
  function ExampleUsers(): seq<UserRow> {
    [UserRow(1, true, true), UserRow(2, false, true), UserRow(3, false, true)]
  }

  lemma ExampleAdmins()
    ensures IsAdminIn(ExampleUsers(), 1) && !IsAdminIn(ExampleUsers(), 2) && !IsAdminIn(ExampleUsers(), 3)
  {
    var users := ExampleUsers();
    assert users[1..] == [UserRow(2, false, true), UserRow(3, false, true)];
    assert users[1..][1..] == [UserRow(3, false, true)];
  }

  lemma ExampleUsersFacts()
    ensures SortedIds(ExampleUsers())
    ensures Subscribers(ExampleUsers()) == [1, 2, 3]
  {
    var users := ExampleUsers();
    assert users[1..] == [UserRow(2, false, true), UserRow(3, false, true)];
    assert users[1..][1..] == [UserRow(3, false, true)];
  }

  /**
   * The worked example: a wallet stored at 100 is fetched at 100 (nothing
   * happens), then at 150 (a +50 deposit to all three, then the write), then
   * at 120 (a -30 withdrawal to the admin only, then the write).
   */
  lemma Scenario()
    ensures WalletActions(WalletView("main", "addr1", 100.0), 100.0, ExampleUsers()) == []
    ensures NoticeFor(WalletView("main", "addr1", 100.0), 150.0).diff == 50.0
    ensures Recipients(WalletActions(WalletView("main", "addr1", 100.0), 150.0, ExampleUsers())) == [1, 2, 3]
    ensures NoticeFor(WalletView("main", "addr1", 150.0), 120.0).diff == -30.0
    ensures Recipients(WalletActions(WalletView("main", "addr1", 150.0), 120.0, ExampleUsers())) == [1]
  {
    ExampleUsersFacts();
    WalletRecipients(WalletView("main", "addr1", 100.0), 150.0, ExampleUsers());
    ScenarioWithdrawal();
  }

  /** Of subscribers 1, 2 and 3, a withdrawal reaches only the admin 1. */
  lemma ExampleWithdrawalFanout(notice: Notice)
    requires notice.diff <= 0.0
    ensures Fanout([1, 2, 3], notice, ExampleUsers()) == [Send(1, notice)]
  {
    ExampleAdmins();
    var users := ExampleUsers();
    var one: seq<int> := [] + [1];
    var two := one + [2];
    FanoutSnoc([], 1, notice, users);
    FanoutSnoc(one, 2, notice, users);
    FanoutSnoc(two, 3, notice, users);
    assert two + [3] == [1, 2, 3];
  }

  lemma ScenarioWithdrawal()
    ensures Recipients(WalletActions(WalletView("main", "addr1", 150.0), 120.0, ExampleUsers())) == [1]
  {
    ExampleUsersFacts();
    var v := WalletView("main", "addr1", 150.0);
    var down := NoticeFor(v, 120.0);
    var users := ExampleUsers();
    ExampleWithdrawalFanout(down);
    var fan := Fanout(Subscribers(users), down, users);
    assert fan == [Send(1, down)];
    RecipientsConcat(fan, [Write("addr1", 120.0)]);
    assert Recipients(fan) == [1] by {
      assert fan[..0] == [];
    }
    assert Recipients([Write("addr1", 120.0)]) == [] by {
      assert [Write("addr1", 120.0)][..0] == [];
    }
  }
}
