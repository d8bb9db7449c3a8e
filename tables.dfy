/**
 * The two SQLite tables of `wallets.db` as values, and the effect of each
 * statement the bot issues on them. `wallets` is kept in rowid order (the
 * order a full-table scan returns); `users` is keyed by its PRIMARY KEY.
 */
module Tables {
  import opened Wrappers

  /** A row of `wallets`: `id` is the AUTOINCREMENT key, `address` is UNIQUE. */
  datatype WalletRow = WalletRow(id: nat, userId: int, name: string, address: string, lastBalance: real)

  /** The `(name, address, last_balance)` triple both queries select. */
  datatype WalletView = WalletView(name: string, address: string, lastBalance: real)

  /** A row of `users`; both flags are INTEGER 0/1 columns. */
  datatype UserRow = UserRow(userId: int, isAdmin: bool, isSubscribed: bool)

  /** `last_balance REAL DEFAULT 0`. */
  const DefaultBalance: real := 0.0

  function View(w: WalletRow): WalletView {
    WalletView(w.name, w.address, w.lastBalance)
  }

  function Views(ws: seq<WalletRow>): seq<WalletView> {
    seq(|ws|, i requires 0 <= i < |ws| => View(ws[i]))
  }

  predicate HasAddress(ws: seq<WalletRow>, address: string) {
    exists i :: 0 <= i < |ws| && ws[i].address == address
  }

  /** The second column a delete matches on, besides `user_id`. */
  datatype Selector = NameIs(name: string) | AddressIs(address: string)

  /** The rows `DELETE ... WHERE user_id = ? AND <column> = ?` matches. */
  predicate Matches(w: WalletRow, userId: int, key: Selector) {
    w.userId == userId && match key
      case NameIs(name) => w.name == name
      case AddressIs(address) => w.address == address
  }

  predicate HasWallet(ws: seq<WalletRow>, userId: int, key: Selector) {
    exists i :: 0 <= i < |ws| && Matches(ws[i], userId, key)
  }

  predicate UniqueAddresses(ws: seq<WalletRow>) {
    forall i, j :: 0 <= i < j < |ws| ==> ws[i].address != ws[j].address
  }

  /** AUTOINCREMENT ids: positive, strictly ascending in scan order, below the next one. */
  predicate AscendingRowIds(ws: seq<WalletRow>, nextId: nat) {
    && (forall i :: 0 <= i < |ws| ==> 1 <= ws[i].id < nextId)
    && (forall i, j :: 0 <= i < j < |ws| ==> ws[i].id < ws[j].id)
  }

  /** What the schema guarantees of the wallets table at every moment. */
  predicate WellFormed(ws: seq<WalletRow>, nextId: nat) {
    UniqueAddresses(ws) && AscendingRowIds(ws, nextId)
  }

  // ---------------------------------------------------------------------
  // wallets

  /** `INSERT INTO wallets (user_id, name, address)`: the new row gets the next id and balance 0. */
  function Inserted(ws: seq<WalletRow>, nextId: nat, userId: int, name: string, address: string): seq<WalletRow> {
    ws + [WalletRow(nextId, userId, name, address, DefaultBalance)]
  }

  /** An insert with a fresh address keeps the table well formed. */
  lemma InsertedWellFormed(ws: seq<WalletRow>, nextId: nat, userId: int, name: string, address: string)
    requires WellFormed(ws, nextId) && nextId >= 1
    requires !HasAddress(ws, address)
    ensures WellFormed(Inserted(ws, nextId, userId, name, address), nextId + 1)
  {
    var r := Inserted(ws, nextId, userId, name, address);
    forall i, j | 0 <= i < j < |r|
      ensures r[i].address != r[j].address
    {
      if j == |ws| {
        assert r[i] == ws[i];
      }
    }
  }

  /** `SELECT name, address, last_balance FROM wallets WHERE user_id = ?`, in scan order. */
  function OwnedBy(ws: seq<WalletRow>, userId: int): (vs: seq<WalletView>)
    ensures |vs| <= |ws|
    ensures forall i :: 0 <= i < |ws| && ws[i].userId == userId ==> View(ws[i]) in vs
    ensures forall v :: v in vs ==> exists w :: w in ws && w.userId == userId && View(w) == v
  {
    if ws == [] then []
    else
      var init := ws[..|ws| - 1];
      var w := ws[|ws| - 1];
      var r := OwnedBy(init, userId);
      assert forall w' :: w' in init ==> w' in ws;
      if w.userId == userId then r + [View(w)] else r
  }

  /** The positions of the user's rows: every one of them, each once, in scan order. */
  function OwnedRows(ws: seq<WalletRow>, userId: int): (idx: seq<nat>)
    ensures forall k :: 0 <= k < |idx| ==> idx[k] < |ws| && ws[idx[k]].userId == userId
    ensures forall k, l :: 0 <= k < l < |idx| ==> idx[k] < idx[l]
    ensures forall i :: 0 <= i < |ws| && ws[i].userId == userId ==> i in idx
  {
    if ws == [] then []
    else
      var init := ws[..|ws| - 1];
      var r := OwnedRows(init, userId);
      assert forall i :: 0 <= i < |init| ==> init[i] == ws[i];
      if ws[|ws| - 1].userId == userId then r + [|ws| - 1] else r
  }

  /**
   * `get_user_wallets` returns one triple per row of the user, in scan
   * order, and nothing else.
   */
  lemma {:induction false} OwnedByRows(ws: seq<WalletRow>, userId: int)
    ensures var idx := OwnedRows(ws, userId);
      && |OwnedBy(ws, userId)| == |idx|
      && forall k :: 0 <= k < |idx| ==> OwnedBy(ws, userId)[k] == View(ws[idx[k]])
  {
    if ws != [] {
      var init := ws[..|ws| - 1];
      var w := ws[|ws| - 1];
      OwnedByRows(init, userId);
      var idx := OwnedRows(init, userId);
      var vs := OwnedBy(init, userId);
      if w.userId == userId {
        assert OwnedRows(ws, userId) == idx + [|ws| - 1];
        assert OwnedBy(ws, userId) == vs + [View(w)];
        OwnedByRowsStep(ws, idx, vs, [|ws| - 1], [View(w)]);
      } else {
        assert OwnedRows(ws, userId) == idx;
        assert OwnedBy(ws, userId) == vs;
        OwnedByRowsStep(ws, idx, vs, [], []);
      }
    }
  }

  /** One step of `OwnedByRows`: the rows of the prefix keep their triples. */
  lemma OwnedByRowsStep(ws: seq<WalletRow>, idx: seq<nat>, vs: seq<WalletView>, idx1: seq<nat>, vs1: seq<WalletView>)
    requires ws != [] && |vs| == |idx| && |vs1| == |idx1| <= 1
    requires forall k :: 0 <= k < |idx| ==> idx[k] < |ws| - 1 && vs[k] == View(ws[..|ws| - 1][idx[k]])
    requires idx1 == [] || (idx1 == [|ws| - 1] && vs1 == [View(ws[|ws| - 1])])
    ensures var r := idx + idx1; |vs + vs1| == |r| && forall k :: 0 <= k < |r| ==> (vs + vs1)[k] == View(ws[r[k]])
  {
    var r := idx + idx1;
    forall k | 0 <= k < |r|
      ensures (vs + vs1)[k] == View(ws[r[k]])
    {
      if k < |idx| {
        assert r[k] == idx[k] && (vs + vs1)[k] == vs[k];
      }
    }
  }

  /** With unique addresses no triple is returned twice. */
  lemma OwnedByDistinct(ws: seq<WalletRow>, userId: int)
    requires UniqueAddresses(ws)
    ensures var vs := OwnedBy(ws, userId);
      forall k, l :: 0 <= k < l < |vs| ==> vs[k].address != vs[l].address
  {
    OwnedByRows(ws, userId);
    var idx := OwnedRows(ws, userId);
    var vs := OwnedBy(ws, userId);
    forall k, l | 0 <= k < l < |vs|
      ensures vs[k].address != vs[l].address
    {
      assert vs[k].address == ws[idx[k]].address && vs[l].address == ws[idx[l]].address;
    }
  }

  /** The query on a table made of two scans returns the two results in order. */
  lemma {:induction false} OwnedByConcat(a: seq<WalletRow>, b: seq<WalletRow>, userId: int)
    ensures OwnedBy(a + b, userId) == OwnedBy(a, userId) + OwnedBy(b, userId)
  {
    if b == [] {
      assert a + b == a;
    } else {
      var init := b[..|b| - 1];
      assert (a + b)[..|a + b| - 1] == a + init;
      assert (a + b)[|a + b| - 1] == b[|b| - 1];
      OwnedByConcat(a, init, userId);
    }
  }

  /** The views of a table are those of all rows but the last, then the last one's. */
  lemma ViewsInit(ws: seq<WalletRow>)
    requires ws != []
    ensures Views(ws) == Views(ws[..|ws| - 1]) + [View(ws[|ws| - 1])]
  {
    var init := ws[..|ws| - 1];
    assert forall i :: 0 <= i < |init| ==> Views(ws)[i] == View(init[i]);
  }

  /** A user who owns every row sees the same as the query over all wallets. */
  lemma {:induction false} OwnedByAll(ws: seq<WalletRow>, userId: int)
    requires forall i :: 0 <= i < |ws| ==> ws[i].userId == userId
    ensures OwnedBy(ws, userId) == Views(ws)
  {
    if ws != [] {
      var init := ws[..|ws| - 1];
      var w := ws[|ws| - 1];
      assert w.userId == userId;
      assert OwnedBy(ws, userId) == OwnedBy(init, userId) + [View(w)];
      assert forall i :: 0 <= i < |init| ==> init[i] == ws[i];
      OwnedByAll(init, userId);
      ViewsInit(ws);
    }
  }

  /** `UPDATE wallets SET last_balance = ? WHERE address = ?`. */
  function WithBalance(ws: seq<WalletRow>, address: string, balance: real): seq<WalletRow> {
    seq(|ws|, i requires 0 <= i < |ws| =>
      if ws[i].address == address then ws[i].(lastBalance := balance) else ws[i])
  }

  /**
   * The update touches only `last_balance`, only on the rows with that
   * address, and changes nothing when the address is absent.
   */
  lemma WithBalanceEffect(ws: seq<WalletRow>, address: string, balance: real)
    ensures var r := WithBalance(ws, address, balance);
      && |r| == |ws|
      && (forall i :: 0 <= i < |ws| ==>
            && r[i].id == ws[i].id && r[i].userId == ws[i].userId
            && r[i].name == ws[i].name && r[i].address == ws[i].address
            && r[i].lastBalance == (if ws[i].address == address then balance else ws[i].lastBalance))
      && (!HasAddress(ws, address) ==> r == ws)
  {
    var r := WithBalance(ws, address, balance);
    if !HasAddress(ws, address) {
      assert forall i :: 0 <= i < |ws| ==> r[i] == ws[i];
    }
  }

  lemma WithBalanceWellFormed(ws: seq<WalletRow>, nextId: nat, address: string, balance: real)
    requires WellFormed(ws, nextId)
    ensures WellFormed(WithBalance(ws, address, balance), nextId)
  {
    var r := WithBalance(ws, address, balance);
    assert forall i :: 0 <= i < |ws| ==> r[i].address == ws[i].address && r[i].id == ws[i].id;
  }

  /** `DELETE FROM wallets WHERE user_id = ? AND ...`: every match goes, the rest stay in order. */
  function Without(ws: seq<WalletRow>, userId: int, key: Selector): (r: seq<WalletRow>)
    ensures |r| <= |ws|
    ensures forall w :: w in r <==> w in ws && !Matches(w, userId, key)
    ensures |r| < |ws| <==> HasWallet(ws, userId, key)
  {
    if ws == [] then []
    else
      var init := ws[..|ws| - 1];
      var w := ws[|ws| - 1];
      var r := Without(init, userId, key);
      assert ws == init + [w];
      assert HasWallet(ws, userId, key) <==> HasWallet(init, userId, key) || Matches(w, userId, key) by {
        if HasWallet(ws, userId, key) {
          var i :| 0 <= i < |ws| && Matches(ws[i], userId, key);
          if i < |init| {
            assert init[i] == ws[i];
          }
        }
        if HasWallet(init, userId, key) {
          var i :| 0 <= i < |init| && Matches(init[i], userId, key);
          assert ws[i] == init[i];
        }
      }
      if Matches(w, userId, key) then r else r + [w]
  }

  /** A delete works row by row: the kept rows stay in their original order. */
  lemma {:induction false} WithoutConcat(a: seq<WalletRow>, b: seq<WalletRow>, userId: int, key: Selector)
    ensures Without(a + b, userId, key) == Without(a, userId, key) + Without(b, userId, key)
  {
    if b == [] {
      assert a + b == a;
    } else {
      var init := b[..|b| - 1];
      var w := b[|b| - 1];
      assert (a + b)[..|a + b| - 1] == a + init;
      assert (a + b)[|a + b| - 1] == w;
      WithoutConcat(a, init, userId, key);
      var r := Without(a, userId, key) + Without(init, userId, key);
      if Matches(w, userId, key) {
        assert Without(a + b, userId, key) == r;
        assert Without(b, userId, key) == Without(init, userId, key);
      } else {
        assert Without(a + b, userId, key) == r + [w];
        assert Without(b, userId, key) == Without(init, userId, key) + [w];
      }
    }
  }

  /** Dropping the last row keeps the table well formed, and that row is above all the others. */
  lemma WellFormedInit(ws: seq<WalletRow>, nextId: nat)
    requires WellFormed(ws, nextId) && ws != []
    ensures WellFormed(ws[..|ws| - 1], nextId)
    ensures forall v :: v in ws[..|ws| - 1] ==> v.address != ws[|ws| - 1].address && v.id < ws[|ws| - 1].id
  {
    var init := ws[..|ws| - 1];
    forall v | v in init
      ensures v.address != ws[|ws| - 1].address && v.id < ws[|ws| - 1].id
    {
      var k :| 0 <= k < |init| && init[k] == v;
      assert ws[k] == v;
    }
  }

  /** A row above every other row, with a fresh address, can be appended. */
  lemma AppendWellFormed(r: seq<WalletRow>, w: WalletRow, nextId: nat)
    requires WellFormed(r, nextId) && 1 <= w.id < nextId
    requires forall v :: v in r ==> v.address != w.address && v.id < w.id
    ensures WellFormed(r + [w], nextId)
  {
    var t := r + [w];
    forall i, j | 0 <= i < j < |t|
      ensures t[i].address != t[j].address && t[i].id < t[j].id
    {
      assert t[i] == r[i] && r[i] in r;
      if j < |r| {
        assert t[j] == r[j];
      }
    }
    assert forall i :: 0 <= i < |t| ==> t[i] == w || t[i] == r[i];
  }

  lemma {:induction false} WithoutWellFormed(ws: seq<WalletRow>, nextId: nat, userId: int, key: Selector)
    requires WellFormed(ws, nextId)
    ensures WellFormed(Without(ws, userId, key), nextId)
  {
    if ws != [] {
      var init := ws[..|ws| - 1];
      var w := ws[|ws| - 1];
      WellFormedInit(ws, nextId);
      WithoutWellFormed(init, nextId, userId, key);
      var r := Without(init, userId, key);
      if !Matches(w, userId, key) {
        assert Without(ws, userId, key) == r + [w];
        AppendWellFormed(r, w, nextId);
      }
    }
  }

  // ---------------------------------------------------------------------
  // users: rows in rowid order, and `user_id` is the rowid

  /** Strictly ascending keys: the PRIMARY KEY is unique and a scan follows it. */
  predicate SortedIds(users: seq<UserRow>) {
    forall i, j :: 0 <= i < j < |users| ==> users[i].userId < users[j].userId
  }

  /** The row `WHERE user_id = ?` selects, if any. */
  function Lookup(users: seq<UserRow>, userId: int): (r: Option<UserRow>)
    ensures r.Some? ==> r.value in users && r.value.userId == userId
    ensures r.None? <==> forall i :: 0 <= i < |users| ==> users[i].userId != userId
  {
    if users == [] then None
    else if users[0].userId == userId then Some(users[0])
    else Lookup(users[1..], userId)
  }

  /** A row inserted with only `user_id` given: every flag at its DEFAULT 0. */
  function NewUser(userId: int): UserRow {
    UserRow(userId, false, false)
  }

  /**
   * Put `row` in the place of the row with its key, or insert it in key order
   * when there is none.
   */
  function Upsert(users: seq<UserRow>, row: UserRow): (r: seq<UserRow>)
    ensures row in r
    ensures forall x :: x in r ==> x == row || x in users
  {
    if users == [] then [row]
    else if users[0].userId == row.userId then [row] + users[1..]
    else if row.userId < users[0].userId then [row] + users
    else [users[0]] + Upsert(users[1..], row)
  }

  /** After the upsert the key selects `row`; every other key selects what it did before. */
  lemma {:induction false} UpsertLookup(users: seq<UserRow>, row: UserRow, v: int)
    ensures Lookup(Upsert(users, row), v) == if v == row.userId then Some(row) else Lookup(users, v)
  {
    var r := Upsert(users, row);
    if users == [] {
    } else if users[0].userId == row.userId {
      assert r[1..] == users[1..];
    } else if row.userId < users[0].userId {
      assert r[1..] == users;
    } else {
      assert r[1..] == Upsert(users[1..], row);
      UpsertLookup(users[1..], row, v);
    }
  }

  /** A sorted table is its first row followed by larger keys. */
  lemma SortedHead(users: seq<UserRow>)
    requires SortedIds(users) && users != []
    ensures SortedIds(users[1..])
    ensures forall x :: x in users[1..] ==> users[0].userId < x.userId
  {
    var tail := users[1..];
    forall x | x in tail
      ensures users[0].userId < x.userId
    {
      var k :| 0 <= k < |tail| && tail[k] == x;
      assert users[k + 1] == x;
    }
    forall i, j | 0 <= i < j < |tail|
      ensures tail[i].userId < tail[j].userId
    {
      assert tail[i] == users[i + 1] && tail[j] == users[j + 1];
    }
  }

  /** A row below every key of a sorted table can go in front of it. */
  lemma SortedCons(x: UserRow, rest: seq<UserRow>)
    requires SortedIds(rest)
    requires forall y :: y in rest ==> x.userId < y.userId
    ensures SortedIds([x] + rest)
  {
    var r := [x] + rest;
    forall i, j | 0 <= i < j < |r|
      ensures r[i].userId < r[j].userId
    {
      assert r[j] == rest[j - 1] && rest[j - 1] in rest;
      if i > 0 {
        assert r[i] == rest[i - 1];
      }
    }
  }

  /** The upsert keeps the keys unique and in order. */
  lemma {:induction false} UpsertSorted(users: seq<UserRow>, row: UserRow)
    requires SortedIds(users)
    ensures SortedIds(Upsert(users, row))
  {
    if users == [] {
    } else if users[0].userId == row.userId {
      SortedHead(users);
      SortedCons(row, users[1..]);
    } else if row.userId < users[0].userId {
      assert forall y :: y in users ==> y == users[0] || y in users[1..];
      SortedHead(users);
      SortedCons(row, users);
    } else {
      SortedHead(users);
      var rest := Upsert(users[1..], row);
      UpsertSorted(users[1..], row);
      SortedCons(users[0], rest);
    }
  }

  /**
   * `INSERT OR REPLACE INTO users (user_id, is_admin) VALUES (?, 1)`: the old
   * row (if any) is deleted and a new one inserted with the other columns at
   * their defaults.
   */
  function Promoted(users: seq<UserRow>, userId: int): seq<UserRow> {
    Upsert(users, UserRow(userId, true, false))
  }

  /** `INSERT OR IGNORE INTO users (user_id) VALUES (?)`. */
  function Registered(users: seq<UserRow>, userId: int): seq<UserRow> {
    if Lookup(users, userId).Some? then users else Upsert(users, NewUser(userId))
  }

  /** `UPDATE users SET is_subscribed = 1 WHERE user_id = ?`. */
  function WithSubscription(users: seq<UserRow>, userId: int): (r: seq<UserRow>)
    ensures |r| == |users|
    ensures forall i :: 0 <= i < |users| ==> r[i].userId == users[i].userId && r[i].isAdmin == users[i].isAdmin
  {
    if users == [] then []
    else
      var first := if users[0].userId == userId then users[0].(isSubscribed := true) else users[0];
      [first] + WithSubscription(users[1..], userId)
  }

  /** `is_admin`: a row exists and its `is_admin` is 1; an unknown user is not an admin. */
  predicate IsAdminIn(users: seq<UserRow>, userId: int) {
    Lookup(users, userId).Some? && Lookup(users, userId).value.isAdmin
  }

  predicate IsSubscribedIn(users: seq<UserRow>, userId: int) {
    Lookup(users, userId).Some? && Lookup(users, userId).value.isSubscribed
  }

  predicate StrictlyAscending(s: seq<int>) {
    forall i, j :: 0 <= i < j < |s| ==> s[i] < s[j]
  }

  /** `SELECT user_id FROM users WHERE is_subscribed = 1`, in scan order. */
  function Subscribers(users: seq<UserRow>): (ids: seq<int>)
    ensures forall v :: v in ids ==> exists i :: 0 <= i < |users| && users[i].userId == v && users[i].isSubscribed
    ensures forall i :: 0 <= i < |users| && users[i].isSubscribed ==> users[i].userId in ids
  {
    if users == [] then []
    else
      var rest := Subscribers(users[1..]);
      assert forall v :: v in rest ==> exists i :: 0 <= i < |users| && users[i].userId == v && users[i].isSubscribed by {
        forall v | v in rest
          ensures exists i :: 0 <= i < |users| && users[i].userId == v && users[i].isSubscribed
        {
          var k :| 0 <= k < |users[1..]| && users[1..][k].userId == v && users[1..][k].isSubscribed;
          assert users[k + 1] == users[1..][k];
        }
      }
      assert forall i :: 1 <= i < |users| ==> users[i] == users[1..][i - 1];
      if users[0].isSubscribed then [users[0].userId] + rest else rest
  }

  /** With unique keys, a row's own key selects that very row. */
  lemma {:induction false} LookupSorted(users: seq<UserRow>, i: nat)
    requires SortedIds(users) && i < |users|
    ensures Lookup(users, users[i].userId) == Some(users[i])
  {
    if i > 0 {
      assert users[0].userId < users[i].userId;
      assert users[1..][i - 1] == users[i];
      LookupSorted(users[1..], i - 1);
    }
  }

  /** With unique keys, a user is an admin iff some row of theirs has `is_admin` set. */
  lemma IsAdminInRows(users: seq<UserRow>, userId: int)
    requires SortedIds(users)
    ensures IsAdminIn(users, userId) <==>
      exists i :: 0 <= i < |users| && users[i].userId == userId && users[i].isAdmin
  {
    if exists i :: 0 <= i < |users| && users[i].userId == userId && users[i].isAdmin {
      var i :| 0 <= i < |users| && users[i].userId == userId && users[i].isAdmin;
      LookupSorted(users, i);
    }
    if IsAdminIn(users, userId) {
      var row := Lookup(users, userId).value;
      var i :| 0 <= i < |users| && users[i] == row;
      assert users[i].userId == userId && users[i].isAdmin;
    }
  }

  /** Repeating an upsert of the same row changes nothing. */
  lemma {:induction false} UpsertTwice(users: seq<UserRow>, row: UserRow)
    ensures Upsert(Upsert(users, row), row) == Upsert(users, row)
  {
    if users != [] && users[0].userId != row.userId && row.userId > users[0].userId {
      var r := Upsert(users, row);
      assert r[1..] == Upsert(users[1..], row);
      UpsertTwice(users[1..], row);
    } else if users != [] && users[0].userId == row.userId {
      assert ([row] + users[1..])[1..] == users[1..];
    } else if users != [] {
      assert ([row] + users)[1..] == users;
    }
  }

  /**
   * After `add_admin(u)`: `u` is an admin whose subscription is cleared
   * (the REPLACE resets it to its default), no other user's row changes,
   * keys stay unique, and running it again changes nothing.
   */
  lemma PromotedEffect(users: seq<UserRow>, userId: int)
    ensures IsAdminIn(Promoted(users, userId), userId)
    ensures !IsSubscribedIn(Promoted(users, userId), userId)
    ensures forall v :: v != userId ==> Lookup(Promoted(users, userId), v) == Lookup(users, v)
    ensures SortedIds(users) ==> SortedIds(Promoted(users, userId))
    ensures Promoted(Promoted(users, userId), userId) == Promoted(users, userId)
  {
    var row := UserRow(userId, true, false);
    UpsertLookup(users, row, userId);
    forall v | v != userId
      ensures Lookup(Promoted(users, userId), v) == Lookup(users, v)
    {
      UpsertLookup(users, row, v);
    }
    if SortedIds(users) {
      UpsertSorted(users, row);
    }
    UpsertTwice(users, row);
  }

  /**
   * After `add_user(u)`: a known user's row is untouched, a stranger gets a
   * row with every flag off, nobody else changes, and nobody's admin flag
   * changes.
   */
  lemma RegisteredEffect(users: seq<UserRow>, userId: int)
    ensures Lookup(users, userId).Some? ==> Registered(users, userId) == users
    ensures Lookup(users, userId).None? ==> Lookup(Registered(users, userId), userId) == Some(NewUser(userId))
    ensures forall v :: v != userId ==> Lookup(Registered(users, userId), v) == Lookup(users, v)
    ensures forall v :: IsAdminIn(Registered(users, userId), v) <==> IsAdminIn(users, v)
    ensures SortedIds(users) ==> SortedIds(Registered(users, userId))
    ensures Registered(Registered(users, userId), userId) == Registered(users, userId)
  {
    var row := NewUser(userId);
    if Lookup(users, userId).None? {
      UpsertLookup(users, row, userId);
      forall v
        ensures v != userId ==> Lookup(Registered(users, userId), v) == Lookup(users, v)
        ensures IsAdminIn(Registered(users, userId), v) <==> IsAdminIn(users, v)
      {
        UpsertLookup(users, row, v);
      }
      if SortedIds(users) {
        UpsertSorted(users, row);
      }
    }
  }

  lemma {:induction false} WithSubscriptionLookup(users: seq<UserRow>, userId: int, v: int)
    ensures Lookup(WithSubscription(users, userId), v) ==
      if v == userId && Lookup(users, v).Some?
      then Some(Lookup(users, v).value.(isSubscribed := true))
      else Lookup(users, v)
  {
    if users != [] {
      var r := WithSubscription(users, userId);
      assert r[1..] == WithSubscription(users[1..], userId);
      WithSubscriptionLookup(users[1..], userId, v);
    }
  }

  /**
   * After `add_subscriber(u)`: no row is created, nobody's admin flag
   * changes, `u` is subscribed exactly when it already had a row, and nobody
   * else's row changes.
   */
  lemma WithSubscriptionEffect(users: seq<UserRow>, userId: int)
    ensures forall v :: Lookup(WithSubscription(users, userId), v).Some? <==> Lookup(users, v).Some?
    ensures forall v :: IsAdminIn(WithSubscription(users, userId), v) <==> IsAdminIn(users, v)
    ensures IsSubscribedIn(WithSubscription(users, userId), userId) <==> Lookup(users, userId).Some?
    ensures forall v :: v != userId ==> Lookup(WithSubscription(users, userId), v) == Lookup(users, v)
    ensures SortedIds(users) ==> SortedIds(WithSubscription(users, userId))
  {
    forall v
      ensures Lookup(WithSubscription(users, userId), v) ==
        if v == userId && Lookup(users, v).Some?
        then Some(Lookup(users, v).value.(isSubscribed := true))
        else Lookup(users, v)
    {
      WithSubscriptionLookup(users, userId, v);
    }
  }

  /** An id below every id of an ascending sequence can go in front of it. */
  lemma AscendingCons(x: int, rest: seq<int>)
    requires StrictlyAscending(rest)
    requires forall y :: y in rest ==> x < y
    ensures StrictlyAscending([x] + rest)
  {
    var r := [x] + rest;
    forall i, j | 0 <= i < j < |r|
      ensures r[i] < r[j]
    {
      assert r[j] == rest[j - 1] && rest[j - 1] in rest;
      if i > 0 {
        assert r[i] == rest[i - 1];
      }
    }
  }

  /** With unique keys, `get_subscribers` returns exactly the subscribed users. */
  lemma SubscribersMembers(users: seq<UserRow>)
    requires SortedIds(users)
    ensures forall v :: v in Subscribers(users) <==> IsSubscribedIn(users, v)
  {
    forall v
      ensures v in Subscribers(users) <==> IsSubscribedIn(users, v)
    {
      if v in Subscribers(users) {
        var i :| 0 <= i < |users| && users[i].userId == v && users[i].isSubscribed;
        LookupSorted(users, i);
      }
      if IsSubscribedIn(users, v) {
        var i :| 0 <= i < |users| && users[i] == Lookup(users, v).value;
      }
    }
  }

  /** With unique keys, `get_subscribers` lists each subscriber once, smallest id first. */
  lemma {:induction false} SubscribersAscending(users: seq<UserRow>)
    requires SortedIds(users)
    ensures StrictlyAscending(Subscribers(users))
  {
    if users != [] {
      var tail := users[1..];
      SortedHead(users);
      SubscribersAscending(tail);
      var rest := Subscribers(tail);
      if users[0].isSubscribed {
        forall v | v in rest
          ensures users[0].userId < v
        {
          var k :| 0 <= k < |tail| && tail[k].userId == v && tail[k].isSubscribed;
          assert tail[k] in tail;
        }
        AscendingCons(users[0].userId, rest);
      }
    }
  }

  /**
   * With unique keys, `get_subscribers` returns exactly the subscribed
   * users, each once, smallest id first.
   */
  lemma SubscribersExact(users: seq<UserRow>)
    requires SortedIds(users)
    ensures forall v :: v in Subscribers(users) <==> IsSubscribedIn(users, v)
    ensures StrictlyAscending(Subscribers(users))
  {
    SubscribersMembers(users);
    SubscribersAscending(users);
  }
}
