# CriptoTGBot

CriptoTGBot is a Telegram bot that watches USDT (TRC-20) wallets on the TRON
network. Admins register wallets under a name. Any approved user can list
balances. A periodic pass re-reads each wallet's balance from the Tronscan
explorer and notifies the subscribers about every change: deposits go to all
subscribers, withdrawals only to the admins among them. The state lives in a
two-table SQLite database (`wallets.db`).

This project models the core of `bot.py` and `database.py`:

- **`database.dfy`** (`Database.Store`): the database as a class. Its fields
  are the `wallets` table (a sequence in rowid order), the `users` table (a
  sequence sorted by its PRIMARY KEY `user_id`) and the AUTOINCREMENT
  counter. Each statement of `database.py` is a method (INSERT, INSERT OR
  REPLACE, INSERT OR IGNORE, UPDATE, DELETE) or a function that reads the
  object (SELECT). It is proved against the value-level statement functions
  of `tables.dfy`. `Valid()` holds the schema's guarantees: UNIQUE
  addresses, and row ids that are ascending and below the counter.
- **`tables.dfy`**: the same statements on values, with their SQLite
  semantics. A failed UNIQUE insert leaves the table alone. INSERT OR
  REPLACE resets the columns it omits. INSERT OR IGNORE keeps an existing
  row. UPDATE never creates a row. DELETE reports its row count. Lemmas
  cover the effects, the invariants each statement keeps and idempotence.
- **`reconcile.dfy`**: one pass of `check_wallets`.
  - The explorer is a function from address to response.
  - `send_message` is an oracle that may fail on any call.
  - The pass is specified by its log of send attempts and `update_balance`
    calls. The lemmas state:
    - who is notified;
    - that each changed wallet is written exactly once, after its sends;
    - that an unchanged wallet produces nothing;
    - that send failures change neither the log nor the table.
- **`explorer.dfy`**: `get_usdt_balance`'s scan of `trc20token_balances`.
  The last "Tether USD" entry wins, divided by 1,000,000. A failed request
  gives 0.
- **`chunking.dfy`**: the two loops that cut a balance report into messages
  under the 4000-character threshold, which differ at the total line.
  `balance_handler` places the total line like any other piece.
  `total_balance_handler` appends it unconditionally.
- **`text.dfy`, `commands.dfy`**: Python's `str.split()` and
  `str.split(maxsplit=2)` with Python's whitespace set, `str.split(":")`,
  and `str.isdigit()` and base-10 `int()` over the ASCII digits. `int()`
  is modelled with its sign, its underscores and the whitespace it skips
  around a literal, which is `str.split()`'s set without the separators
  U+001C to U+001F. On top of them,
  the argument parsing of `/add_wallet`, `/set_admin`, `/approve` and the
  `approve:`, `reject:` and `delete_wallet:` callbacks.
- **`handlers.dfy`**: the decisions handlers take before they answer.
  - `get_main_menu`'s keyboard;
  - the `check_access` gate;
  - which wallets the two reports list;
  - what `/subscribe`, `/add_wallet` and the delete button do to the store.

Balances are Dafny `real`. Message texts are abstract strings: only their
length and their order matter. Whether a user is approved comes from a
function `database.py` does not define, so it is a parameter.

## Model

| member | source | states |
|---|---|---|
| Database.Store.constructor | database.py:6-29 | a new database has both tables empty, with the counter at 1 |
| Database.Store.AddWallet | database.py:32-43 | succeeds iff no row of any owner has the address; on success exactly one row is appended, with the next id, the caller as owner and balance 0, and the counter advances; on failure nothing changes; `users` is untouched |
| Database.Store.GetUserWallets | database.py:46-53 | one (name, address, balance) per row owned by the user, in scan order (the positions `OwnedRows` gives), and nothing else |
| Database.Store.GetAllWallets | database.py:66-71 | one (name, address, balance) per row, in scan order |
| Database.Store.UpdateBalance | database.py:56-63 | the new table is `WithBalance` of the old one: only `last_balance` of rows with that address changes; the schema invariant and `users` are unchanged |
| Database.Store.DeleteWallet | database.py:82-89 | removes exactly the rows with that owner and name, keeps the others in order, and returns true iff one was removed |
| Database.Store.Delete | database.py:85-89 | the DELETE statement for either selector, with `rowcount > 0` as its result |
| Database.Store.IsAdmin | database.py:92-99 | false for a user without a row; with unique keys, true iff some row of the user has `is_admin` set |
| Database.Store.AddAdmin | database.py:102-108 | `users` becomes `Promoted`, keys stay sorted, `wallets` is unchanged |
| Database.Store.AddUser | database.py:111-115 | `users` becomes `Registered`, keys stay sorted, `wallets` is unchanged |
| Database.Store.AddSubscriber | database.py:144-150 | `users` becomes `WithSubscription`, keys stay sorted, `wallets` is unchanged |
| Database.Store.GetSubscribers | database.py:153-157 | exactly the subscribed user ids, each once, smallest first |
| Tables.InsertedWellFormed | database.py:21-25 | an insert with a fresh address and the next id keeps the addresses unique and the ids ascending |
| Tables.OwnedBy | database.py:49-53 | the user's rows' views are all in the result, every result comes from one of the user's rows, and the result is no longer than the table |
| Tables.OwnedRows | database.py:49-53 | the positions of the rows with that `user_id`: all of them, each once, ascending |
| Tables.OwnedByRows | database.py:46-53 | the query returns exactly one triple per owned row, in scan order |
| Tables.OwnedByDistinct | database.py:24 | with unique addresses, the query never returns an address twice |
| Tables.OwnedByRowsStep | database.py:49-53 | one step of `OwnedByRows`: positions found among all rows but the last, followed by the last row when it is the user's, still index the matching views |
| Tables.ViewsInit | database.py:69 | the views of a table are those of all rows but the last, then the last one's |
| Tables.OwnedByConcat | database.py:49-53 | the query over two scans is the two results in order |
| Tables.OwnedByAll | database.py:46-71 | for a user owning every row, `get_user_wallets` equals `get_all_wallets` |
| Tables.WithBalanceEffect | database.py:59-62 | the update keeps length, ids, owners, names and addresses, sets the balance exactly on the rows with that address, and is the identity when the address is absent |
| Tables.WithBalanceWellFormed | database.py:59-62 | the update keeps the schema invariant |
| Tables.Without | database.py:85-89 | a row survives iff it is in the table and does not match; the table shrinks iff some row matched |
| Tables.WithoutConcat | database.py:85-89 | a delete works row by row, so surviving rows keep their order |
| Tables.WellFormedInit | database.py:21-24 | dropping the last row keeps the invariant, and every other row has a different address and a smaller id than the last one |
| Tables.AppendWellFormed | database.py:21-24 | a row with a fresh address and a larger id can be appended to a well-formed table |
| Tables.WithoutWellFormed | database.py:85-89 | a delete keeps the addresses unique and the ids ascending |
| Tables.Lookup | database.py:12 | the key selects a row with that key, or none when no row has it |
| Tables.Upsert | database.py:106 | the new row is present and every other row was there before |
| Tables.UpsertLookup | database.py:106 | after the upsert the key selects the new row and every other key selects what it did before |
| Tables.SortedHead | database.py:12 | a sorted table is its first row followed by a sorted table of larger keys |
| Tables.SortedCons | database.py:12 | a row below every key of a sorted table can go in front of it |
| Tables.UpsertSorted | database.py:12 | an upsert keeps the PRIMARY KEY unique and in order |
| Tables.UpsertTwice | database.py:106 | repeating an upsert of the same row changes nothing |
| Tables.PromotedEffect | database.py:102-108 | after `add_admin(u)`, `u` is an admin whose subscription is cleared, no other key's row changes, keys stay sorted, and a second call changes nothing |
| Tables.RegisteredEffect | database.py:111-115 | `add_user` leaves a known user's row alone, gives a stranger a row with every flag off, changes no other row and no admin flag, keeps keys sorted and is idempotent |
| Tables.WithSubscription | database.py:147-149 | keeps the number of rows, their keys and their admin flags |
| Tables.WithSubscriptionLookup | database.py:147-149 | the user's row, if there is one, gets `is_subscribed` set; every other lookup is unchanged |
| Tables.WithSubscriptionEffect | database.py:144-150 | `add_subscriber` creates no row, changes no admin flag, subscribes `u` iff `u` had a row and keeps keys sorted |
| Tables.Subscribers | database.py:156-157 | every result is a subscribed row's key, and every subscribed row's key is a result |
| Tables.LookupSorted | database.py:12 | with unique keys, a row's own key selects that row |
| Tables.IsAdminInRows | database.py:92-99 | with unique keys, the lookup says admin iff some row of the user has `is_admin` set |
| Tables.SubscribersMembers | database.py:153-157 | with unique keys, an id is returned iff its user is subscribed |
| Tables.SubscribersAscending | database.py:153-157 | with keys in order, the ids come strictly ascending |
| Tables.AscendingCons | database.py:153-157 | an id below every id of an ascending list can go in front of it |
| Tables.SubscribersExact | database.py:153-157 | both of the above together |
| Explorer.TetherBalance | bot.py:144-147 | with no "Tether USD" entry the result is 0; otherwise it is the last such entry's balance in USDT |
| Explorer.UsdtBalance | bot.py:136-152 | a failed request gives 0, and so does a response without the token list; a token list gives its `TetherBalance` |
| Explorer.TetherBalanceStep | bot.py:145-147 | the scan one entry further: a "Tether USD" entry replaces the result, any other keeps it |
| Explorer.GetUsdtBalance | bot.py:144-149 | the overwriting scan returns `UsdtBalance` of the response |
| Reconcile.KindOf | bot.py:345-360 | a notice is a deposit iff the difference is positive |
| Reconcile.Fanout | bot.py:364-372 | every attempt carries the notice and goes to a qualifying subscriber, and every qualifying subscriber is attempted |
| Reconcile.FanoutSnoc | bot.py:364-372 | the subscriber loop, one subscriber further |
| Reconcile.RecipientsConcat | bot.py:364-372 | the recipients of two logs are the recipients of each, in order |
| Reconcile.RecipientsSnoc | bot.py:364-372 | one more action adds its recipient if it is a send |
| Reconcile.Notify | bot.py:364-372 | the attempts are `Fanout` of the subscriber list whatever each send returns, with one outcome per attempt |
| Reconcile.WriteRefreshes | bot.py:374 | with unique addresses, writing the fetched balance of wallet `i` refreshes exactly that row |
| Reconcile.SkipRefreshes | bot.py:340 | an unchanged wallet is already refreshed |
| Reconcile.PassActionsStep | bot.py:334-335 | the log of a snapshot prefix, one wallet further |
| Reconcile.CheckWallet | bot.py:335-375 | one wallet's turn logs `WalletActions`: nothing when unchanged, otherwise the fan-out and then the write; its row alone is refreshed; `users` is untouched |
| Reconcile.CheckWallets | bot.py:328-375 | the log is `PassActions` of the snapshot, every row ends with its fetched balance, `users` and the counter are untouched, the invariant holds, there is one outcome per attempt, and each row's address is written once if its balance changed and never otherwise |
| Reconcile.WriteCountConcat | bot.py:374 | counting writes distributes over concatenated logs |
| Reconcile.SendsOnlyNoWrites | bot.py:364-372 | the subscriber loop writes nothing |
| Reconcile.WalletWrites | bot.py:340-375 | one wallet's turn writes its own address once if it changed, and no address otherwise |
| Reconcile.PassWritesOnlySnapshot | bot.py:330-375 | a pass never writes an address outside its snapshot |
| Reconcile.DistinctAddressesInit | database.py:24 | a prefix of a snapshot with unique addresses has unique addresses |
| Reconcile.DistinctAddressesLast | database.py:24 | with unique addresses, no earlier wallet has the last one's address |
| Reconcile.PassWritesLast | bot.py:340-375 | the last wallet of a snapshot is written once if it changed, and not at all otherwise |
| Reconcile.PassWritesEarlier | bot.py:340-375 | the last wallet's turn does not write an earlier wallet's address |
| Reconcile.PassWritesOnce | bot.py:340-375 | with unique addresses, each changed wallet is written exactly once in a pass and an unchanged one never |
| Reconcile.ViewsDistinct | database.py:24 | the UNIQUE address column gives every snapshot distinct addresses |
| Reconcile.StorePassWritesOnce | bot.py:330-375 | a pass over the table writes each changed row's address exactly once and an unchanged row's never |
| Reconcile.QuietPass | bot.py:340 | when no balance changed, a pass sends nothing and writes nothing |
| Reconcile.WalletActionsOrder | bot.py:361-375 | for a changed wallet, every attempt comes before the single write and carries that wallet's notice |
| Reconcile.FanoutRecipients | bot.py:364-367 | the recipients are exactly the subscribers who qualify (a deposit, or an admin) |
| Reconcile.FanoutDeposit | bot.py:364-367 | a deposit is attempted to every subscriber, in list order |
| Reconcile.WalletRecipients | bot.py:340-372 | over a well-formed users table, an increase reaches every subscriber smallest id first, a decrease reaches exactly the subscribed admins, and no change reaches nobody |
| Reconcile.FailedFetchWritesZero | bot.py:150-152 | a failed request on a wallet holding funds is reported as a withdrawal, only to admins, and 0 is written |
| Reconcile.ExampleAdmins | bot.py:364-367 | in the example table, user 1 is an admin and users 2 and 3 are not |
| Reconcile.ExampleUsersFacts | database.py:153-157 | the example table is sorted and its subscribers are 1, 2 and 3 |
| Reconcile.Scenario | bot.py:328-375 | the worked example: 100 then 100 does nothing; 100 then 150 is a +50 notice to 1, 2 and 3; 150 then 120 is a -30 notice to 1 only |
| Reconcile.ExampleWithdrawalFanout | bot.py:364-367 | of subscribers 1, 2 and 3, a withdrawal reaches only the admin 1 |
| Reconcile.ScenarioWithdrawal | bot.py:364-367 | the recipients of the example withdrawal are exactly [1] |
| Chunking.PlaceAll | bot.py:175-183 | placing pieces never removes a message |
| Chunking.TotalChunks | bot.py:392-404 | `total_balance_handler` always sends at least one part |
| Chunking.ConcatAppend | bot.py:177-183 | appending a message appends its text to the concatenation |
| Chunking.ConcatExtendLast | bot.py:403 | extending the last message extends the concatenation likewise |
| Chunking.PlaceConcat | bot.py:180-183 | one placement appends the piece to the concatenation |
| Chunking.PlaceWithin | bot.py:180-183 | one placement of a piece within the threshold keeps every message within it |
| Chunking.PlaceKeepsFirst | bot.py:180-183 | one placement only ever extends the first message |
| Chunking.PlaceAllConcat | bot.py:177-183 | placing pieces preserves their concatenation |
| Chunking.PlaceAllKeepsEarlier | bot.py:177-183 | placing pieces never shortens the first message |
| Chunking.PlaceAllWithin | bot.py:180-183 | pieces within the threshold keep every message within it |
| Chunking.PlaceAllFits | bot.py:180-183 | pieces that fit together stay in one message |
| Chunking.BalanceMessages | bot.py:171-191 | the loop's messages are `BalanceChunks`; there is at least one and the first starts with the header; they concatenate to header, lines and total line in order; with every piece within 4000 no message exceeds 4000; a report that fits is one message |
| Chunking.BalanceChunksHeader | bot.py:171-172 | the first message starts with the header |
| Chunking.BalanceChunksConcat | bot.py:177-191 | the messages concatenate to header, lines and total line |
| Chunking.BalanceChunksWithin | bot.py:180-191 | pieces within the threshold give messages within it |
| Chunking.BalanceChunksFits | bot.py:188-191 | a report that fits is one message |
| Chunking.TotalMessages | bot.py:388-404 | the loop's parts are `TotalChunks`; the first starts with the header; the last ends with the total line; they concatenate in order; with pieces within 4000 every part but the last is within 4000 and the last exceeds it by at most the total line; a report whose lines fit is one part |
| Chunking.TotalChunksLast | bot.py:403-404 | the total line is appended to the last part |
| Chunking.TotalChunksHeader | bot.py:390 | the first part starts with the header |
| Chunking.TotalChunksConcat | bot.py:392-404 | the parts concatenate to header, lines and total line |
| Chunking.TotalChunksWithin | bot.py:397-404 | every part but the last is within the threshold, and the last exceeds it by at most the total line |
| Chunking.TotalChunksFits | bot.py:397-404 | when header and lines fit, the report is one part |
| Chunking.TotalLineMayExceedLimit | bot.py:403 | a header of 4000 characters and a one-character total line give a part over the threshold, although `balance_handler` keeps the same report within it |
| Text.WordLen | bot.py:419 | the first word's length, up to the first whitespace |
| Text.Split | bot.py:419 | every token is a nonempty run without whitespace; `SplitSpace` and `SplitWord` pin it down on every string |
| Text.SplitSpace | bot.py:419 | whitespace before the first token is dropped |
| Text.SplitWord | bot.py:419 | a word ended by whitespace or by the end is the first token, and splitting goes on after it |
| Text.SplitMax | bot.py:207 | at most `maxsplit + 1` parts, none empty and none starting with whitespace |
| Text.SplitUnwords | bot.py:419 | splitting words joined by spaces gives the words back |
| Text.SplitMaxFewWords | bot.py:207 | with no more words than splits allowed, `split(maxsplit=n)` equals `split()` |
| Text.SplitMaxManyWords | bot.py:207 | otherwise the first `n` parts are the first `n` words and the last part holds exactly the remaining words |
| Text.SplitMaxWord | bot.py:207 | a leading word and a space take one split |
| Text.SplitMaxAgrees | bot.py:207 | both cases together |
| Text.SplitMaxLastSuffix | bot.py:207 | the last part of `split(maxsplit=n)` is a suffix of the string, verbatim |
| Text.DecimalString | bot.py:487 | `str(n)` is a nonempty run of digits |
| Text.DecimalRoundTrip | bot.py:506 | `int(str(n)) == n` |
| Text.TrimStart | bot.py:506 | the whitespace `int()` skips before a literal: the result is a suffix of the string, what it drops is such whitespace, and it does not start with it |
| Text.TrimEnd | bot.py:506 | the whitespace `int()` skips after a literal: the result is a prefix of the string, what it drops is such whitespace, and it does not end with it |
| Text.DropUnderscores | bot.py:506 | the characters left are exactly those of the string other than `_` |
| Text.ParseIntDigits | bot.py:420-432 | a string `isdigit()` accepts is read by `int()` as its decimal value |
| Text.IntRoundTrip | bot.py:487-519 | `int(str(n)) == n` for every integer, negative ones included |
| Text.PlusRoundTrip | bot.py:506 | `int("+" + str(n)) == n` |
| Text.NegativeRoundTrip | bot.py:506 | `int("-" + str(n)) == -n` |
| Text.ParseLiteral | bot.py:506 | `int()` after stripping: whatever it accepts is an optional sign followed by digits and underscores, and a negative result has a minus sign |
| Text.ParseInt | bot.py:506 | whatever `int()` accepts holds only digits, underscores, signs and the whitespace `int()` skips |
| Text.StrippedAlphabet | bot.py:506 | the characters the stripping drops are the whitespace `int()` skips, so an accepted string has that alphabet |
| Text.SignedNumeral | bot.py:506 | a sign followed by a numeral is read as the numeral's digits, negated after a minus sign |
| Text.SignedLiteral | bot.py:506 | a `+` or `-` followed by decimal digits is read as the digits' value with that sign |
| Text.PaddedEnd | bot.py:506 | characters `int()` may accept, followed by the whitespace it skips, are all characters it may accept |
| Text.PaddedStart | bot.py:506 | the whitespace `int()` skips, followed by characters it may accept, are all characters it may accept |
| Text.ParseIntPadded | bot.py:506 | the whitespace `int()` skips (not U+001C to U+001F) around a literal does not change what it reads |
| Text.ParseIntRejects | bot.py:506 | a character other than a digit, `_`, a sign or the whitespace `int()` skips makes `int()` raise `ValueError` |
| Text.ParseIntKeepsSeparators | bot.py:506 | a separator U+001C before or U+001F after the digits makes `int()` raise `ValueError` |
| Text.TrimmedAlready | bot.py:506 | a string that neither starts nor ends with skipped whitespace is left as it is |
| Text.TrimStartSpaces | bot.py:506 | skipped whitespace in front is dropped whatever follows it |
| Text.TrimEndSpaces | bot.py:506 | skipped whitespace at the end is dropped whatever precedes it |
| Text.NumeralDigits | bot.py:506 | a numeral without its underscores is all digits |
| Text.DropUnderscoresDigits | bot.py:506 | a string of digits has no underscore to drop |
| Text.IntString | bot.py:487 | `str(n)` of any integer is one word |
| Text.WordLenOfWord | bot.py:419 | a word followed by whitespace or the end is measured whole |
| Text.SplitMaxSpace | bot.py:207 | leading whitespace does not use a split |
| Text.SplitMaxWordStep | bot.py:207 | a leading word is the first part and uses one split |
| Text.SplitMaxLastSuffixSpace | bot.py:207 | the suffix property when the string starts with whitespace |
| Text.SplitMaxLastSuffixWord | bot.py:207 | the suffix property when the string starts with a word |
| Text.DigitChar | bot.py:487 | the digit character of a value below 10 |
| Text.FieldLenNone | bot.py:296 | a string without the separator is one whole field |
| Text.FieldLenOf | bot.py:296 | a separator-free prefix followed by the separator is the first field's length |
| Text.SplitOnNone | bot.py:296 | a string without the separator splits into itself alone |
| Text.FieldLen | bot.py:296 | the first field ends at the first separator or at the end |
| Text.SplitOn | bot.py:296 | there is at least one field, exactly one iff the separator is absent, and no field holds the separator |
| Text.JoinSplitOn | bot.py:296 | joining the fields with the separator restores the string |
| Text.SplitOnField | bot.py:296 | a separator-free prefix and the separator form the first field |
| Commands.UserIdCommand | bot.py:414-432 | refused iff the caller is not an admin; accepted iff in addition there are exactly two tokens and the second is all digits; the accepted id is what `int()` reads from that token |
| Commands.UserIdCommandRoundTrip | bot.py:538-543 | an admin's `<command> <id>` is accepted with that id |
| Commands.UserIdCommandNeedsTwoTokens | bot.py:538-540 | any other number of tokens is a format error |
| Commands.ParseAddWallet | bot.py:203-229 | refused iff the caller is not an admin; a wallet iff there are at least three words; the name is the second word; the address is the rest without its leading whitespace, a verbatim suffix of the text whose words are the third word on |
| Commands.AddWalletRoundTrip | bot.py:207-229 | `<cmd> <name> <address>` yields that name and the address verbatim, spaces included |
| Commands.CallbackArgument | bot.py:296 | present iff the payload contains a colon, and then colon-free |
| Commands.CallbackArgumentRoundTrip | bot.py:292-296 | a colon-free argument after a colon-free prefix comes back whole |
| Commands.CallbackUserId | bot.py:506 | `IndexError` iff the payload has no colon; otherwise the id is what `int()` reads from the argument, or `ValueError` |
| Commands.CallbackUserIdRoundTrip | bot.py:487-519 | the `approve:<id>` and `reject:<id>` buttons carry their id back intact, negative ids included |
| Commands.CallbackUserIdPadded | bot.py:506 | an id after a space, as in `approve: 42`, is still read |
| Commands.CallbackUserIdSigned | bot.py:506 | an id with a plus sign, as in `approve:+42`, is still read |
| Commands.CallbackUserIdKeepsSeparators | bot.py:506 | a separator U+001C before the id, as in `approve:\x1c42`, is a `ValueError` |
| Commands.CallbackUserIdNotAnInteger | bot.py:506 | an argument with a letter, as in `approve:x`, is a `ValueError`, not a missing argument |
| Handlers.MainMenu | bot.py:49-94 | the last row is the subscription toggle; five rows for an admin, one otherwise |
| Handlers.MenuButtons | bot.py:49-94 | a non-admin sees only the toggle; an admin sees every other button and one toggle; the toggle offers to unsubscribe iff the user is subscribed |
| Handlers.BalanceListing | bot.py:156-169 | stopped iff `check_access` fails; an admin is listed every wallet and anyone else their own; "no wallets" exactly when that list is empty |
| Handlers.BalanceListingOwnOnly | bot.py:162-165 | a non-admin is shown one line per wallet of theirs, in the table's order (the positions `OwnedRows` gives), and nothing else |
| Handlers.TotalBalanceListing | bot.py:378-387 | stopped iff `check_access` fails; refused iff the user is not an admin; otherwise every wallet is listed |
| Handlers.SubscribeHandler | bot.py:456-462 | refused iff `check_access` fails; otherwise `add_subscriber` runs and the confirmation is sent |
| Handlers.AddWalletHandler | bot.py:199-236 | refused iff the caller is not an admin; the usage text iff there are fewer than three words; "already exists" iff the command is well formed and its address is taken; a new row owned by the caller only for a fresh address, and then the counter advances by one; otherwise `wallets` and the counter are unchanged |
| Handlers.DeleteButtonArgument | bot.py:270-296 | the delete button's payload yields its wallet's address |
| Handlers.DeleteCallback | bot.py:292-307 | as written, the callback deletes the caller's rows whose NAME equals the address from the payload; `users` and the counter are unchanged |
| Handlers.DeleteButtonMissesWallet | bot.py:292-307 | as written, a wallet named "main" at "TAddr1" survives its own delete button, and the callback reports failure |
| Handlers.DeleteCallbackByAddress | bot.py:292-307 | corrected, the callback deletes the caller's row with that address; `users` and the counter are unchanged |
| Handlers.DeleteButtonRemovesWallet | bot.py:270-307 | corrected, a wallet's button removes that wallet and keeps every other one |
| Database.Store.DeleteWalletAt | database.py:82-89 | the DELETE by owner and address the corrected callback needs: exactly the matching rows go, true iff one did |

## Left out

- HTTP and JSON in `get_usdt_balance` (`requests.get`, `raise_for_status`, `.json()`) are left out. A response is either a failure or an already-decoded token list. Malformed entries would raise `KeyError` or `ValueError`; no such entry is modelled.
- Floating-point arithmetic and `:.2f` formatting are left out. Balances are exact `real`s, and message texts are abstract strings. The float sum of the report totals is not modelled.
- The aiogram transport is left out: `send_message`, `answer`, `edit_text`, keyboards as objects, parse modes and logging. A send is the `Deliver` oracle, whose outcome is recorded but never inspected, as in the source.
- `scheduled_checker`'s endless loop with `asyncio.sleep(300)` and its `create_task` are timing and concurrency. One pass is modelled.
- Schema creation and migration are SQLite DDL: `init_db`, both `update_db_schema` and update_db.py. The users table is taken to already have `is_subscribed` with default 0. The legacy `subscribed` column is not modelled.
- Functions bot.py imports that database.py does not define are left out: `is_user_approved`, `approve_user`, `remove_user`, `remove_subscriber`, `is_user_subscribed`, `ensure_default_admin`, `get_wallets` and `get_pending_users`. Approval and subscription status are parameters instead. `/approve` and the approve/reject callbacks are modelled only up to parsing their id. `/unsubscribe`, `/start`, `/wallets` and `/pending_users` are not modelled.
- `set_admin_handler` after parsing is left out. It calls `is_user_exists`, which opens the undefined `DATABASE_PATH` and raises, so it cannot reach `add_admin`. `/start`'s two-argument call of the one-argument `add_user` is left out for the same reason.
- The handler actually registered for `/subscribe` is the earlier one (bot.py:310-326). The later definition lacks its decorator. The earlier one reads the `None` that `add_subscriber` returns as failure and answers "already subscribed". The model follows the module-level definition (bot.py:456-462).
- The duplicate `delete_wallet_callback` (bot.py:649-664) is identical to the first and is not modelled separately.
- The first definition of `get_subscribers` (database.py:118-123) is left out. It is redefined, so the last definition is modelled.
- Tables.Subscribers: SQL does not promise an order without ORDER BY. The model takes a scan in rowid order, so "smallest id first" describes the model rather than a guarantee of SQLite.
- A failed fetch is not skipped. The code returns 0 for it, and the model follows the code: a failed fetch reads as a withdrawal of everything, and 0 is written (`FailedFetchWritesZero`).
- Inside the subscriber loop, `is_admin` may raise a database error, which the `try` would swallow. Only the send's failure is modelled, as the `Deliver` oracle.
- Exceptions that abort a pass are left out. A token entry without `tokenName` or `balance`, or with a balance `int()` cannot read (bot.py:146-147), raises outside the `except` for `RequestException`. So does a database error from `get_all_wallets`, `get_subscribers` or `update_balance` (bot.py:330, 361, 374). Any of them ends the pass at that wallet. Since `scheduled_checker` (bot.py:448-450) has no `try`, it also ends the periodic task for good. The model's pass always runs to its end.
- Commands.UserIdCommand: `str.isdigit()` and `int()` are modelled on the ASCII digits only. Python accepts every Unicode decimal digit: `/approve ١٢٣` (Arabic-Indic digits) is accepted as user 123, where the model answers with the usage text. `isdigit()` also accepts digits such as `²` that `int()` rejects, so `/set_admin ²` raises `ValueError` at bot.py:432, where the model again answers with the usage text.
- Commands.CallbackUserId: `int()` is modelled over the ASCII digits only. An argument in other Unicode decimal digits, which Python reads as a number, is a `ValueError` in the model. The whitespace `int()` skips is modelled exactly, separators U+001C to U+001F included, which it does not skip.

## Findings

| source | as written | input that shows it | evidently intended | confidence | as-written member | corrected member |
|---|---|---|---|---|---|---|
| bot.py:292-298 | the delete button's payload carries the wallet's address, and the callback passes it to `delete_wallet`, which matches `name = ?` (database.py:82-89) | a wallet named "main" at address "TAddr1", owned by user 7; pressing its button deletes no row and reports failure | delete the pressed wallet, by owner and address | not executed | Handlers.DeleteButtonMissesWallet | Handlers.DeleteButtonRemovesWallet |
