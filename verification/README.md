# Fractional property marketplace — a Dafny model

This project models the core of a fractional real-estate investment app. Users browse
properties priced per square foot and buy a number of square feet ("shares") of one. A
purchase is recorded as a pending transaction, paid notionally in ETH at a fixed rate of
75 000 rupees per ETH. The portfolio page then shows the user's holdings and recent
transactions.

The model covers five parts of the app.

- **Tables.** The five MySQL tables are `users`, `properties`, `userWallets`,
  `userPropertyShares` and `transactions`. Each is a row datatype with its column
  defaults and its enum columns. Their text forms are parsed and printed (module
  `Schema`).
- **Database layer.** The store is a sequence of rows per table with an auto-increment
  counter each. Reads are `LIMIT 1` lookups and `WHERE` filters in storage order.
  Row order is the order rows were stored in, one choice among the orders the
  database may use (see "## Left out"). Inserts hand out the next id. Updates bump `updatedAt` only when a value actually
  changes, as `ON UPDATE CURRENT_TIMESTAMP` does (module `Db`).
- **User upsert.** The `INSERT … ON DUPLICATE KEY UPDATE` that signs users in is split
  into two steps. The first builds the insert values and the update set
  (`UserUpsert.BuildUpsert`). The second applies them to the store
  (`UserUpsert.ApplyUpsert`).
- **Request procedures.** The server's `properties`, `wallet`, `shares` and
  `transactions` procedures are modelled with the session user as a parameter (module
  `Routers`).
- **Client pages.**
  - The property page's investment panel: price arithmetic, the range check, the
    request it sends, the input clamp and the panel state (module `PropertyDetail`).
  - The marketplace's search and type filter and its card figures (module
    `Marketplace`).
  - The portfolio's totals, recent-transaction list and status label (module
    `Portfolio`).

The client arithmetic uses JavaScript numbers. These are modelled as
`JsNum = Finite(int) | NaN`, together with `parseInt` (radix 10), `toString`, `x || 0`,
ASCII `toLowerCase`/`toUpperCase` and `String.prototype.includes` (module `JsValues`).

Module `PurchaseFlow` follows one purchase from the page through `transactions.create`.
It also states what the design leaves open. Creating a transaction never touches
`soldShares`, the holdings table or anything else that reserves area. Two buyers can
therefore each be accepted for more than is available together. The server also
records amounts the page would refuse.

Two behaviours follow the code rather than the app's description of itself:

- A purchase stays a `pending` transaction, and no code path moves area from
  `properties.soldShares` into `userPropertyShares`.
- `transactions.updateStatus` accepts any of the three statuses from any authenticated
  caller, whatever the row's current status.

## Model

| member | source | states |
|---|---|---|
| Schema.ParseRole | drizzle/schema.ts:19 | accepts exactly `user` and `admin`; the role it returns prints back as the same text |
| Schema.ParsePropertyStatus | drizzle/schema.ts:42 | accepts exactly `available`, `sold_out` and `pending`; the status prints back as the same text |
| Schema.ParseTransactionType | drizzle/schema.ts:87 | accepts exactly `buy` and `sell`; the type prints back as the same text |
| Schema.ParseTransactionStatus | drizzle/schema.ts:93 | accepts exactly `pending`, `completed` and `failed`; the status prints back as the same text |
| Schema.EnumTextRoundTrip | drizzle/schema.ts:87-93 | printing any enum value and parsing the text gives the value back |
| Schema.NewProperty | drizzle/schema.ts:29-45 | a stored property has the insert's fields; omitted minShareSize, soldShares and status become 1, 0 and `available`; both timestamps are the insert time |
| Schema.NewWallet | drizzle/schema.ts:51-60 | a stored wallet defaults its balance and rupee balance to "0" and its crypto type to "ETH" |
| Schema.NewShare | drizzle/schema.ts:66-77 | a stored holding copies every field of the insert; an omitted purchase date becomes the insert time, as do both timestamps |
| Schema.NewTransaction | drizzle/schema.ts:83-96 | a stored transaction copies the insert; an omitted status becomes `pending` |
| Schema.PropertyDefaults | drizzle/schema.ts:37-42 | a property inserted with no minimum, sold area or status has minimum 1, nothing sold and status `available` |
| Schema.OversoldRowIsStorable | drizzle/schema.ts:38-39 | no constraint stops a property row from having more area sold than it has in total |
| Db.EmptyStoreValid | drizzle/schema.ts:13 | the empty database has fresh auto-increment counters and unique ids and openIds |
| Db.KeyedAppend | drizzle/schema.ts:30 | appending a row with the next auto-increment id keeps every id distinct and below the counter |
| Db.GetUserByOpenId | server/db.ts:80-90 | returns a user with that openId, or nothing exactly when no user has it |
| Db.GetPropertyById | server/db.ts:99-104 | returns a property with that id, or nothing exactly when no row has it |
| Db.CreateProperty | server/db.ts:106-111 | appends one property carrying the next id and the column defaults; nothing else changes; validity is kept |
| Db.GetUserWallet | server/db.ts:114-119 | returns a wallet of that user, or nothing exactly when the user has none |
| Db.ApplyWalletData | server/db.ts:126 | the address is replaced and each given optional field too; id, owner and creation time stay; `updatedAt` moves only when something changed |
| Db.UpdateUserWallets | server/db.ts:126 | every wallet of the user is updated, every other wallet is untouched, and no id changes |
| Db.CreateOrUpdateWallet | server/db.ts:121-131 | updates the user's existing wallets, or appends exactly one new wallet (the data with column defaults) when the user has none; other users' wallets and all other tables are unchanged; validity is kept |
| Db.GetUserPropertyShares | server/db.ts:134-138 | returns all and only the user's holdings, in storage order |
| Db.GetUserPropertyShare | server/db.ts:140-147 | returns a holding of that user in that property, or nothing exactly when there is none |
| Db.CreatePropertyShare | server/db.ts:149-154 | appends one holding with the next id, returns that id and advances only that table's counter; nothing else changes; validity is kept |
| Db.GetUserTransactions | server/db.ts:157-161 | returns all and only the user's transactions, in storage order |
| Db.CreateTransaction | server/db.ts:163-168 | appends one transaction with the next id and returns that id; nothing else changes; validity is kept |
| Db.UpdateTransactionStatus | server/db.ts:170-174 | only the row with that id gets the new status; `updatedAt` moves only if the status changed; other rows and tables are unchanged |
| UserUpsert.AssignTextFields | server/db.ts:33-49 | openId is inserted but never updated; a given name, email or login method goes into both the insert and the update, with null kept as null |
| UserUpsert.AssignRoleAndSignIn | server/db.ts:51-61 | a given sign-in time or role goes into both; with no role, the owner's openId gets `admin` in both |
| UserUpsert.BuildUpsert | server/db.ts:21-69 | fails exactly when openId is missing or empty; the insert always has a sign-in time (given or now); the update set is never empty, and falls back to the sign-in time |
| UserUpsert.InsertedUser | drizzle/schema.ts:8-23 | a new user row takes the written columns; the rest get their defaults: `null` text, role `user`, and the insert time for every timestamp |
| UserUpsert.UpdatedUser | server/db.ts:71-73 | an existing row takes each assigned column and keeps the others, including id and openId; `updatedAt` moves only when a value really changed |
| UserUpsert.ApplyUpsert | server/db.ts:71-73 | inserts `InsertedUser` for a new openId; otherwise the row with that openId becomes `UpdatedUser` of itself; other users and tables are unchanged |
| UserUpsert.InsertPlanTakesInput | server/db.ts:33-65 | the insert row built from the input stores each defined text field (`null` otherwise), the given role, else `admin` for the owner, else `user`, and the given sign-in time or now |
| UserUpsert.NewUserIsInserted | server/db.ts:21-73 | a first sign-in appends exactly one row with the next id whose columns are the input's fields over the defaults, with the owner getting `admin` when no role is given |
| UserUpsert.UpdatePlanTakesInput | server/db.ts:41-69 | the update set rewrites each defined text field, the given role (or `admin` for the owner) and the given sign-in time (or now when nothing else is written) and keeps every other column |
| UserUpsert.ExistingUserIsUpdated | server/db.ts:21-73 | a returning sign-in rewrites that user's row in place with the input's fields, the owner's `admin` role and the sign-in time as above; id, openId and creation time stay, and `updatedAt` moves only on a change |
| UserUpsert.NewUserDefaultsToUserRole | drizzle/schema.ts:19 | a first sign-in by a non-owner that names no role stores role `user`, `null` for undefined text fields, and sign-in time now unless one is given |
| UserUpsert.ApplyUpsertValid | drizzle/schema.ts:15 | the upsert keeps ids and openIds unique |
| UserUpsert.UpsertUser | server/db.ts:21-78 | rejects a missing or empty openId; otherwise a user with that openId exists afterwards, at most one row is added and it carries that openId, no other user changes, and validity is kept |
| Routers.PropertiesList | server/routers.ts:31-33 | lists as many rows as the table holds, each one stored, and includes every property `properties.get` can return |
| Routers.PropertiesGet | server/routers.ts:34-38 | the property with the requested id, or `undefined` exactly when there is none |
| Routers.WalletGet | server/routers.ts:41-45 | only ever the caller's own wallet |
| Routers.SharesList | server/routers.ts:47-51 | all and only the caller's holdings |
| Routers.TransactionsList | server/routers.ts:54-56 | all and only the caller's transactions |
| Routers.TransactionsCreate | server/routers.ts:57-77 | appends exactly one `buy`/`pending` row owned by the caller with the input copied; the new id is fresh; only the transactions counter advances and no other table or counter changes |
| Routers.TransactionsUpdateStatus | server/routers.ts:78-85 | rejects any text outside the three statuses; otherwise the named row's status becomes the input, its other columns stay, its `updatedAt` moves only if the status changed, and nothing else changes |
| Routers.CreateIsolatesUsers | server/routers.ts:54-77 | a create adds the new row to its caller's list and leaves every other user's list as it was |
| Routers.UpdateStatusKeepsListLengths | server/routers.ts:78-85 | a status update never changes how many transactions any user sees |
| Routers.NoTerminalStatus | server/routers.ts:78-85 | a completed transaction can be set back to pending |
| Routers.NoHoldingsListsNothing | server/properties.test.ts:111-119 | a user without holdings gets an empty holdings list |
| JsValues.ParseIntOfToString | client/src/pages/PropertyDetail.tsx:85 | `parseInt` reads back exactly the number `toString` wrote, `NaN` included |
| JsValues.ToStringOfParseInt | client/src/pages/Portfolio.tsx:184 | a canonical decimal numeral parses to its value and prints back as the same text |
| JsValues.IncludesAtOffset | client/src/pages/Marketplace.tsx:21-22 | `includes` holds exactly when the term occurs at some offset |
| PropertyDetail.InvestmentAmount | client/src/pages/PropertyDetail.tsx:69-70 | the amount is a number exactly when the price parses, and is then the area times the price |
| PropertyDetail.AvailableShares | client/src/pages/PropertyDetail.tsx:72 | available area plus sold area is the total area, negative when oversold |
| PropertyDetail.HandleInvest | client/src/pages/PropertyDetail.tsx:74-88 | sends a request exactly when the minimum ≤ area ≤ available; the request carries the property, area, crypto text and rate "75000"; its rupee text is `toString` of area × price and parses back to that amount |
| PropertyDetail.NothingFitsBelowMinimum | client/src/pages/PropertyDetail.tsx:75-78 | when less than the minimum is available, every amount is refused |
| PropertyDetail.ClampShares | client/src/pages/PropertyDetail.tsx:208 | the input becomes the larger of the minimum and the typed number, with unparsable text counting as 0 |
| PropertyDetail.Edit | client/src/pages/PropertyDetail.tsx:203-211 | an edit changes only the amount, and only while the input is shown and enabled |
| PropertyDetail.Submit | client/src/pages/PropertyDetail.tsx:230-234 | a request goes out exactly when the panel is enabled and the amount is in range, and processing starts; otherwise nothing changes |
| PropertyDetail.Settle | client/src/pages/PropertyDetail.tsx:89-101 | settling stops processing, and marks the purchase complete on success |
| PropertyDetail.ResetAfterSuccess | client/src/pages/PropertyDetail.tsx:93-96 | the success timer returns to the input with the amount reset to 1 |
| PropertyDetail.FormInvariantPreserved | client/src/pages/PropertyDetail.tsx:16 | every panel transition keeps the amount at 1 or at least the minimum |
| PropertyDetail.InitialAmountCanBeRefused | client/src/pages/PropertyDetail.tsx:95 | when the minimum exceeds 1, confirming the initial or reset amount sends nothing |
| PropertyDetail.EditNeverBelowMinimum | client/src/pages/PropertyDetail.tsx:208 | after an enabled edit the amount is at least the minimum |
| Marketplace.FilterProperties | client/src/pages/Marketplace.tsx:20-25 | keeps exactly the properties matching both the search (case-insensitive, title or location) and the type, in order and each as often as it occurs; no data gives an empty list |
| Marketplace.FilterIdempotent | client/src/pages/Marketplace.tsx:20-25 | filtering the shown list again shows the same list |
| Marketplace.EmptySearchKeepsType | client/src/pages/Marketplace.tsx:21-23 | an empty search filters by type alone |
| Marketplace.EverythingShownByDefault | client/src/pages/Marketplace.tsx:13-14 | the initial search and type show every property |
| Marketplace.SearchIgnoresCase | client/src/pages/Marketplace.tsx:21-22 | a term and its lower-case form select the same properties |
| Marketplace.CardAvailable | client/src/pages/Marketplace.tsx:111 | a card's available area equals the property page's |
| Marketplace.MinInvestment | client/src/pages/Marketplace.tsx:140 | a card's minimum investment is what the property page would charge for the minimum area |
| Portfolio.TotalInvested | client/src/pages/Portfolio.tsx:37 | the sum of the holdings' amounts when all parse; 0 when any does not, or when there is no data |
| Portfolio.FoldNumsIsSum | client/src/pages/Portfolio.tsx:37 | a running JavaScript sum is a number exactly when every term is, and is then the integer sum |
| Portfolio.TotalShares | client/src/pages/Portfolio.tsx:38 | the sum of the area owned over all holdings, 0 with no data |
| Portfolio.PropertiesOwned | client/src/pages/Portfolio.tsx:93 | the number of holding rows, 0 with no data |
| Portfolio.RecentTransactions | client/src/pages/Portfolio.tsx:175 | the first ten transactions, or all when fewer, in order |
| Portfolio.Capitalize | client/src/pages/Portfolio.tsx:190 | upper-cases the first character and keeps the rest |
| Portfolio.CapitalizeKeepsLowerCase | client/src/pages/Portfolio.tsx:190 | capitalising changes nothing but the case of the first letter |
| Portfolio.StatusLabel | client/src/pages/Portfolio.tsx:190 | the label lower-cases back to the stored status |
| Portfolio.StatusLabels | client/src/pages/Portfolio.tsx:190 | the labels are "Pending", "Completed" and "Failed" |
| Portfolio.StatusLabelInjective | client/src/pages/Portfolio.tsx:190 | no two statuses share a label |
| PurchaseFlow.ClaimedAfterCreate | server/routers.ts:65-76 | a new transaction adds its area to the claims on its own property and to no other |
| PurchaseFlow.PurchaseIsRecorded | client/src/pages/PropertyDetail.tsx:82-88 | a confirmed purchase appears last in the buyer's list as a pending buy of the chosen area at the shown price; the property and the buyer's holdings are unchanged |
| PurchaseFlow.Oversell | server/routers.ts:57-77 | two purchases within what the page shows as available are both accepted; the first changes nothing a reload of the property would show; the claims grow by both, past what was available when the two exceed it together |
| PurchaseFlow.ServerAcceptsWhatThePageRefuses | server/routers.ts:58-64 | an area below the minimum, zero or negative included, is refused by the page, yet the server appends one row for the caller and that property carrying exactly that area |

## Left out

- Database unavailability: every `db.ts` function falls back to `undefined` or `[]`
  when no connection exists. The model always has a database. Connection set-up and
  logging are left out.
- Authentication, sessions, cookies and `auth.me`/`auth.logout`: a protected procedure
  receives the session user as `Routers.Ctx`.
- `Wallet.tsx`, `Home.tsx`, `App.tsx` and the seed script are not part of this model.
  No procedure exposes `createOrUpdateWallet`; the model has it as `Db.CreateOrUpdateWallet`.
- Floating point: the crypto amount `(amount / 75000).toFixed(6)` and the percentages
  sold are left out. The crypto amount enters the request as opaque text.
- JavaScript numbers are unbounded integers here. Precision loss above 2^53 and the
  exponent notation of `toString` for large values are not modelled.
- `parseInt`: the `0x` prefix and whitespace outside ASCII and NBSP are not modelled.
- Case mapping: `toLowerCase`/`toUpperCase` act on ASCII letters only.
- `upsertUser` reads the clock twice (insert value and update fallback). The model uses
  one instant `now` for both.
- Unique-index violations on `walletAddress` and `transactionHash` are not modelled.
  Explicit ids in inserts are not modelled.
- Auto-increment on upsert: InnoDB also allocates an id for an
  `INSERT … ON DUPLICATE KEY UPDATE` that ends up updating. The model's counter advances
  only when a row is inserted, so later user ids may be smaller than the database's.
  Ids stay unique and increasing either way.
- Column widths: `int` columns are 32-bit signed and `varchar` columns are 32 to 320
  characters wide. MySQL in strict mode rejects values outside these. The model stores
  any integer and any string, so `Routers.TransactionsCreate` and
  `PurchaseFlow.ServerAcceptsWhatThePageRefuses` also record values the database would
  reject with an error.
- Collation: `eq(...)` and the unique index on `openId` compare under the column
  collation, which the schema leaves to the server default. That default is
  case-insensitive on MySQL 8. `Db.GetUserByOpenId`, `Db.UniqueOpenIds` and
  `UserUpsert.ApplyUpsert` compare `openId`s as exact strings.
- Row order: no query has `ORDER BY`. The model fixes one order, the order rows were
  stored in, for the row a `LIMIT 1` query returns (`Db.GetUserByOpenId`,
  `Db.GetPropertyById`, `Db.GetUserWallet`, `Db.GetUserPropertyShare`), for list order,
  and for the ten rows `Portfolio.RecentTransactions` shows. The database promises none
  of these orders.
- Timestamp precision: `timestamp` columns keep whole seconds. `Schema.Timestamp` is an
  abstract instant with no rounding.
- Db.UpdateTransactionStatus: takes a typed status, so the unchecked `as any` cast for
  text outside the enum is handled by the procedure's input validator
  (`Routers.TransactionsUpdateStatus`) rather than by MySQL.
- Rendering and toasts: layout, colours, loading spinners and the date formatting are
  left out. The three-second timer is modelled only as the `ResetAfterSuccess`
  transition, not as time.
- Concurrency: requests are applied one after another. `PurchaseFlow.Oversell` shows the
  oversell even without interleaving.
- `properties.list` returns the whole table (`Db.GetAllProperties`). Its contract,
  `Routers.PropertiesList`, says every property `properties.get` can return is listed.
