/**
 The data-access layer over an in-memory store: one sequence of rows per table
 (in storage order) and one auto-increment counter per table. Every write takes
 the current time as a parameter and returns the updated store.
 A single-row query (`... LIMIT 1` and `result[0]`) returns the first matching
 row in storage order, or `None` for JavaScript's `undefined`.
 */
module Db {
  import opened Wrappers
  import opened Schema
  import Seqs

  datatype Store = Store(
    users: seq<UserRow>, nextUserId: int,
    properties: seq<PropertyRow>, nextPropertyId: int,
    wallets: seq<WalletRow>, nextWalletId: int,
    shares: seq<ShareRow>, nextShareId: int,
    transactions: seq<TransactionRow>, nextTransactionId: int)

  /** A fresh database: empty tables whose auto-increment counters start at 1. */
  const EmptyStore := Store([], 1, [], 1, [], 1, [], 1, [], 1)

  function UserKey(u: UserRow): int { u.id }
  function PropertyKey(p: PropertyRow): int { p.id }
  function WalletKey(w: WalletRow): int { w.id }
  function ShareKey(s: ShareRow): int { s.id }
  function TransactionKey(t: TransactionRow): int { t.id }

  /** Primary keys are distinct and were all handed out by the table's counter. */
  ghost predicate Keyed<T>(rows: seq<T>, key: T -> int, next: int) {
    && next >= 1
    && (forall i :: 0 <= i < |rows| ==> 1 <= key(rows[i]) < next)
    && (forall i, j :: 0 <= i < j < |rows| ==> key(rows[i]) != key(rows[j]))
  }

  /** `users.openId` is a unique column. */
  ghost predicate UniqueOpenIds(users: seq<UserRow>) {
    forall i, j :: 0 <= i < j < |users| ==> users[i].openId != users[j].openId
  }

  /** The constraints the database itself enforces on every table. */
  ghost predicate Valid(s: Store) {
    && Keyed(s.users, UserKey, s.nextUserId)
    && UniqueOpenIds(s.users)
    && Keyed(s.properties, PropertyKey, s.nextPropertyId)
    && Keyed(s.wallets, WalletKey, s.nextWalletId)
    && Keyed(s.shares, ShareKey, s.nextShareId)
    && Keyed(s.transactions, TransactionKey, s.nextTransactionId)
  }

  lemma EmptyStoreValid()
    ensures Valid(EmptyStore)
  {
  }

  /** Appending a row keyed by the counter, then advancing the counter, keeps a table keyed. */
  lemma {:induction false} KeyedAppend<T>(rows: seq<T>, key: T -> int, next: int, row: T)
    ensures Keyed(rows, key, next) && key(row) == next ==> Keyed(rows + [row], key, next + 1)
  {
    if Keyed(rows, key, next) && key(row) == next {
      var r := rows + [row];
      forall i, j | 0 <= i < j < |r|
        ensures key(r[i]) != key(r[j])
      {
        if j == |rows| {
          assert key(r[i]) < next;
        } else {
          assert r[i] == rows[i] && r[j] == rows[j];
        }
      }
    }
  }

  // ---------------------------------------------------------------- users

  /** `getUserByOpenId`. */
  function GetUserByOpenId(s: Store, openId: string): (r: Option<UserRow>)
    ensures r.Some? ==> r.value in s.users && r.value.openId == openId
    ensures r.None? <==> forall i :: 0 <= i < |s.users| ==> s.users[i].openId != openId
  {
    Seqs.FindFirst(s.users, (u: UserRow) => u.openId == openId)
  }

  // ----------------------------------------------------------- properties

  /** `getAllProperties`: every row, in storage order. */
  function GetAllProperties(s: Store): seq<PropertyRow> {
    s.properties
  }

  /** `getPropertyById`: the row with that id, or `None` when there is none. */
  function GetPropertyById(s: Store, id: int): (r: Option<PropertyRow>)
    ensures r.Some? ==> r.value in s.properties && r.value.id == id
    ensures r.None? <==> forall i :: 0 <= i < |s.properties| ==> s.properties[i].id != id
  {
    Seqs.FindFirst(s.properties, (p: PropertyRow) => p.id == id)
  }

  /** `createProperty`: one row with the next id and the column defaults, appended. */
  function CreateProperty(s: Store, ins: PropertyInsert, now: Timestamp): (r: Store)
    ensures r.properties == s.properties + [NewProperty(ins, s.nextPropertyId, now)]
    ensures r.nextPropertyId == s.nextPropertyId + 1
    ensures r.(properties := s.properties, nextPropertyId := s.nextPropertyId) == s
    ensures Valid(s) ==> Valid(r)
  {
    var p := NewProperty(ins, s.nextPropertyId, now);
    var r := s.(properties := s.properties + [p], nextPropertyId := s.nextPropertyId + 1);
    KeyedAppend(s.properties, PropertyKey, s.nextPropertyId, p);
    r
  }

  // -------------------------------------------------------------- wallets

  /** The columns `createOrUpdateWallet` is given: everything but `userId`; `None` is `undefined`. */
  datatype WalletData = WalletData(
    walletAddress: string,
    balance: Option<string>,
    balanceInRupees: Option<string>,
    cryptoType: Option<string>)

  /** What `createOrUpdateWallet` returns: the row as it was before the update, or the insert's id. */
  datatype WalletWrite = Updated(previous: WalletRow) | Inserted(insertId: int)

  /** `getUserWallet`: the first wallet of the user, or `None`. */
  function GetUserWallet(s: Store, userId: int): (r: Option<WalletRow>)
    ensures r.Some? ==> r.value in s.wallets && r.value.userId == userId
    ensures r.None? <==> forall i :: 0 <= i < |s.wallets| ==> s.wallets[i].userId != userId
  {
    Seqs.FindFirst(s.wallets, (w: WalletRow) => w.userId == userId)
  }

  /**
   `UPDATE userWallets SET data`: the defined columns of `data` are written; `updatedAt`
   moves to `now` only when some column actually changes (`ON UPDATE CURRENT_TIMESTAMP`).
   */
  function ApplyWalletData(w: WalletRow, data: WalletData, now: Timestamp): (r: WalletRow)
    ensures r.id == w.id && r.userId == w.userId && r.createdAt == w.createdAt
    ensures r.walletAddress == data.walletAddress
    ensures data.balance.Some? ==> r.balance == data.balance.value
    ensures data.balance.None? ==> r.balance == w.balance
    ensures data.balanceInRupees.Some? ==> r.balanceInRupees == data.balanceInRupees.value
    ensures data.balanceInRupees.None? ==> r.balanceInRupees == w.balanceInRupees
    ensures data.cryptoType.Some? ==> r.cryptoType == data.cryptoType.value
    ensures data.cryptoType.None? ==> r.cryptoType == w.cryptoType
    ensures r.updatedAt == (if r.(updatedAt := w.updatedAt) == w then w.updatedAt else now)
  {
    var written := w.(
      walletAddress := data.walletAddress,
      balance := data.balance.GetOr(w.balance),
      balanceInRupees := data.balanceInRupees.GetOr(w.balanceInRupees),
      cryptoType := data.cryptoType.GetOr(w.cryptoType));
    if written == w then w else written.(updatedAt := now)
  }

  /** `UPDATE userWallets SET data WHERE userId = ?`: every wallet row of the user is written. */
  function UpdateUserWallets(ws: seq<WalletRow>, userId: int, data: WalletData, now: Timestamp): (r: seq<WalletRow>)
    ensures |r| == |ws|
    ensures forall i :: 0 <= i < |ws| && ws[i].userId == userId ==> r[i] == ApplyWalletData(ws[i], data, now)
    ensures forall i :: 0 <= i < |ws| && ws[i].userId != userId ==> r[i] == ws[i]
    ensures forall i :: 0 <= i < |ws| ==> r[i].id == ws[i].id
  {
    seq(|ws|, i requires 0 <= i < |ws| =>
      if ws[i].userId == userId then ApplyWalletData(ws[i], data, now) else ws[i])
  }

  /** Rewriting rows in place without touching their keys keeps a table keyed. */
  lemma KeyedSameKeys<T>(rows: seq<T>, rows': seq<T>, key: T -> int, next: int)
    requires |rows'| == |rows| && forall i :: 0 <= i < |rows| ==> key(rows'[i]) == key(rows[i])
    ensures Keyed(rows, key, next) ==> Keyed(rows', key, next)
  {
    if Keyed(rows, key, next) {
      forall i, j | 0 <= i < j < |rows'|
        ensures key(rows'[i]) != key(rows'[j])
      {
        assert key(rows[i]) != key(rows[j]);
      }
    }
  }

  /**
   `createOrUpdateWallet`: when the user already has a wallet, every wallet row of that
   user is updated and the first one is returned as it was; otherwise one row is inserted.
   */
  function CreateOrUpdateWallet(s: Store, userId: int, data: WalletData, now: Timestamp): (r: (Store, WalletWrite))
    ensures GetUserWallet(s, userId).Some? ==>
      && r.1 == Updated(GetUserWallet(s, userId).value)
      && |r.0.wallets| == |s.wallets| && r.0.nextWalletId == s.nextWalletId
      && (forall i :: 0 <= i < |s.wallets| && s.wallets[i].userId == userId ==>
            r.0.wallets[i] == ApplyWalletData(s.wallets[i], data, now))
    ensures GetUserWallet(s, userId).None? ==>
      && r.1 == Inserted(s.nextWalletId)
      && |r.0.wallets| == |s.wallets| + 1 && r.0.nextWalletId == s.nextWalletId + 1
      && r.0.wallets == s.wallets + [NewWallet(
           WalletInsert(userId, data.walletAddress, data.balance, data.balanceInRupees, data.cryptoType),
           s.nextWalletId, now)]
      && r.0.wallets[|s.wallets|].userId == userId
      && r.0.wallets[|s.wallets|].walletAddress == data.walletAddress
    ensures forall i :: 0 <= i < |s.wallets| && s.wallets[i].userId != userId ==> r.0.wallets[i] == s.wallets[i]
    ensures r.0.(wallets := s.wallets, nextWalletId := s.nextWalletId) == s
    ensures Valid(s) ==> Valid(r.0)
  {
    match GetUserWallet(s, userId)
    case Some(existing) =>
      var ws := UpdateUserWallets(s.wallets, userId, data, now);
      KeyedSameKeys(s.wallets, ws, WalletKey, s.nextWalletId);
      (s.(wallets := ws), Updated(existing))
    case None =>
      var w := NewWallet(WalletInsert(userId, data.walletAddress, data.balance, data.balanceInRupees, data.cryptoType),
                         s.nextWalletId, now);
      KeyedAppend(s.wallets, WalletKey, s.nextWalletId, w);
      (s.(wallets := s.wallets + [w], nextWalletId := s.nextWalletId + 1), Inserted(s.nextWalletId))
  }

  // --------------------------------------------------------------- shares

  /** `getUserPropertyShares`: exactly the holdings of the user, in storage order. */
  function GetUserPropertyShares(s: Store, userId: int): (r: seq<ShareRow>)
    ensures forall i :: 0 <= i < |r| ==> r[i] in s.shares && r[i].userId == userId
    ensures forall i :: 0 <= i < |s.shares| && s.shares[i].userId == userId ==> s.shares[i] in r
    ensures Seqs.IsSubsequence(r, s.shares)
  {
    Seqs.Filter(s.shares, (h: ShareRow) => h.userId == userId)
  }

  /** `getUserPropertyShare`: the first holding matching both the user and the property. */
  function GetUserPropertyShare(s: Store, userId: int, propertyId: int): (r: Option<ShareRow>)
    ensures r.Some? ==> r.value in s.shares && r.value.userId == userId && r.value.propertyId == propertyId
    ensures r.None? <==>
      forall i :: 0 <= i < |s.shares| ==> !(s.shares[i].userId == userId && s.shares[i].propertyId == propertyId)
  {
    Seqs.FindFirst(s.shares, (h: ShareRow) => h.userId == userId && h.propertyId == propertyId)
  }

  /** `createPropertyShare`: one row appended; returns the insert's id. */
  function CreatePropertyShare(s: Store, ins: ShareInsert, now: Timestamp): (r: (Store, int))
    ensures r.0.shares == s.shares + [NewShare(ins, s.nextShareId, now)] && r.1 == s.nextShareId
    ensures r.0.nextShareId == s.nextShareId + 1
    ensures r.0.(shares := s.shares, nextShareId := s.nextShareId) == s
    ensures Valid(s) ==> Valid(r.0)
  {
    var h := NewShare(ins, s.nextShareId, now);
    KeyedAppend(s.shares, ShareKey, s.nextShareId, h);
    (s.(shares := s.shares + [h], nextShareId := s.nextShareId + 1), s.nextShareId)
  }

  // --------------------------------------------------------- transactions

  /** `getUserTransactions`: exactly the transactions of the user, in storage order. */
  function GetUserTransactions(s: Store, userId: int): (r: seq<TransactionRow>)
    ensures forall i :: 0 <= i < |r| ==> r[i] in s.transactions && r[i].userId == userId
    ensures forall i :: 0 <= i < |s.transactions| && s.transactions[i].userId == userId ==> s.transactions[i] in r
    ensures Seqs.IsSubsequence(r, s.transactions)
  {
    Seqs.Filter(s.transactions, (t: TransactionRow) => t.userId == userId)
  }

  /** `createTransaction`: one row with the next id appended; returns the insert's id. */
  function CreateTransaction(s: Store, ins: TransactionInsert, now: Timestamp): (r: (Store, int))
    ensures r.0.transactions == s.transactions + [NewTransaction(ins, s.nextTransactionId, now)]
    ensures r.1 == s.nextTransactionId && r.0.nextTransactionId == s.nextTransactionId + 1
    ensures r.0.(transactions := s.transactions, nextTransactionId := s.nextTransactionId) == s
    ensures Valid(s) ==> Valid(r.0)
  {
    var t := NewTransaction(ins, s.nextTransactionId, now);
    KeyedAppend(s.transactions, TransactionKey, s.nextTransactionId, t);
    (s.(transactions := s.transactions + [t], nextTransactionId := s.nextTransactionId + 1), s.nextTransactionId)
  }

  /** `SET status = ...` on one row; `updatedAt` follows only a real change of value. */
  function SetStatus(t: TransactionRow, status: TransactionStatus, now: Timestamp): TransactionRow {
    if t.status == status then t else t.(status := status, updatedAt := now)
  }

  /**
   `updateTransactionStatus`: the row with that id gets the new status, whatever its
   current status; no other row and no other column changes.
   */
  function UpdateTransactionStatus(s: Store, transactionId: int, status: TransactionStatus, now: Timestamp): (r: Store)
    ensures |r.transactions| == |s.transactions|
    ensures forall i :: 0 <= i < |s.transactions| && s.transactions[i].id != transactionId ==>
      r.transactions[i] == s.transactions[i]
    ensures forall i :: 0 <= i < |s.transactions| && s.transactions[i].id == transactionId ==>
      && r.transactions[i].status == status
      && r.transactions[i].(updatedAt := s.transactions[i].updatedAt) == s.transactions[i].(status := status)
      && (s.transactions[i].status == status ==> r.transactions[i] == s.transactions[i])
      && (s.transactions[i].status != status ==> r.transactions[i].updatedAt == now)
    ensures r.(transactions := s.transactions) == s
    ensures Valid(s) ==> Valid(r)
  {
    var txs := seq(|s.transactions|, i requires 0 <= i < |s.transactions| =>
      if s.transactions[i].id == transactionId then SetStatus(s.transactions[i], status, now) else s.transactions[i]);
    assert forall i :: 0 <= i < |txs| ==> txs[i].id == s.transactions[i].id;
    s.(transactions := txs)
  }
}
