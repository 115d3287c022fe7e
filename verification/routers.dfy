/**
 The request procedures of the server (`properties`, `wallet`, `shares`, `transactions`)
 as functions of the store. A protected procedure receives the session user as `Ctx`;
 the authentication that produces it is outside the model.
 */
module Routers {
  import opened Wrappers
  import opened Schema
  import opened Db
  import Seqs

  /** The authenticated caller of a protected procedure. */
  datatype Ctx = Ctx(userId: int)

  /** The input of `transactions.create`, as its validator accepts it. */
  datatype CreateInput = CreateInput(
    propertyId: int,
    sharesAmount: int,
    amountInRupees: string,
    cryptoAmount: string,
    exchangeRate: string)

  /** The input of `transactions.updateStatus`; `status` is the raw text the client sent. */
  datatype UpdateStatusInput = UpdateStatusInput(transactionId: int, status: string)

  /** The validator's rejection of a status outside `pending`/`completed`/`failed`. */
  datatype BadRequest = StatusNotInEnum(status: string)

  /** `properties.list`. */
  function PropertiesList(s: Store): (r: seq<PropertyRow>)
    ensures |r| == |s.properties|
    ensures forall i :: 0 <= i < |r| ==> r[i] in s.properties
    ensures forall id :: PropertiesGet(s, id).Some? ==> PropertiesGet(s, id).value in r
  {
    GetAllProperties(s)
  }

  /** `properties.get`: the property with that id, or `None` (`undefined`) when no row has it. */
  function PropertiesGet(s: Store, id: int): (r: Option<PropertyRow>)
    ensures r.Some? ==> r.value in s.properties && r.value.id == id
    ensures r.None? <==> forall i :: 0 <= i < |s.properties| ==> s.properties[i].id != id
  {
    GetPropertyById(s, id)
  }

  /** `wallet.get`: a wallet of the caller, never anyone else's. */
  function WalletGet(s: Store, ctx: Ctx): (r: Option<WalletRow>)
    ensures r.Some? ==> r.value in s.wallets && r.value.userId == ctx.userId
    ensures r.None? <==> forall i :: 0 <= i < |s.wallets| ==> s.wallets[i].userId != ctx.userId
  {
    GetUserWallet(s, ctx.userId)
  }

  /** `shares.list`: all and only the caller's holdings. */
  function SharesList(s: Store, ctx: Ctx): (r: seq<ShareRow>)
    ensures forall i :: 0 <= i < |r| ==> r[i] in s.shares && r[i].userId == ctx.userId
    ensures forall i :: 0 <= i < |s.shares| && s.shares[i].userId == ctx.userId ==> s.shares[i] in r
    ensures Seqs.IsSubsequence(r, s.shares)
  {
    GetUserPropertyShares(s, ctx.userId)
  }

  /** `transactions.list`: all and only the caller's transactions. */
  function TransactionsList(s: Store, ctx: Ctx): (r: seq<TransactionRow>)
    ensures forall i :: 0 <= i < |r| ==> r[i] in s.transactions && r[i].userId == ctx.userId
    ensures forall i :: 0 <= i < |s.transactions| && s.transactions[i].userId == ctx.userId ==> s.transactions[i] in r
    ensures Seqs.IsSubsequence(r, s.transactions)
  {
    GetUserTransactions(s, ctx.userId)
  }

  /** The row `transactions.create` asks the database to insert. */
  function CreateRow(ctx: Ctx, input: CreateInput): TransactionInsert {
    TransactionInsert(
      ctx.userId, input.propertyId, Buy, input.sharesAmount, input.amountInRupees,
      input.cryptoAmount, input.exchangeRate, None, Some(TransactionStatus.Pending))
  }

  /**
   `transactions.create`: appends exactly one `buy`/`pending` row owned by the caller with
   the input copied verbatim, and returns its id. Nothing is checked against the property:
   no other table changes, so neither `soldShares` nor any holding moves.
   */
  function TransactionsCreate(s: Store, ctx: Ctx, input: CreateInput, now: Timestamp): (r: (Store, int))
    ensures |r.0.transactions| == |s.transactions| + 1
    ensures r.0.transactions[..|s.transactions|] == s.transactions
    ensures var t := r.0.transactions[|s.transactions|];
      && t.id == r.1 && t.userId == ctx.userId
      && t.transactionType == Buy && t.status == TransactionStatus.Pending
      && t.propertyId == input.propertyId && t.sharesAmount == input.sharesAmount
      && t.amountInRupees == input.amountInRupees && t.cryptoAmount == input.cryptoAmount
      && t.exchangeRate == input.exchangeRate && t.transactionHash.None?
    ensures r.0.(transactions := s.transactions, nextTransactionId := s.nextTransactionId) == s
    ensures r.0.nextTransactionId == s.nextTransactionId + 1
    ensures Valid(s) ==> Valid(r.0) && forall i :: 0 <= i < |s.transactions| ==> s.transactions[i].id != r.1
  {
    var r := CreateTransaction(s, CreateRow(ctx, input), now);
    assert r.0.transactions[..|s.transactions|] == s.transactions;
    r
  }

  /**
   `transactions.updateStatus`: any of the three statuses is accepted whatever the row's
   current status, and for any caller; any other text is rejected by the input validator.
   */
  function TransactionsUpdateStatus(s: Store, input: UpdateStatusInput, now: Timestamp): (r: Result<Store, BadRequest>)
    ensures r.Failure? <==> input.status != "pending" && input.status != "completed" && input.status != "failed"
    ensures r.Success? ==> |r.value.transactions| == |s.transactions|
    ensures r.Success? ==> forall i :: 0 <= i < |s.transactions| ==>
      if s.transactions[i].id == input.transactionId
      then
        && TransactionStatusText(r.value.transactions[i].status) == input.status
        && r.value.transactions[i].(status := s.transactions[i].status, updatedAt := s.transactions[i].updatedAt)
             == s.transactions[i]
        && r.value.transactions[i].updatedAt ==
             (if r.value.transactions[i].status == s.transactions[i].status then s.transactions[i].updatedAt else now)
      else r.value.transactions[i] == s.transactions[i]
    ensures r.Success? ==> r.value.(transactions := s.transactions) == s
    ensures r.Success? && Valid(s) ==> Valid(r.value)
  {
    match ParseTransactionStatus(input.status)
    case None => Failure(StatusNotInEnum(input.status))
    case Some(status) => Success(UpdateTransactionStatus(s, input.transactionId, status, now))
  }

  /** A user's view of the ledger changes only through that user's own `create`. */
  lemma {:induction false} CreateIsolatesUsers(s: Store, ctx: Ctx, other: Ctx, input: CreateInput, now: Timestamp)
    ensures var s' := TransactionsCreate(s, ctx, input, now).0;
      TransactionsList(s', other) ==
        if other.userId == ctx.userId then TransactionsList(s, other) + [s'.transactions[|s.transactions|]]
        else TransactionsList(s, other)
  {
    var s' := TransactionsCreate(s, ctx, input, now).0;
    var t := s'.transactions[|s.transactions|];
    assert s'.transactions == s.transactions + [t];
    Seqs.FilterAppend(s.transactions, [t], (x: TransactionRow) => x.userId == other.userId);
  }

  /** `updateStatus` never adds a row to, or removes one from, anybody's transaction list. */
  lemma {:induction false} UpdateStatusKeepsListLengths(s: Store, input: UpdateStatusInput, ctx: Ctx, now: Timestamp)
    requires TransactionsUpdateStatus(s, input, now).Success?
    ensures |TransactionsList(TransactionsUpdateStatus(s, input, now).value, ctx)| == |TransactionsList(s, ctx)|
  {
    var s' := TransactionsUpdateStatus(s, input, now).value;
    var keep := (x: TransactionRow) => x.userId == ctx.userId;
    CountSameOwners(s.transactions, s'.transactions, keep);
  }

  lemma {:induction false} CountSameOwners(a: seq<TransactionRow>, b: seq<TransactionRow>, keep: TransactionRow -> bool)
    requires |a| == |b|
    requires forall i :: 0 <= i < |a| ==> keep(a[i]) == keep(b[i])
    ensures Seqs.Count(a, keep) == Seqs.Count(b, keep)
  {
    if |a| > 0 {
      CountSameOwners(a[1..], b[1..], keep);
    }
  }

  /** Nothing makes a status terminal: a completed transaction can be set back to pending. */
  lemma NoTerminalStatus(s: Store, i: nat, now: Timestamp)
    requires i < |s.transactions| && s.transactions[i].status == Completed
    ensures var r := TransactionsUpdateStatus(s, UpdateStatusInput(s.transactions[i].id, "pending"), now);
      r.Success? && r.value.transactions[i].status == TransactionStatus.Pending
  {
  }

  /** A user without holdings gets an empty list from `shares.list`. */
  lemma NoHoldingsListsNothing(s: Store, ctx: Ctx)
    requires forall i :: 0 <= i < |s.shares| ==> s.shares[i].userId != ctx.userId
    ensures SharesList(s, ctx) == []
  {
  }
}
