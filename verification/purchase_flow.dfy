/**
 A purchase end to end: the property page's request goes through `transactions.create`
 into the store, and what the buyer, other buyers and the portfolio then see.
 */
module PurchaseFlow {
  import opened Wrappers
  import opened JsValues
  import opened Schema
  import opened Db
  import Seqs
  import Routers
  import PropertyDetail

  /** The area a transaction claims on property `propertyId`, 0 for other properties. */
  function ClaimOn(propertyId: int): TransactionRow -> int {
    (t: TransactionRow) => if t.propertyId == propertyId then t.sharesAmount else 0
  }

  /** The area claimed on a property by all recorded transactions, whatever their status. */
  function Claimed(s: Store, propertyId: int): int {
    Seqs.Sum(s.transactions, ClaimOn(propertyId))
  }

  /** Recording a transaction adds its area to the claims on its property and on no other. */
  lemma {:induction false} ClaimedAfterCreate(s: Store, ctx: Routers.Ctx, input: Routers.CreateInput, now: Timestamp, propertyId: int)
    ensures Claimed(Routers.TransactionsCreate(s, ctx, input, now).0, propertyId) ==
      Claimed(s, propertyId) + (if input.propertyId == propertyId then input.sharesAmount else 0)
  {
    var s' := Routers.TransactionsCreate(s, ctx, input, now).0;
    var t := s'.transactions[|s.transactions|];
    assert s'.transactions == s.transactions + [t];
    Seqs.SumAppend(s.transactions, [t], ClaimOn(propertyId));
    assert Seqs.Sum([t], ClaimOn(propertyId)) == ClaimOn(propertyId)(t);
  }

  /**
   A confirmed purchase lands in the buyer's transaction list as a pending buy of the
   chosen area whose rupee text parses back to the price shown; the property page and the
   buyer's holdings look exactly as before.
   */
  lemma {:induction false} PurchaseIsRecorded(
    s: Store, ctx: Routers.Ctx, f: PropertyDetail.InvestForm, p: PropertyRow, cryptoAmount: string, now: Timestamp)
    requires Routers.PropertiesGet(s, p.id) == Some(p)
    requires PropertyDetail.Submit(f, p, cryptoAmount).1.Some?
    ensures var req := PropertyDetail.Submit(f, p, cryptoAmount).1.value;
      var s' := Routers.TransactionsCreate(s, ctx, req, now).0;
      && |Routers.TransactionsList(s', ctx)| == |Routers.TransactionsList(s, ctx)| + 1
      && var t := Routers.TransactionsList(s', ctx)[|Routers.TransactionsList(s, ctx)|];
      && t.propertyId == p.id && t.sharesAmount == f.sharesAmount
      && t.transactionType == Buy && t.status == TransactionStatus.Pending
      && ParseInt(t.amountInRupees) == PropertyDetail.InvestmentAmount(p, f.sharesAmount)
      && Routers.PropertiesGet(s', p.id) == Some(p)
      && Routers.SharesList(s', ctx) == Routers.SharesList(s, ctx)
  {
    var req := PropertyDetail.Submit(f, p, cryptoAmount).1.value;
    Routers.CreateIsolatesUsers(s, ctx, ctx, req, now);
  }

  /** Recording a transaction changes no property page. */
  lemma CreateKeepsPropertyPage(s: Store, ctx: Routers.Ctx, input: Routers.CreateInput, now: Timestamp, id: int)
    ensures Routers.PropertiesGet(Routers.TransactionsCreate(s, ctx, input, now).0, id) == Routers.PropertiesGet(s, id)
  {
    assert Routers.TransactionsCreate(s, ctx, input, now).0.properties == s.properties;
  }

  /**
   Two requests for the same property, recorded one after the other: the property page
   after the first is unchanged, and the claims grow by both areas.
   */
  lemma {:induction false} TwoCreatesOnOneProperty(
    s: Store, first: Routers.Ctx, inA: Routers.CreateInput, now1: Timestamp,
    second: Routers.Ctx, inB: Routers.CreateInput, now2: Timestamp, propertyId: int)
    requires inA.propertyId == propertyId && inB.propertyId == propertyId
    ensures var s1 := Routers.TransactionsCreate(s, first, inA, now1).0;
      && Routers.PropertiesGet(s1, propertyId) == Routers.PropertiesGet(s, propertyId)
      && Claimed(Routers.TransactionsCreate(s1, second, inB, now2).0, propertyId) ==
        Claimed(s, propertyId) + inA.sharesAmount + inB.sharesAmount
  {
    var s1 := Routers.TransactionsCreate(s, first, inA, now1).0;
    CreateKeepsPropertyPage(s, first, inA, now1, propertyId);
    ClaimedAfterCreate(s, first, inA, now1, propertyId);
    ClaimedAfterCreate(s1, second, inB, now2, propertyId);
  }

  /**
   Nothing reserves the area: two buyers who each ask for no more than property `p` shows
   as available are both accepted; reloading the property after the first purchase shows
   the same row, so the second buyer sees the same availability; and the claims on the
   property grow by both amounts, past what was available whenever the two together
   exceed it.
   */
  lemma {:induction false} Oversell(
    s: Store, first: Routers.Ctx, second: Routers.Ctx, p: PropertyRow,
    a: int, b: int, cryptoAmount: string, now1: Timestamp, now2: Timestamp)
    requires p.minShareSize <= a <= PropertyDetail.AvailableShares(p)
    requires p.minShareSize <= b <= PropertyDetail.AvailableShares(p)
    ensures PropertyDetail.HandleInvest(p, a, cryptoAmount).Some?
    ensures var s1 := Routers.TransactionsCreate(s, first, PropertyDetail.HandleInvest(p, a, cryptoAmount).value, now1).0;
      && Routers.PropertiesGet(s1, p.id) == Routers.PropertiesGet(s, p.id)
      && PropertyDetail.HandleInvest(p, b, cryptoAmount).Some?
      && var s2 := Routers.TransactionsCreate(s1, second, PropertyDetail.HandleInvest(p, b, cryptoAmount).value, now2).0;
      && Claimed(s2, p.id) == Claimed(s, p.id) + a + b
      && (a + b > PropertyDetail.AvailableShares(p) ==> Claimed(s2, p.id) - Claimed(s, p.id) > PropertyDetail.AvailableShares(p))
  {
    var reqA := PropertyDetail.HandleInvest(p, a, cryptoAmount).value;
    var reqB := PropertyDetail.HandleInvest(p, b, cryptoAmount).value;
    TwoCreatesOnOneProperty(s, first, reqA, now1, second, reqB, now2, p.id);
  }

  /**
   The server accepts any area, including zero and negative ones the page would refuse:
   such a request is recorded like any other.
   */
  lemma ServerAcceptsWhatThePageRefuses(s: Store, ctx: Routers.Ctx, p: PropertyRow, sharesAmount: int, cryptoAmount: string, now: Timestamp)
    requires sharesAmount < p.minShareSize
    ensures PropertyDetail.HandleInvest(p, sharesAmount, cryptoAmount).None?
    ensures var input := Routers.CreateInput(p.id, sharesAmount, "0", cryptoAmount, PropertyDetail.ExchangeRate);
      var s' := Routers.TransactionsCreate(s, ctx, input, now).0;
      && |s'.transactions| == |s.transactions| + 1
      && s'.transactions[|s.transactions|].sharesAmount == sharesAmount
      && s'.transactions[|s.transactions|].userId == ctx.userId
      && s'.transactions[|s.transactions|].propertyId == p.id
      && Claimed(s', p.id) == Claimed(s, p.id) + sharesAmount
  {
    ClaimedAfterCreate(s, ctx, Routers.CreateInput(p.id, sharesAmount, "0", cryptoAmount, PropertyDetail.ExchangeRate), now, p.id);
  }
}
