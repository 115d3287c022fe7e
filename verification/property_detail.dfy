/**
 The investment panel of the property page: the price arithmetic, the range check of
 `handleInvest`, the request it sends to `transactions.create`, the clamp applied to the
 share input, and the panel's state (`sharesAmount`, `isProcessing`, `transactionComplete`).
 The crypto amount is computed in floating point and enters as opaque text.
 */
module PropertyDetail {
  import opened Wrappers
  import opened JsValues
  import opened Schema
  import Routers

  /** The initial value of `sharesAmount`, and the one restored after a successful purchase. */
  const InitialSharesAmount: int := 1

  /** The fixed exchange rate (rupees per ETH) sent with every request. */
  const ExchangeRate: string := "75000"

  /** `parseInt(property.pricePerSqft)`. */
  function PricePerSqft(p: PropertyRow): JsNum {
    ParseInt(p.pricePerSqft)
  }

  /** `sharesAmount * pricePerSqft`: the rupee amount of a purchase. */
  function InvestmentAmount(p: PropertyRow, sharesAmount: int): (r: JsNum)
    ensures r.Finite? <==> PricePerSqft(p).Finite?
    ensures r.Finite? ==> r.n == sharesAmount * PricePerSqft(p).n
  {
    Times(Finite(sharesAmount), PricePerSqft(p))
  }

  /** `totalShares - soldShares`; negative when a row is oversold, since nothing forbids it. */
  function AvailableShares(p: PropertyRow): (r: int)
    ensures r + p.soldShares == p.totalShares
  {
    p.totalShares - p.soldShares
  }

  /** The guard of `handleInvest`: neither below the minimum nor above what is available. */
  predicate InRange(p: PropertyRow, sharesAmount: int) {
    !(sharesAmount < p.minShareSize || sharesAmount > AvailableShares(p))
  }

  /**
   `handleInvest`: an out-of-range amount is refused without a request; otherwise the
   request names the property, the amount, the rupee amount as decimal text and the fixed rate.
   */
  function HandleInvest(p: PropertyRow, sharesAmount: int, cryptoAmount: string): (r: Option<Routers.CreateInput>)
    ensures r.Some? <==> p.minShareSize <= sharesAmount <= p.totalShares - p.soldShares
    ensures r.Some? ==>
      && r.value.propertyId == p.id && r.value.sharesAmount == sharesAmount
      && r.value.cryptoAmount == cryptoAmount && r.value.exchangeRate == "75000"
      && r.value.amountInRupees == ToString(InvestmentAmount(p, sharesAmount))
      && ParseInt(r.value.amountInRupees) == InvestmentAmount(p, sharesAmount)
    ensures r.Some? && PricePerSqft(p).Finite? ==>
      ParseInt(r.value.amountInRupees) == Finite(sharesAmount * PricePerSqft(p).n)
  {
    if sharesAmount < p.minShareSize || sharesAmount > AvailableShares(p) then None
    else
      var amount := InvestmentAmount(p, sharesAmount);
      ParseIntOfToString(amount);
      Some(Routers.CreateInput(p.id, sharesAmount, ToString(amount), cryptoAmount, ExchangeRate))
  }

  /** When less is available than the minimum, every amount is refused. */
  lemma NothingFitsBelowMinimum(p: PropertyRow, sharesAmount: int, cryptoAmount: string)
    requires AvailableShares(p) < p.minShareSize
    ensures HandleInvest(p, sharesAmount, cryptoAmount).None?
  {
  }

  /**
   The input's `onChange`: `Math.max(minShareSize, parseInt(text) || 0)`; the result is the
   larger of the minimum and the typed number (0 for unparsable text).
   */
  function ClampShares(p: PropertyRow, text: string): (r: int)
    ensures r >= p.minShareSize && r >= OrZero(ParseInt(text))
    ensures r == p.minShareSize || r == OrZero(ParseInt(text))
    ensures ParseInt(text).NaN? ==> r == (if p.minShareSize > 0 then p.minShareSize else 0)
  {
    var typed := OrZero(ParseInt(text));
    if p.minShareSize > typed then p.minShareSize else typed
  }

  /** The panel's state. */
  datatype InvestForm = InvestForm(sharesAmount: int, isProcessing: bool, transactionComplete: bool)

  const InitialForm := InvestForm(InitialSharesAmount, false, false)

  /** The input is shown and enabled: not after a success, not while processing, not with 0 available. */
  predicate InputEnabled(f: InvestForm, p: PropertyRow) {
    !f.transactionComplete && !f.isProcessing && AvailableShares(p) != 0
  }

  /** An edit of the input; a hidden or disabled input fires no change. */
  function Edit(f: InvestForm, p: PropertyRow, text: string): (r: InvestForm)
    ensures InputEnabled(f, p) ==> r == f.(sharesAmount := ClampShares(p, text))
    ensures !InputEnabled(f, p) ==> r == f
  {
    if InputEnabled(f, p) then f.(sharesAmount := ClampShares(p, text)) else f
  }

  /**
   "Confirm & Invest": possible only while the input is enabled; an in-range amount starts
   processing and sends the request, anything else leaves the state as it was.
   */
  function Submit(f: InvestForm, p: PropertyRow, cryptoAmount: string): (r: (InvestForm, Option<Routers.CreateInput>))
    ensures r.1.Some? <==> InputEnabled(f, p) && InRange(p, f.sharesAmount)
    ensures r.1.Some? ==> r.1 == HandleInvest(p, f.sharesAmount, cryptoAmount) && r.0 == f.(isProcessing := true)
    ensures r.1.None? ==> r.0 == f
  {
    if !InputEnabled(f, p) then (f, None)
    else
      match HandleInvest(p, f.sharesAmount, cryptoAmount)
      case None => (f, None)
      case Some(req) => (f.(isProcessing := true), Some(req))
  }

  /** The mutation settles: `finally` clears processing; success marks the purchase complete. */
  function Settle(f: InvestForm, succeeded: bool): (r: InvestForm)
    ensures !r.isProcessing && r.sharesAmount == f.sharesAmount
    ensures r.transactionComplete == (f.transactionComplete || succeeded)
  {
    f.(isProcessing := false, transactionComplete := f.transactionComplete || succeeded)
  }

  /** The timer armed by a success: back to the input with `sharesAmount` reset to 1. */
  function ResetAfterSuccess(f: InvestForm): (r: InvestForm)
    ensures !r.transactionComplete && r.sharesAmount == InitialSharesAmount && r.isProcessing == f.isProcessing
  {
    f.(transactionComplete := false, sharesAmount := InitialSharesAmount)
  }

  /** Every reachable amount is either the initial 1 or at least the property's minimum. */
  ghost predicate FormInvariant(f: InvestForm, p: PropertyRow) {
    f.sharesAmount == InitialSharesAmount || f.sharesAmount >= p.minShareSize
  }

  /** Each transition of the panel keeps `FormInvariant`. */
  lemma FormInvariantPreserved(f: InvestForm, p: PropertyRow, text: string, cryptoAmount: string, succeeded: bool)
    requires FormInvariant(f, p)
    ensures FormInvariant(InitialForm, p)
    ensures FormInvariant(Edit(f, p, text), p)
    ensures FormInvariant(Submit(f, p, cryptoAmount).0, p)
    ensures FormInvariant(Settle(f, succeeded), p)
    ensures FormInvariant(ResetAfterSuccess(f), p)
  {
  }

  /**
   The initial (and reset) amount of 1 is not clamped: on a property whose minimum is
   above 1, confirming before editing the input sends nothing.
   */
  lemma InitialAmountCanBeRefused(p: PropertyRow, cryptoAmount: string)
    requires p.minShareSize > 1
    ensures Submit(InitialForm, p, cryptoAmount).1.None?
    ensures Submit(ResetAfterSuccess(InitialForm), p, cryptoAmount).1.None?
  {
  }

  /** After an enabled edit, the amount is never below the minimum. */
  lemma EditNeverBelowMinimum(f: InvestForm, p: PropertyRow, text: string)
    requires InputEnabled(f, p)
    ensures Edit(f, p, text).sharesAmount >= p.minShareSize
  {
  }
}
