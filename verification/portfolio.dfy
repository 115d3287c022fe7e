/**
 The portfolio page's figures: total invested, total area owned, number of holdings,
 the recent-transactions list and the status label. Data not yet loaded is `None`.
 */
module Portfolio {
  import opened Wrappers
  import opened JsValues
  import opened Schema
  import Seqs

  /** How many transactions the "Recent Transactions" list shows at most. */
  const RecentLimit: nat := 10

  /** `parseInt(share.investmentAmount)`. */
  function ParsedAmount(h: ShareRow): JsNum {
    ParseInt(h.investmentAmount)
  }

  /** The rupee value of a holding whose amount parses. */
  function AmountValue(h: ShareRow): int {
    OrZero(ParsedAmount(h))
  }

  function SharesOwned(h: ShareRow): int {
    h.sharesOwned
  }

  /** Every holding's investment amount parses to a number. */
  predicate AllAmountsParse(hs: seq<ShareRow>) {
    forall j :: 0 <= j < |hs| ==> ParsedAmount(hs[j]).Finite?
  }

  /** The parsed investment amounts, one per holding. */
  function Amounts(hs: seq<ShareRow>): (r: seq<JsNum>)
    ensures |r| == |hs| && forall j :: 0 <= j < |hs| ==> r[j] == ParsedAmount(hs[j])
  {
    seq(|hs|, j requires 0 <= j < |hs| => ParsedAmount(hs[j]))
  }

  predicate AllFinite(xs: seq<JsNum>) {
    forall j :: 0 <= j < |xs| ==> xs[j].Finite?
  }

  /** The running total of the `reduce`, in JavaScript number semantics: `NaN` once any term is. */
  function FoldNums(xs: seq<JsNum>): JsNum
    decreases |xs|
  {
    if |xs| == 0 then Finite(0) else Plus(FoldNums(xs[..|xs| - 1]), xs[|xs| - 1])
  }

  /** The running total is a number exactly when every term is, and then it is their sum. */
  lemma {:induction false} FoldNumsIsSum(xs: seq<JsNum>)
    ensures FoldNums(xs).Finite? <==> AllFinite(xs)
    ensures FoldNums(xs).Finite? ==> FoldNums(xs).n == Seqs.Sum(xs, OrZero)
  {
    if |xs| > 0 {
      var init := xs[..|xs| - 1];
      var last := xs[|xs| - 1];
      FoldNumsIsSum(init);
      assert xs == init + [last];
      Seqs.SumAppend(init, [last], OrZero);
      assert Seqs.Sum([last], OrZero) == OrZero(last);
      if AllFinite(xs) {
        assert AllFinite(init) by {
          forall j | 0 <= j < |init| ensures init[j].Finite? {
            assert init[j] == xs[j];
          }
        }
      }
      if FoldNums(xs).Finite? {
        forall j | 0 <= j < |xs| ensures xs[j].Finite? {
          if j < |init| {
            assert xs[j] == init[j];
          }
        }
      }
    }
  }

  /** Summing the parsed amounts is summing the holdings' rupee values. */
  lemma {:induction false} SumOfAmounts(hs: seq<ShareRow>)
    ensures Seqs.Sum(Amounts(hs), OrZero) == Seqs.Sum(hs, AmountValue)
  {
    if |hs| > 0 {
      assert Amounts(hs)[1..] == Amounts(hs[1..]);
      SumOfAmounts(hs[1..]);
    }
  }

  /**
   `shares?.reduce((sum, share) => sum + parseInt(share.investmentAmount), 0) || 0`:
   the sum of the amounts when all of them parse; one unparsable amount makes the sum
   `NaN`, which `|| 0` turns into 0, as does missing data.
   */
  method TotalInvested(shares: Option<seq<ShareRow>>) returns (total: int)
    ensures shares.None? ==> total == 0
    ensures shares.Some? && AllAmountsParse(shares.value) ==> total == Seqs.Sum(shares.value, AmountValue)
    ensures shares.Some? && !AllAmountsParse(shares.value) ==> total == 0
  {
    if shares.None? {
      return 0;
    }
    var hs := shares.value;
    var acc := Finite(0);
    var i := 0;
    while i < |hs|
      invariant 0 <= i <= |hs|
      invariant acc == FoldNums(Amounts(hs)[..i])
    {
      assert Amounts(hs)[..i + 1][..i] == Amounts(hs)[..i];
      acc := Plus(acc, ParsedAmount(hs[i]));
      i := i + 1;
    }
    assert Amounts(hs)[..i] == Amounts(hs);
    FoldNumsIsSum(Amounts(hs));
    SumOfAmounts(hs);
    total := OrZero(acc);
  }

  /** `shares?.reduce((sum, share) => sum + share.sharesOwned, 0) || 0`: the total area owned. */
  method TotalShares(shares: Option<seq<ShareRow>>) returns (total: int)
    ensures shares.None? ==> total == 0
    ensures shares.Some? ==> total == Seqs.Sum(shares.value, SharesOwned)
  {
    if shares.None? {
      return 0;
    }
    var hs := shares.value;
    total := 0;
    var i := 0;
    while i < |hs|
      invariant 0 <= i <= |hs|
      invariant total == Seqs.Sum(hs[..i], SharesOwned)
    {
      assert hs[..i + 1] == hs[..i] + [hs[i]];
      Seqs.SumAppend(hs[..i], [hs[i]], SharesOwned);
      total := total + hs[i].sharesOwned;
      i := i + 1;
    }
    assert hs[..i] == hs;
  }

  /** `shares?.length || 0`: one per holding row (not per distinct property). */
  function PropertiesOwned(shares: Option<seq<ShareRow>>): (r: nat)
    ensures shares.None? ==> r == 0
    ensures shares.Some? ==> r == |shares.value|
  {
    if shares.None? then 0 else |shares.value|
  }

  /** `transactions.slice(0, 10)`: the first ten transactions (fewer if there are fewer), in order. */
  function RecentTransactions(transactions: Option<seq<TransactionRow>>): (r: seq<TransactionRow>)
    ensures transactions.None? ==> r == []
    ensures transactions.Some? ==>
      && r <= transactions.value
      && |r| == (if |transactions.value| < RecentLimit then |transactions.value| else RecentLimit)
  {
    match transactions
    case None => []
    case Some(txs) => if |txs| <= RecentLimit then txs else txs[..RecentLimit]
  }

  /** `s.charAt(0).toUpperCase() + s.slice(1)`. */
  function Capitalize(s: string): (r: string)
    ensures |r| == |s|
    ensures |s| > 0 ==> r[0] == ToUpperChar(s[0]) && r[1..] == s[1..]
  {
    if |s| == 0 then "" else [ToUpperChar(s[0])] + s[1..]
  }

  /** Capitalising changes nothing but the case of the first character. */
  lemma {:induction false} CapitalizeKeepsLowerCase(s: string)
    ensures ToLower(Capitalize(s)) == ToLower(s)
  {
    var c := Capitalize(s);
    forall i | 0 <= i < |s|
      ensures ToLower(c)[i] == ToLower(s)[i]
    {
      if i > 0 {
        assert c[i] == c[1..][i - 1] == s[1..][i - 1] == s[i];
      }
    }
  }

  /** The label shown for a transaction's status. */
  function StatusLabel(status: TransactionStatus): (r: string)
    ensures ToLower(r) == TransactionStatusText(status)
  {
    var text := TransactionStatusText(status);
    CapitalizeKeepsLowerCase(text);
    assert ToLower(text) == text;
    Capitalize(text)
  }

  /** The three labels. */
  lemma StatusLabels()
    ensures StatusLabel(TransactionStatus.Pending) == "Pending"
    ensures StatusLabel(Completed) == "Completed"
    ensures StatusLabel(Failed) == "Failed"
  {
    assert ToUpperChar('p') == 'P' && ToUpperChar('c') == 'C' && ToUpperChar('f') == 'F';
    assert Capitalize("pending") == "Pending";
    assert Capitalize("completed") == "Completed";
    assert Capitalize("failed") == "Failed";
  }

  /** No two statuses share a label. */
  lemma StatusLabelInjective(a: TransactionStatus, b: TransactionStatus)
    ensures StatusLabel(a) == StatusLabel(b) ==> a == b
  {
    EnumTextRoundTrip(User, Available, Buy, a);
    EnumTextRoundTrip(User, Available, Buy, b);
  }
}
