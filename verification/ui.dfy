/**
 The request-to-transaction logic of the web interface in src/ui.rs: the
 total a request spends, the outputs of the transaction it produces, the
 response the handler returns, and the read-and-clear of the save flag.
 The wallet's coin selection (`get_inputs`) is a parameter, and the
 transaction sent to the network is represented by the arguments given to
 `Transaction::new`, which is not part of this model.
 */
module Ui {
  import opened Wrappers
  import Decimal

  /** The JSON body of `POST /api/transaction`. */
  datatype TransactionRequest = TransactionRequest(to: seq<string>, toAmount: seq<nat>, fee: nat)

  /** The JSON reply of `POST /api/transaction`. */
  datatype TransactionResponse = TransactionResponse(success: bool, message: string)

  /** One output: a recipient and the amount it receives. */
  datatype Output = Output(to: string, amount: nat)

  /** What the wallet hands back for a spend: the inputs chosen and their
      total value. */
  datatype Funding<I> = Funding(inputs: I, excess: nat)

  /** The transaction sent to the network, as the arguments of
      `Transaction::new(version, user, inputs, outputs)`. */
  datatype Draft<I> = Draft(version: nat, inputs: I, outputs: seq<Output>)

  const SuccessMessage: string := "Transaction being broadcasted"

  function Sum(xs: seq<nat>): nat
  {
    if xs == [] then 0 else xs[0] + Sum(xs[1..])
  }

  lemma {:induction false} SumConcat(xs: seq<nat>, ys: seq<nat>)
    ensures Sum(xs + ys) == Sum(xs) + Sum(ys)
    decreases |xs|
  {
    if xs == [] {
      assert xs + ys == ys;
    } else {
      assert (xs + ys)[1..] == xs[1..] + ys;
      SumConcat(xs[1..], ys);
    }
  }

  /** Lemma: no amount exceeds the sum, and the sum of a prefix never
      exceeds the whole. */
  lemma {:induction false} SumBounds(xs: seq<nat>, k: nat)
    requires k <= |xs|
    ensures Sum(xs[..k]) <= Sum(xs)
    ensures forall i :: 0 <= i < |xs| ==> xs[i] <= Sum(xs)
  {
    assert xs == xs[..k] + xs[k..];
    SumConcat(xs[..k], xs[k..]);
    forall i | 0 <= i < |xs|
      ensures xs[i] <= Sum(xs)
    {
      assert xs == xs[..i] + ([xs[i]] + xs[i + 1..]);
      SumConcat(xs[..i], [xs[i]] + xs[i + 1..]);
    }
  }

  /** `total_spend`: every requested amount plus the fee. */
  function TotalSpend(req: TransactionRequest): (total: nat)
    ensures total >= req.fee
    ensures forall i :: 0 <= i < |req.toAmount| ==> req.toAmount[i] + req.fee <= total
  {
    SumBounds(req.toAmount, 0);
    Sum(req.toAmount) + req.fee
  }

  /** Lemma: the total counts every amount of the request, paired with a
      recipient or not, so any amount beyond the recipients raises it. */
  lemma TotalSpendCountsEveryAmount(req: TransactionRequest)
    ensures forall i :: 0 <= i < |req.toAmount| ==> req.toAmount[i] + req.fee <= TotalSpend(req)
    ensures TotalSpend(req) == Sum(req.toAmount[..Min(|req.to|, |req.toAmount|)])
                               + Sum(req.toAmount[Min(|req.to|, |req.toAmount|)..]) + req.fee
  {
    SumBounds(req.toAmount, 0);
    var k := Min(|req.to|, |req.toAmount|);
    assert req.toAmount == req.toAmount[..k] + req.toAmount[k..];
    SumConcat(req.toAmount[..k], req.toAmount[k..]);
  }

  function Min(a: nat, b: nat): nat
  {
    if a <= b then a else b
  }

  /** Iterator `zip`: pairs recipients with amounts in order, stopping at
      the shorter list. */
  function Zip(to: seq<string>, amounts: seq<nat>): (r: seq<Output>)
    ensures |r| == Min(|to|, |amounts|)
    ensures forall i :: 0 <= i < |r| ==> r[i] == Output(to[i], amounts[i])
  {
    if to == [] || amounts == [] then []
    else [Output(to[0], amounts[0])] + Zip(to[1..], amounts[1..])
  }

  function Amounts(outs: seq<Output>): (r: seq<nat>)
    ensures |r| == |outs|
    ensures forall i :: 0 <= i < |outs| ==> r[i] == outs[i].amount
  {
    seq(|outs|, i requires 0 <= i < |outs| => outs[i].amount)
  }

  /** The failure message: the total and the wallet's value in decimal. */
  function ShortfallMessage(total: nat, available: nat): (msg: string)
    ensures ShortfallPrefix <= msg
    ensures |msg| > |ShortfallPrefix| + |ShortfallMiddle|
  {
    ShortfallPrefix + Decimal.Show(total) + ShortfallMiddle + Decimal.Show(available)
  }

  /** The fixed words of the failure message around the two amounts. */
  const ShortfallPrefix: string := "Amount larger: "
  const ShortfallMiddle: string := " than currently available "

  /** The number of digits a string starts with. */
  function DigitRun(s: string): (n: nat)
    ensures n <= |s|
  {
    if s == [] || !Decimal.IsDigit(s[0]) then 0 else 1 + DigitRun(s[1..])
  }

  /** Lemma: digits followed by a non-digit form a run of exactly their
      number. */
  lemma {:induction false} DigitRunOf(a: string, q: string)
    requires forall i :: 0 <= i < |a| ==> Decimal.IsDigit(a[i])
    requires q != [] && !Decimal.IsDigit(q[0])
    ensures DigitRun(a + q) == |a|
  {
    if a != [] {
      assert (a + q)[1..] == a[1..] + q;
      DigitRunOf(a[1..], q);
    } else {
      assert a + q == q;
    }
  }

  /** Lemma: the failure message names both amounts unambiguously: equal
      messages report the same total and the same wallet value. */
  lemma ShortfallMessageNamesAmounts(t1: nat, a1: nat, t2: nat, a2: nat)
    ensures ShortfallMessage(t1, a1) == ShortfallMessage(t2, a2) <==> t1 == t2 && a1 == a2
  {
    if ShortfallMessage(t1, a1) == ShortfallMessage(t2, a2) {
      var middle := ShortfallMiddle;
      assert middle[0] == ' ';
      ReadAmounts(ShortfallPrefix, Decimal.Show(t1), middle, Decimal.Show(a1),
                  Decimal.Show(t2), Decimal.Show(a2));
      Decimal.ShowInjective(t1, t2);
      Decimal.ShowInjective(a1, a2);
    }
  }

  /** Lemma: in `pre + digits + middle + rest`, where `middle` starts with a
      non-digit, the digits and the rest are determined by the whole. */
  lemma ReadAmounts(pre: string, s1: string, middle: string, a1: string, s2: string, a2: string)
    requires forall i :: 0 <= i < |s1| ==> Decimal.IsDigit(s1[i])
    requires forall i :: 0 <= i < |s2| ==> Decimal.IsDigit(s2[i])
    requires middle != [] && !Decimal.IsDigit(middle[0])
    requires pre + s1 + middle + a1 == pre + s2 + middle + a2
    ensures s1 == s2 && a1 == a2
  {
    var r1 := middle + a1;
    var r2 := middle + a2;
    assert pre + s1 + middle + a1 == pre + (s1 + r1);
    assert pre + s2 + middle + a2 == pre + (s2 + r2);
    DropCommonPrefix(pre, s1 + r1, s2 + r2);
    SplitAtDigitRun(s1, r1, s2, r2);
    DropCommonPrefix(middle, a1, a2);
  }

  /** Lemma: equal strings with the same prefix agree after it. */
  lemma DropCommonPrefix(pre: string, x: string, y: string)
    requires pre + x == pre + y
    ensures x == y
  {
    assert x == (pre + x)[|pre|..];
    assert y == (pre + y)[|pre|..];
  }

  /** Lemma: a run of digits followed by a non-digit is recovered from the
      concatenation, and so is what follows it. */
  lemma SplitAtDigitRun(s1: string, r1: string, s2: string, r2: string)
    requires forall i :: 0 <= i < |s1| ==> Decimal.IsDigit(s1[i])
    requires forall i :: 0 <= i < |s2| ==> Decimal.IsDigit(s2[i])
    requires r1 != [] && !Decimal.IsDigit(r1[0])
    requires r2 != [] && !Decimal.IsDigit(r2[0])
    requires s1 + r1 == s2 + r2
    ensures s1 == s2 && r1 == r2
  {
    DigitRunOf(s1, r1);
    DigitRunOf(s2, r2);
    assert s1 == (s1 + r1)[..|s1|];
    assert s2 == (s2 + r2)[..|s2|];
    DropCommonPrefix(s1, r1, r2);
  }


  /** `submit_transaction`: ask the wallet for inputs covering the total;
      if it has them, send one transaction paying the zipped recipients and
      the change back to the node's own key and report success, otherwise
      send nothing and report the shortfall. The result is the response and
      the transactions sent, in order. */
  function Submit<I>(req: TransactionRequest, getInputs: nat -> Option<Funding<I>>,
                     ownKey: string, version: nat, walletValue: nat)
    : (r: (TransactionResponse, seq<Draft<I>>))
    requires getInputs(TotalSpend(req)).Some? ==> getInputs(TotalSpend(req)).value.excess >= TotalSpend(req)
    ensures r.0.success <==> getInputs(TotalSpend(req)).Some?
    ensures r.0.success ==>
      var f := getInputs(TotalSpend(req)).value;
      && r.0.message == SuccessMessage
      && |r.1| == 1
      && r.1[0].version == version
      && r.1[0].inputs == f.inputs
      && r.1[0].outputs == Zip(req.to, req.toAmount) + [Output(ownKey, f.excess - TotalSpend(req))]
    ensures !r.0.success ==>
      && r.1 == []
      && r.0.message == ShortfallMessage(TotalSpend(req), walletValue)
  {
    var total := TotalSpend(req);
    match getInputs(total)
    case Some(f) =>
      var outputs := Zip(req.to, req.toAmount) + [Output(ownKey, f.excess - total)];
      (TransactionResponse(true, SuccessMessage), [Draft(version, f.inputs, outputs)])
    case None =>
      (TransactionResponse(false, ShortfallMessage(total, walletValue)), [])
  }

  /** Lemma: a successful submission has one output per zipped pair, in
      order, then the change output to the node's own key as the last. */
  lemma SubmitOutputs<I>(req: TransactionRequest, getInputs: nat -> Option<Funding<I>>,
                         ownKey: string, version: nat, walletValue: nat)
    requires getInputs(TotalSpend(req)).Some? ==> getInputs(TotalSpend(req)).value.excess >= TotalSpend(req)
    requires getInputs(TotalSpend(req)).Some?
    ensures var outs := Submit(req, getInputs, ownKey, version, walletValue).1[0].outputs;
      && |outs| == Min(|req.to|, |req.toAmount|) + 1
      && (forall i :: 0 <= i < |outs| - 1 ==> outs[i] == Output(req.to[i], req.toAmount[i]))
      && outs[|outs| - 1].to == ownKey
      && outs[|outs| - 1].amount + TotalSpend(req) == getInputs(TotalSpend(req)).value.excess
  {
  }

  /** Lemma: a successful submission's outputs and fee account for all the
      inputs exactly when every amount has a recipient; with more amounts
      than recipients, the unpaired amounts are charged but paid to
      nobody. */
  lemma SubmitConservesIff<I>(req: TransactionRequest, getInputs: nat -> Option<Funding<I>>,
                              ownKey: string, version: nat, walletValue: nat)
    requires getInputs(TotalSpend(req)).Some? ==> getInputs(TotalSpend(req)).value.excess >= TotalSpend(req)
    requires getInputs(TotalSpend(req)).Some?
    ensures var outs := Submit(req, getInputs, ownKey, version, walletValue).1[0].outputs;
      var excess := getInputs(TotalSpend(req)).value.excess;
      && Sum(Amounts(outs)) + req.fee + Sum(req.toAmount[Min(|req.to|, |req.toAmount|)..]) == excess
      && (Sum(Amounts(outs)) + req.fee == excess <==> Sum(req.toAmount[Min(|req.to|, |req.toAmount|)..]) == 0)
  {
    var total := TotalSpend(req);
    var f := getInputs(total).value;
    var k := Min(|req.to|, |req.toAmount|);
    var z := Zip(req.to, req.toAmount);
    var outs := z + [Output(ownKey, f.excess - total)];
    assert Amounts(outs) == Amounts(z) + [f.excess - total];
    assert Amounts(z) == req.toAmount[..k];
    SumConcat(Amounts(z), [f.excess - total]);
    assert Sum([f.excess - total]) == f.excess - total;
    TotalSpendCountsEveryAmount(req);
  }

  /** Lemma: the unpaired-amount loss, on a concrete request: one recipient,
      amounts 5 and 7, fee 1, and a wallet that funds exactly the total.
      The 13 spent pay 5 to the recipient and 0 in change, so 8 go to the
      miner instead of the intended fee of 1. */
  lemma SubmitLosesUnpairedAmount()
    ensures var req := TransactionRequest(["a"], [5, 7], 1);
      var getInputs := (total: nat) => Some(Funding(0, total));
      var r := Submit(req, getInputs, "me", 0, 13);
      && TotalSpend(req) == 13
      && r.0.success
      && r.1[0].outputs == [Output("a", 5), Output("me", 0)]
      && Sum(Amounts(r.1[0].outputs)) + req.fee == 6
  {
    var req := TransactionRequest(["a"], [5, 7], 1);
    assert Sum(req.toAmount) == 12 by {
      assert req.toAmount[1..] == [7];
      assert req.toAmount[1..][1..] == [];
    }
    var outs := [Output("a", 5), Output("me", 0)];
    assert Zip(["a"], [5, 7]) == [Output("a", 5)];
    assert Amounts(outs) == [5, 0];
    assert Sum([5, 0]) == 5 by {
      assert [5, 0][1..] == [0];
      assert [0][1..] == [];
    }
  }

  /** The refusal a corrected handler gives a request whose recipients and
      amounts differ in number. */
  const MismatchMessage: string := "Recipients and amounts differ in number"

  /** `submit_transaction` as evidently intended: a request whose recipient
      and amount lists differ in length is refused before the wallet is
      asked; any other request is handled exactly as `Submit` handles it. */
  function SubmitPaired<I>(req: TransactionRequest, getInputs: nat -> Option<Funding<I>>,
                           ownKey: string, version: nat, walletValue: nat)
    : (r: (TransactionResponse, seq<Draft<I>>))
    requires getInputs(TotalSpend(req)).Some? ==> getInputs(TotalSpend(req)).value.excess >= TotalSpend(req)
    ensures |req.to| != |req.toAmount| ==> r == (TransactionResponse(false, MismatchMessage), [])
    ensures |req.to| == |req.toAmount| ==> r == Submit(req, getInputs, ownKey, version, walletValue)
  {
    if |req.to| != |req.toAmount| then (TransactionResponse(false, MismatchMessage), [])
    else Submit(req, getInputs, ownKey, version, walletValue)
  }

  /** Lemma: every transaction the corrected handler sends pays out exactly
      what the wallet put in, less the requested fee, and pays every
      requested amount to its recipient. */
  lemma SubmitPairedConserves<I>(req: TransactionRequest, getInputs: nat -> Option<Funding<I>>,
                                 ownKey: string, version: nat, walletValue: nat)
    requires getInputs(TotalSpend(req)).Some? ==> getInputs(TotalSpend(req)).value.excess >= TotalSpend(req)
    ensures var r := SubmitPaired(req, getInputs, ownKey, version, walletValue);
      forall d :: d in r.1 ==>
        && Sum(Amounts(d.outputs)) + req.fee == getInputs(TotalSpend(req)).value.excess
        && |d.outputs| == |req.toAmount| + 1
        && forall i :: 0 <= i < |req.toAmount| ==> d.outputs[i] == Output(req.to[i], req.toAmount[i])
  {
    if |req.to| == |req.toAmount| && getInputs(TotalSpend(req)).Some? {
      SubmitConservesIff(req, getInputs, ownKey, version, walletValue);
      assert req.toAmount[|req.toAmount|..] == [];
    }
  }

  /** `check_save_request`: read the save flag and clear it. The result is
      the value reported and the flag left behind. */
  function CheckSaveRequest(flag: bool): (r: (bool, bool))
    ensures r.0 == flag
    ensures !r.1
  {
    (flag, false)
  }

  /** Lemma: a save request is reported once; a second check with no new
      request in between reports nothing and leaves the flag as it was. */
  lemma CheckSaveRequestReportsOnce(flag: bool)
    ensures CheckSaveRequest(CheckSaveRequest(flag).1).0 == false
    ensures CheckSaveRequest(CheckSaveRequest(flag).1) == CheckSaveRequest(false)
  {
  }
}
