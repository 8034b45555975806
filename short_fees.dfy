/**
 The fees a trader pays on a short position: the curve fee and the governance
 fee charged when the short is opened, and the curve fee and the flat fee
 charged when it is closed. Every quantity is an 18-decimal fixed-point value
 (see FixedPointMath); every product and quotient rounds down.
 */
module ShortFees {
  import opened FixedPointMath

  /** The pool readings the fee formulas consult: the configured fee rates,
      the spot price of a bond and the vault share price. */
  datatype FeeState = FeeState(
    curveFee: nat,
    flatFee: nat,
    governanceLpFee: nat,
    spotPrice: nat,
    vaultSharePrice: nat)

  // ---------------------------------------------------------------------------
  // The fee formulas

  /** Curve fee paid on opening a short of `shortAmount` bonds at `spotPrice`:
      phi_curve * (1 - p) * dy, multiplied left to right. The subtraction 1 - p
      fails when the spot price exceeds one. */
  function OpenShortCurveFee(s: FeeState, shortAmount: nat, spotPrice: nat): (r: nat)
    requires spotPrice <= ONE
    ensures spotPrice == ONE ==> r == 0
    ensures s.curveFee == 0 || shortAmount == 0 ==> r == 0
  {
    MulDown(MulDown(s.curveFee, Sub(ONE, spotPrice)), shortAmount)
  }

  /** Governance fee paid on opening a short: the governance share of the curve fee. */
  function OpenShortGovernanceFee(s: FeeState, shortAmount: nat, spotPrice: nat): (r: nat)
    requires spotPrice <= ONE
    ensures r * ONE <= s.governanceLpFee * OpenShortCurveFee(s, shortAmount, spotPrice)
    ensures s.governanceLpFee <= ONE ==> r <= OpenShortCurveFee(s, shortAmount, spotPrice)
    ensures s.governanceLpFee == 0 || OpenShortCurveFee(s, shortAmount, spotPrice) == 0 ==> r == 0
  {
    var curveFee := OpenShortCurveFee(s, shortAmount, spotPrice);
    MulDownByFraction(s.governanceLpFee, curveFee);
    MulDown(s.governanceLpFee, curveFee)
  }

  /** Curve fee, in shares, paid on closing a short of `bondAmount` bonds with
      normalized time remaining `timeRemaining`: phi_curve * (1 - p) * (dy * t / c).
      Requires the pool's spot price to be at most one and the vault share price
      to be positive. */
  function CloseShortCurveFee(s: FeeState, bondAmount: nat, timeRemaining: nat): (r: nat)
    requires s.spotPrice <= ONE && s.vaultSharePrice > 0
    ensures timeRemaining == 0 ==> r == 0
    ensures s.spotPrice == ONE || s.curveFee == 0 || bondAmount == 0 ==> r == 0
  {
    MulDown(
      MulDown(s.curveFee, Sub(ONE, s.spotPrice)),
      MulDivDown(bondAmount, timeRemaining, s.vaultSharePrice))
  }

  /** Flat fee, in shares, paid on closing a short of `bondAmount` bonds with
      normalized time remaining `timeRemaining`: (dy * (1 - t) / c) * phi_flat.
      The subtraction 1 - t fails when the time remaining exceeds one. */
  function CloseShortFlatFee(s: FeeState, bondAmount: nat, timeRemaining: nat): (r: nat)
    requires timeRemaining <= ONE && s.vaultSharePrice > 0
    ensures timeRemaining == ONE ==> r == 0
    ensures s.flatFee == 0 || bondAmount == 0 ==> r == 0
  {
    MulDown(
      MulDivDown(bondAmount, Sub(ONE, timeRemaining), s.vaultSharePrice),
      s.flatFee)
  }

  // ---------------------------------------------------------------------------
  // Rounding: each fee is at most the exact value of its formula

  /** Two chained round-down products lose at most one unit of the outer
      product and one unit of the inner one scaled by the outer factor. */
  lemma MulDownTwiceBounds(a: nat, b: nat, x: nat)
    ensures MulDown(MulDown(a, b), x) * ONE * ONE <= a * b * x
    ensures a * b * x < (MulDown(MulDown(a, b), x) + 1) * ONE * ONE + x * ONE
  {
    var m := MulDown(a, b);
    var r := MulDown(m, x);
    MulMonotone(m * ONE, a * b, x, x);
    assert r * ONE * ONE <= m * x * ONE;
    assert m * x * ONE == m * ONE * x;
    MulMonotone(a * b, m * ONE + ONE, x, x);
    assert (m * ONE + ONE) * x == m * x * ONE + x * ONE;
    assert m * x * ONE < (r + 1) * ONE * ONE by {
      MulMonotone(m * x + 1, r * ONE + ONE, ONE, ONE);
    }
  }

  /** The open-short curve fee never exceeds (1 - p) * phi_curve * dy computed
      exactly, and falls short of it by less than 1 + dy (in units of 10^-18). */
  lemma OpenShortCurveFeeRoundsDown(s: FeeState, shortAmount: nat, spotPrice: nat)
    requires spotPrice <= ONE
    ensures OpenShortCurveFee(s, shortAmount, spotPrice) * ONE * ONE
         <= s.curveFee * (ONE - spotPrice) * shortAmount
    ensures s.curveFee * (ONE - spotPrice) * shortAmount
         < (OpenShortCurveFee(s, shortAmount, spotPrice) + 1) * ONE * ONE + shortAmount * ONE
  {
    MulDownTwiceBounds(s.curveFee, ONE - spotPrice, shortAmount);
  }

  /** The close-short curve fee is at most ((1 - p) * phi_curve * dy * t) / c
      computed exactly: fee / 1e18 <= (q / 1e18)(phi / 1e18)(dy / 1e18)(t / 1e18) / (c / 1e18). */
  lemma CloseShortCurveFeeRoundsDown(s: FeeState, bondAmount: nat, timeRemaining: nat)
    requires s.spotPrice <= ONE && s.vaultSharePrice > 0
    ensures CloseShortCurveFee(s, bondAmount, timeRemaining) * ONE * ONE * s.vaultSharePrice
         <= (ONE - s.spotPrice) * s.curveFee * bondAmount * timeRemaining
  {
    var c := s.vaultSharePrice;
    var m := MulDown(s.curveFee, ONE - s.spotPrice);
    var y := MulDivDown(bondAmount, timeRemaining, c);
    var r := CloseShortCurveFee(s, bondAmount, timeRemaining);
    assert r == MulDown(m, y);
    // r * ONE <= m * y, m * ONE <= phi * q and y * c <= dy * t
    MulMonotone(r * ONE, m * y, ONE * c, ONE * c);
    assert r * ONE * ONE * c <= m * y * (ONE * c);
    assert m * y * (ONE * c) == (m * ONE) * (y * c);
    MulMonotone(m * ONE, s.curveFee * (ONE - s.spotPrice), y * c, bondAmount * timeRemaining);
    assert (s.curveFee * (ONE - s.spotPrice)) * (bondAmount * timeRemaining)
        == (ONE - s.spotPrice) * s.curveFee * bondAmount * timeRemaining;
  }

  /** The close-short flat fee is at most (dy * (1 - t) * phi_flat) / c computed
      exactly: fee / 1e18 <= (dy / 1e18)((1e18 - t) / 1e18)(phi / 1e18) / (c / 1e18). */
  lemma CloseShortFlatFeeRoundsDown(s: FeeState, bondAmount: nat, timeRemaining: nat)
    requires timeRemaining <= ONE && s.vaultSharePrice > 0
    ensures CloseShortFlatFee(s, bondAmount, timeRemaining) * ONE * s.vaultSharePrice
         <= bondAmount * (ONE - timeRemaining) * s.flatFee
  {
    var c := s.vaultSharePrice;
    var y := MulDivDown(bondAmount, ONE - timeRemaining, c);
    var r := CloseShortFlatFee(s, bondAmount, timeRemaining);
    assert r == MulDown(y, s.flatFee);
    MulMonotone(r * ONE, y * s.flatFee, c, c);
    assert y * s.flatFee * c == (y * c) * s.flatFee;
    MulMonotone(y * c, bondAmount * (ONE - timeRemaining), s.flatFee, s.flatFee);
  }

  // ---------------------------------------------------------------------------
  // Monotonicity

  /** The open-short curve fee does not decrease with the curve fee rate or the
      trade size, and does not increase with the spot price. */
  lemma OpenShortCurveFeeMonotone(s: FeeState, s': FeeState, shortAmount: nat, shortAmount': nat,
                                  spotPrice: nat, spotPrice': nat)
    requires s.curveFee <= s'.curveFee
    requires shortAmount <= shortAmount'
    requires spotPrice' <= spotPrice <= ONE
    ensures OpenShortCurveFee(s, shortAmount, spotPrice) <= OpenShortCurveFee(s', shortAmount', spotPrice')
  {
    MulDownMonotone(s.curveFee, s'.curveFee, ONE - spotPrice, ONE - spotPrice');
    MulDownMonotone(MulDown(s.curveFee, ONE - spotPrice), MulDown(s'.curveFee, ONE - spotPrice'),
                    shortAmount, shortAmount');
  }

  /** The open-short governance fee does not decrease with the trade size. */
  lemma OpenShortGovernanceFeeMonotone(s: FeeState, shortAmount: nat, shortAmount': nat, spotPrice: nat)
    requires shortAmount <= shortAmount' && spotPrice <= ONE
    ensures OpenShortGovernanceFee(s, shortAmount, spotPrice) <= OpenShortGovernanceFee(s, shortAmount', spotPrice)
  {
    OpenShortCurveFeeMonotone(s, s, shortAmount, shortAmount', spotPrice, spotPrice);
    MulDownMonotone(s.governanceLpFee, s.governanceLpFee,
                    OpenShortCurveFee(s, shortAmount, spotPrice), OpenShortCurveFee(s, shortAmount', spotPrice));
  }

  /** The close-short curve fee does not decrease with the curve fee rate, the
      bond amount or the time remaining, and does not increase with the spot
      price or the vault share price. */
  lemma CloseShortCurveFeeMonotone(s: FeeState, s': FeeState, bondAmount: nat, bondAmount': nat,
                                   timeRemaining: nat, timeRemaining': nat)
    requires s'.spotPrice <= s.spotPrice <= ONE && 0 < s'.vaultSharePrice <= s.vaultSharePrice
    requires s.curveFee <= s'.curveFee
    requires bondAmount <= bondAmount' && timeRemaining <= timeRemaining'
    ensures CloseShortCurveFee(s, bondAmount, timeRemaining) <= CloseShortCurveFee(s', bondAmount', timeRemaining')
  {
    MulDownMonotone(s.curveFee, s'.curveFee, ONE - s.spotPrice, ONE - s'.spotPrice);
    MulDivDownMonotone(bondAmount, bondAmount', timeRemaining, timeRemaining',
                       s.vaultSharePrice, s'.vaultSharePrice);
    MulDownMonotone(MulDown(s.curveFee, ONE - s.spotPrice), MulDown(s'.curveFee, ONE - s'.spotPrice),
                    MulDivDown(bondAmount, timeRemaining, s.vaultSharePrice),
                    MulDivDown(bondAmount', timeRemaining', s'.vaultSharePrice));
  }

  /** The close-short flat fee does not decrease with the flat fee rate or the
      bond amount, and does not increase with the time remaining or the vault
      share price. */
  lemma CloseShortFlatFeeMonotone(s: FeeState, s': FeeState, bondAmount: nat, bondAmount': nat,
                                  timeRemaining: nat, timeRemaining': nat)
    requires 0 < s'.vaultSharePrice <= s.vaultSharePrice && s.flatFee <= s'.flatFee
    requires bondAmount <= bondAmount' && timeRemaining' <= timeRemaining <= ONE
    ensures CloseShortFlatFee(s, bondAmount, timeRemaining) <= CloseShortFlatFee(s', bondAmount', timeRemaining')
  {
    MulDivDownMonotone(bondAmount, bondAmount', ONE - timeRemaining, ONE - timeRemaining',
                       s.vaultSharePrice, s'.vaultSharePrice);
    MulDownMonotone(MulDivDown(bondAmount, ONE - timeRemaining, s.vaultSharePrice),
                    MulDivDown(bondAmount', ONE - timeRemaining', s'.vaultSharePrice),
                    s.flatFee, s'.flatFee);
  }

  // ---------------------------------------------------------------------------
  // Relations between the fees

  /** With a curve fee rate of at most one, the open-short curve fee never
      exceeds the trade size. */
  lemma OpenShortCurveFeeAtMostAmount(s: FeeState, shortAmount: nat, spotPrice: nat)
    requires s.curveFee <= ONE && spotPrice <= ONE
    ensures OpenShortCurveFee(s, shortAmount, spotPrice) <= shortAmount
  {
    var m := MulDown(s.curveFee, ONE - spotPrice);
    MulDownByFraction(s.curveFee, ONE - spotPrice);
    MulDownByFraction(m, shortAmount);
  }

  /** Closing a short with its whole term remaining charges the same curve fee
      as opening a short, at the pool's spot price, of the bond amount's share
      equivalent dy / c. */
  lemma CloseShortCurveFeeAtFullTerm(s: FeeState, bondAmount: nat)
    requires s.spotPrice <= ONE && s.vaultSharePrice > 0
    ensures CloseShortCurveFee(s, bondAmount, ONE)
         == OpenShortCurveFee(s, MulDivDown(bondAmount, ONE, s.vaultSharePrice), s.spotPrice)
  {
  }

  // ---------------------------------------------------------------------------
  // Splitting a short into several smaller shorts

  /** The total bond amount of a list of trades. */
  function Sum(amounts: seq<nat>): nat
  {
    if amounts == [] then 0 else amounts[0] + Sum(amounts[1..])
  }

  /** The open-short curve fees paid when each amount is opened as a separate short. */
  function TotalOpenShortCurveFee(s: FeeState, amounts: seq<nat>, spotPrice: nat): nat
    requires spotPrice <= ONE
  {
    if amounts == [] then 0
    else OpenShortCurveFee(s, amounts[0], spotPrice) + TotalOpenShortCurveFee(s, amounts[1..], spotPrice)
  }

  /** Because the fee rounds down, opening a short in pieces at one spot price
      never pays more curve fee than opening it at once, and pays less by fewer
      units (of 10^-18) than there are pieces. */
  lemma {:induction false} OpenShortCurveFeeSplit(s: FeeState, amounts: seq<nat>, spotPrice: nat)
    requires spotPrice <= ONE
    ensures TotalOpenShortCurveFee(s, amounts, spotPrice) <= OpenShortCurveFee(s, Sum(amounts), spotPrice)
    ensures |amounts| > 0 ==>
      OpenShortCurveFee(s, Sum(amounts), spotPrice) < TotalOpenShortCurveFee(s, amounts, spotPrice) + |amounts|
  {
    if amounts != [] {
      var rest := amounts[1..];
      OpenShortCurveFeeSplit(s, rest, spotPrice);
      MulDownSplit(MulDown(s.curveFee, ONE - spotPrice), amounts[0], Sum(rest));
    }
  }

  /** Closing a short in two pieces with the same time remaining never pays
      more curve fee than closing it at once. */
  lemma CloseShortCurveFeeSplit(s: FeeState, bondAmount: nat, bondAmount': nat, timeRemaining: nat)
    requires s.spotPrice <= ONE && s.vaultSharePrice > 0
    ensures CloseShortCurveFee(s, bondAmount, timeRemaining) + CloseShortCurveFee(s, bondAmount', timeRemaining)
         <= CloseShortCurveFee(s, bondAmount + bondAmount', timeRemaining)
  {
    var c := s.vaultSharePrice;
    var m := MulDown(s.curveFee, ONE - s.spotPrice);
    var y, y' := MulDivDown(bondAmount, timeRemaining, c), MulDivDown(bondAmount', timeRemaining, c);
    var y2 := MulDivDown(bondAmount + bondAmount', timeRemaining, c);
    assert (bondAmount + bondAmount') * timeRemaining == bondAmount * timeRemaining + bondAmount' * timeRemaining;
    if y + y' > y2 {
      MulMonotone(y2 + 1, y + y', c, c);
      assert false;
    }
    MulDownSplit(m, y, y');
    MulDownMonotone(m, m, y + y', y2);
  }

  /** Closing a short in two pieces with the same time remaining never pays
      more flat fee than closing it at once. */
  lemma CloseShortFlatFeeSplit(s: FeeState, bondAmount: nat, bondAmount': nat, timeRemaining: nat)
    requires timeRemaining <= ONE && s.vaultSharePrice > 0
    ensures CloseShortFlatFee(s, bondAmount, timeRemaining) + CloseShortFlatFee(s, bondAmount', timeRemaining)
         <= CloseShortFlatFee(s, bondAmount + bondAmount', timeRemaining)
  {
    var c := s.vaultSharePrice;
    var q := ONE - timeRemaining;
    var y, y' := MulDivDown(bondAmount, q, c), MulDivDown(bondAmount', q, c);
    var y2 := MulDivDown(bondAmount + bondAmount', q, c);
    assert (bondAmount + bondAmount') * q == bondAmount * q + bondAmount' * q;
    if y + y' > y2 {
      MulMonotone(y2 + 1, y + y', c, c);
      assert false;
    }
    assert y * s.flatFee == s.flatFee * y && y' * s.flatFee == s.flatFee * y';
    assert (y + y') * s.flatFee == s.flatFee * (y + y');
    MulDownSplit(s.flatFee, y, y');
    MulDownMonotone(y + y', y2, s.flatFee, s.flatFee);
  }
}
