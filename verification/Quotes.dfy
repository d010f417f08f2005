/**
  Prices and quotes of the swap maker.

  A decimal number of the program is an exact fraction here, and its conversion to an unsigned
  integer rounds towards zero and fails for negative numbers and numbers that do not fit.
*/
module Quotes {
  import opened Options

  const U64_MAX: nat := 0xffff_ffff_ffff_ffff

  type u64 = x: nat | x <= U64_MAX witness 0

  const ONE_BTC: nat := 100_000_000
  const BDX_OFFSET: nat := 1_000_000_000
  const BELDEX_FEE: nat := 20_000_000
  const RESERVE: nat := 1_000_000_000

  datatype QuoteError = SpreadOverflow | PriceOverflow | DivisionOverflow | AmountOverflow | MaximumOverflow

  datatype Fraction = Fraction(num: int, den: int)

  type Decimal = f: Fraction | f.den > 0 witness Fraction(0, 1)

  function FromInt(n: int): Decimal {
    Fraction(n, 1)
  }

  function Times(a: Decimal, b: Decimal): Decimal {
    assert a.den * b.den > 0;
    Fraction(a.num * b.num, a.den * b.den)
  }

  function CheckedDiv(a: Decimal, b: Decimal): Option<Decimal> {
    if b.num == 0 then None
    else if b.num > 0 then
      assert a.den * b.num > 0;
      Some(Fraction(a.num * b.den, a.den * b.num))
    else
      assert a.den * -b.num > 0;
      Some(Fraction(-(a.num * b.den), a.den * -b.num))
  }

  function ToU64(a: Decimal): Option<u64> {
    if a.num < 0 || a.num / a.den > U64_MAX then None else Some(a.num / a.den)
  }

  function SaturatingSub(a: nat, b: nat): nat {
    if a < b then 0 else a - b
  }

  // The rate.

  datatype Rate = Rate(ask: u64, askSpread: Decimal)

  /** The price in satoshi for one BDX, with the spread applied. */
  function Ask(r: Rate): Result<u64, QuoteError> {
    match ToU64(Times(FromInt(r.ask), r.askSpread))
    case None => Err(SpreadOverflow)
    case Some(additional) => if r.ask + additional > U64_MAX then Err(PriceOverflow) else Ok(r.ask + additional)
  }

  function Quote(rate: u64, quote: u64): Result<u64, QuoteError> {
    var quoteInBtc := CheckedDiv(FromInt(quote), FromInt(ONE_BTC));
    var rateInBtc := CheckedDiv(FromInt(rate), FromInt(ONE_BTC));
    if quoteInBtc.None? || rateInBtc.None? then Err(DivisionOverflow)
    else
      match CheckedDiv(quoteInBtc.value, rateInBtc.value)
      case None => Err(DivisionOverflow)
      case Some(baseInBdx) =>
        match ToU64(Times(baseInBdx, FromInt(BDX_OFFSET)))
        case None => Err(AmountOverflow)
        case Some(atomic) => Ok(atomic)
  }

  function SellQuote(r: Rate, quote: u64): Result<u64, QuoteError> {
    match Ask(r)
    case Err(e) => Err(e)
    case Ok(ask) => Quote(ask, quote)
  }

  /** The most satoshi that can be taken for an amount of BDX, of which the fee is kept. */
  function MaxBitcoinForPrice(amount: u64, askPrice: u64): Option<u64> {
    var atomicMinusFee := SaturatingSub(amount, BELDEX_FEE);
    if atomicMinusFee == 0 then Some(0)
    else
      match CheckedDiv(FromInt(askPrice), FromInt(BDX_OFFSET))
      case None => None
      case Some(askSatsPerAtomic) => ToU64(Times(FromInt(atomicMinusFee), askSatsPerAtomic))
  }

  datatype BidQuote = BidQuote(price: u64, minQuantity: u64, maxQuantity: u64)

  function MakeQuote(r: Rate, unlockedBalance: u64, minBuy: u64, maxBuy: u64): Result<BidQuote, QuoteError> {
    match Ask(r)
    case Err(e) => Err(e)
    case Ok(askPrice) =>
      var bdx := SaturatingSub(unlockedBalance, RESERVE);
      match MaxBitcoinForPrice(bdx, askPrice)
      case None => Err(MaximumOverflow)
      case Some(maxBitcoin) =>
        if minBuy > maxBitcoin then Ok(BidQuote(askPrice, 0, 0))
        else if maxBuy > maxBitcoin then Ok(BidQuote(askPrice, minBuy, maxBitcoin))
        else Ok(BidQuote(askPrice, minBuy, maxBuy))
  }

  // What the functions compute.

  lemma FloorUnique(n: int, d: int, q: int)
    requires d > 0 && q * d <= n < (q + 1) * d
    ensures n / d == q
  {
    var f := n / d;
    assert n == f * d + n % d;
    assert f > q ==> f * d >= (q + 1) * d;
    assert f < q ==> f * d <= (q - 1) * d;
  }

  lemma FloorScaled(n: int, d: int, k: int)
    requires d > 0 && k > 0
    ensures d * k > 0 && (n * k) / (d * k) == n / d
  {
    var q := n / d;
    assert n == q * d + n % d;
    assert q * (d * k) == (q * d) * k;
    assert (n % d) * k <= (d - 1) * k;
    assert n * k == (q * d) * k + (n % d) * k;
    assert (q + 1) * (d * k) == q * (d * k) + d * k;
    assert (d - 1) * k == d * k - k;
    FloorUnique(n * k, d * k, q);
  }

  /** The largest q with q d <= n is the rounded quotient. */
  lemma FloorIsLargest(n: int, d: int, q: int)
    requires d > 0
    ensures q <= n / d <==> q * d <= n
  {
    var f := n / d;
    assert n == f * d + n % d;
    assert q <= f ==> q * d <= f * d;
    assert q >= f + 1 ==> q * d >= (f + 1) * d;
    assert (f + 1) * d == f * d + d;
  }

  /**
    The asking price is the market price with the spread, rounded down; a negative spread or a price that does
    not fit is an error.
  */
  lemma AskContract(r: Rate)
    ensures var num, den := r.askSpread.num, r.askSpread.den;
            && (Ask(r).Ok? <==> r.ask * num >= 0 && r.ask + (r.ask * num) / den <= U64_MAX)
            && (Ask(r).Ok? ==> Ask(r).value * den <= r.ask * (den + num) < (Ask(r).value + 1) * den)
  {
    var num, den := r.askSpread.num, r.askSpread.den;
    var f := (r.ask * num) / den;
    assert r.ask * num == f * den + (r.ask * num) % den;
    assert r.ask * (den + num) == r.ask * den + r.ask * num;
    assert (r.ask + f) * den == r.ask * den + f * den && (r.ask + f + 1) * den == r.ask * den + f * den + den;
  }

  lemma AskError(r: Rate)
    requires Ask(r).Err?
    ensures var additional := r.ask * r.askSpread.num;
            Ask(r).error == if additional < 0 || additional / r.askSpread.den > U64_MAX then SpreadOverflow
                            else PriceOverflow
  {}

  /** A quote is the number of atomic units that the bitcoin pay for, rounded down; a price of zero is an error. */
  lemma QuoteContract(rate: u64, quote: u64)
    ensures rate == 0 ==> Quote(rate, quote) == Err(DivisionOverflow)
    ensures rate > 0 ==>
              var atomic := (quote * BDX_OFFSET) / rate;
              Quote(rate, quote) == if atomic <= U64_MAX then Ok(atomic) else Err(AmountOverflow)
  {
    if rate > 0 {
      var q, r := quote * 1 * (1 * ONE_BTC), 1 * ONE_BTC * (rate * 1);
      assert (q * BDX_OFFSET) == (quote * BDX_OFFSET) * ONE_BTC && r * 1 == rate * ONE_BTC;
      FloorScaled(quote * BDX_OFFSET, rate, ONE_BTC);
    }
  }

  lemma MaxBitcoinContract(amount: u64, askPrice: u64)
    ensures var max := (SaturatingSub(amount, BELDEX_FEE) * askPrice) / BDX_OFFSET;
            MaxBitcoinForPrice(amount, askPrice) == if max <= U64_MAX then Some(max) else None
  {}

  /** The maximum is exact: it is the largest amount whose price in BDX, before rounding, leaves the fee. */
  lemma MaxBitcoinIsExact(amount: u64, askPrice: u64, quote: u64)
    requires MaxBitcoinForPrice(amount, askPrice).Some?
    ensures quote <= MaxBitcoinForPrice(amount, askPrice).value
       <==> quote * BDX_OFFSET <= SaturatingSub(amount, BELDEX_FEE) * askPrice
  {
    MaxBitcoinContract(amount, askPrice);
    FloorIsLargest(SaturatingSub(amount, BELDEX_FEE) * askPrice, BDX_OFFSET, quote);
  }

  /** What the maker can spend: the unlocked balance without the reserve and the fee. */
  function Spendable(unlockedBalance: u64): nat {
    SaturatingSub(SaturatingSub(unlockedBalance, RESERVE), BELDEX_FEE)
  }

  /** A quote that costs no more than the maximum is affordable, and is not refused except for a price of zero. */
  lemma AffordableQuote(rate: u64, amount: u64, quote: u64)
    requires MaxBitcoinForPrice(amount, rate).Some? && quote <= MaxBitcoinForPrice(amount, rate).value
    ensures Quote(rate, quote).Ok? <==> rate > 0
    ensures Quote(rate, quote).Ok? ==> Quote(rate, quote).value <= SaturatingSub(amount, BELDEX_FEE)
  {
    var spendable := SaturatingSub(amount, BELDEX_FEE);
    MaxBitcoinIsExact(amount, rate, quote);
    QuoteContract(rate, quote);
    if rate > 0 {
      FloorIsLargest(quote * BDX_OFFSET, rate, spendable + 1);
      assert (spendable + 1) * rate == spendable * rate + rate;
    }
  }

  /** A quote is refused exactly when there is no price, or the maximum that the balance allows does not fit. */
  lemma QuoteIsMadeIff(r: Rate, unlockedBalance: u64, minBuy: u64, maxBuy: u64)
    ensures var quote := MakeQuote(r, unlockedBalance, minBuy, maxBuy);
            && (Ask(r).Err? ==> quote == Err(Ask(r).error))
            && (Ask(r).Ok? ==>
                  && (quote.Ok? <==> (Spendable(unlockedBalance) * Ask(r).value) / BDX_OFFSET <= U64_MAX)
                  && (quote.Err? ==> quote.error == MaximumOverflow))
  {
    if Ask(r).Ok? {
      MaxBitcoinContract(SaturatingSub(unlockedBalance, RESERVE), Ask(r).value);
    }
  }

  /** The amount that is sold for some bitcoin is their value at the asking price, rounded down. */
  lemma SellQuoteContract(r: Rate, quote: u64)
    ensures Ask(r).Err? ==> SellQuote(r, quote) == Err(Ask(r).error)
    ensures Ask(r) == Ok(0) ==> SellQuote(r, quote) == Err(DivisionOverflow)
    ensures Ask(r).Ok? && Ask(r).value > 0 ==>
              if (quote * BDX_OFFSET) / Ask(r).value > U64_MAX then SellQuote(r, quote) == Err(AmountOverflow)
              else SellQuote(r, quote).Ok?
                   && SellQuote(r, quote).value * Ask(r).value <= quote * BDX_OFFSET
                   && quote * BDX_OFFSET < (SellQuote(r, quote).value + 1) * Ask(r).value
  {
    if Ask(r).Ok? {
      var price := Ask(r).value;
      QuoteContract(price, quote);
      if price > 0 {
        FloorIsLargest(quote * BDX_OFFSET, price, (quote * BDX_OFFSET) / price);
        FloorIsLargest(quote * BDX_OFFSET, price, (quote * BDX_OFFSET) / price + 1);
      }
    }
  }

  /**
    Quotes are solvent: for every balance and rate, the limits of a quote are in order, and every
    sale within them costs at most the unlocked balance without the reserve and the fee.
  */
  lemma QuotesAreSolvent(r: Rate, unlockedBalance: u64, minBuy: u64, maxBuy: u64, quote: u64)
    requires minBuy <= maxBuy && MakeQuote(r, unlockedBalance, minBuy, maxBuy).Ok?
    ensures var bid := MakeQuote(r, unlockedBalance, minBuy, maxBuy).value;
            && bid.minQuantity <= bid.maxQuantity <= maxBuy
            && (quote <= bid.maxQuantity ==>
                  && (SellQuote(r, quote).Ok? <==> bid.price > 0)
                  && (SellQuote(r, quote).Ok? ==> SellQuote(r, quote).value <= Spendable(unlockedBalance)))
  {
    var price := Ask(r).value;
    var bdx := SaturatingSub(unlockedBalance, RESERVE);
    var bid := MakeQuote(r, unlockedBalance, minBuy, maxBuy).value;
    if quote <= bid.maxQuantity {
      AffordableQuote(price, bdx, quote);
    }
  }

  /**
    A quote offers nothing exactly when the smallest amount that the maker wants to sell is not affordable, or
    the limits are zero.
  */
  lemma QuoteIsEmptyIff(r: Rate, unlockedBalance: u64, minBuy: u64, maxBuy: u64)
    requires minBuy <= maxBuy && MakeQuote(r, unlockedBalance, minBuy, maxBuy).Ok?
    ensures var bid := MakeQuote(r, unlockedBalance, minBuy, maxBuy).value;
            bid.maxQuantity == 0 <==>
              || maxBuy == 0
              || minBuy * BDX_OFFSET > Spendable(unlockedBalance) * bid.price
              || BDX_OFFSET > Spendable(unlockedBalance) * bid.price
  {
    var bdx := SaturatingSub(unlockedBalance, RESERVE);
    MaxBitcoinIsExact(bdx, Ask(r).value, minBuy);
    MaxBitcoinIsExact(bdx, Ask(r).value, 1);
  }

  /**
    A quote honours the limits of the maker: while the smallest amount is affordable, exactly the
    amounts between the limits that are affordable before rounding are offered, and otherwise none.
  */
  lemma QuoteOffersWhatIsAffordable(r: Rate, unlockedBalance: u64, minBuy: u64, maxBuy: u64, quote: u64)
    requires minBuy <= quote <= maxBuy && MakeQuote(r, unlockedBalance, minBuy, maxBuy).Ok?
    ensures var bid := MakeQuote(r, unlockedBalance, minBuy, maxBuy).value;
            && Ask(r) == Ok(bid.price)
            && if minBuy * BDX_OFFSET <= Spendable(unlockedBalance) * bid.price then
                 && bid.minQuantity == minBuy
                 && (quote <= bid.maxQuantity <==> quote * BDX_OFFSET <= Spendable(unlockedBalance) * bid.price)
               else bid.minQuantity == 0 == bid.maxQuantity
  {
    var bdx := SaturatingSub(unlockedBalance, RESERVE);
    MaxBitcoinIsExact(bdx, Ask(r).value, minBuy);
    MaxBitcoinIsExact(bdx, Ask(r).value, quote);
  }
}
