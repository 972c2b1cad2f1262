/** GuardrailFeeManager: fee configuration behind a two-step owner, and the fee arithmetic. */
module Fees {
  import opened Arithmetic
  import opened Evm
  import Oracle

  const MAX_TRANSFER_FEE_BPS: nat := 1000
  const BPS: nat := 10000
  const USD_TO_WEI: nat := 1_0000_0000_0000_0000_0000

  datatype State = State(owner: Address, pendingOwner: Address, feeCollector: Address, oracle: Oracle.State,
                         creationFeeUsd: Word, transferFeeBps: Word, transferFeeCapUsd: Word)

  /** An oracle argument of None is the zero address. */
  datatype Call =
    | SetFeeCollector(collector: Address)
    | SetCreationFee(feeUsd: Word)
    | SetTransferFee(bps: Word, capUsd: Word)
    | SetPriceOracle(oracle: Option<Oracle.State>)
    | TransferOwnership(newOwner: Address)
    | AcceptOwnership

  function Deploy(sender: Address, oracle: Option<Oracle.State>, collector: Address,
                  creationFeeUsd: Word, bps: Word, capUsd: Word): Result<State> {
    if oracle.None? || collector == Null then Revert(ZeroAddress)
    else if bps > MAX_TRANSFER_FEE_BPS then Revert(FeeTooHigh)
    else Ok(State(sender, Null, collector, oracle.value, creationFeeUsd, bps, capUsd))
  }

  function Apply(s: State, sender: Address, call: Call): Result<State> {
    if call.AcceptOwnership? then
      if sender != s.pendingOwner then Revert(NotPendingOwner)
      else Ok(s.(owner := s.pendingOwner, pendingOwner := Null))
    else if sender != s.owner then Revert(NotOwner)
    else
      match call
      case SetFeeCollector(collector) =>
        if collector == Null then Revert(ZeroAddress) else Ok(s.(feeCollector := collector))
      case SetCreationFee(feeUsd) => Ok(s.(creationFeeUsd := feeUsd))
      case SetTransferFee(bps, capUsd) =>
        if bps > MAX_TRANSFER_FEE_BPS then Revert(FeeTooHigh)
        else Ok(s.(transferFeeBps := bps, transferFeeCapUsd := capUsd))
      case SetPriceOracle(oracle) =>
        if oracle.None? then Revert(ZeroAddress) else Ok(s.(oracle := oracle.value))
      case TransferOwnership(newOwner) =>
        if newOwner == Null then Revert(ZeroAddress) else Ok(s.(pendingOwner := newOwner))
      case AcceptOwnership => Ok(s)
  }

  /** usdAmount (6 decimals) at an ETH price of 8 decimals. */
  function UsdToWei(s: State, block: Block, usdAmount: Word): Result<Word> {
    if usdAmount == 0 then Ok(0)
    else
      var price :- Oracle.EthUsdPrice(s.oracle, block);
      var scaled :- Checked(usdAmount * USD_TO_WEI);
      QuotientBelow(scaled, price);
      Ok(scaled / price)
  }

  /** The greatest number of wei worth at most the dollars, for a price read as dollars to 8 decimals:
      usdAmount / 10^6 dollars at price / 10^8 dollars for 10^18 wei. */
  lemma UsdToWeiIsFloor(s: State, block: Block, usdAmount: Word)
    requires usdAmount > 0 && UsdToWei(s, block, usdAmount).Ok?
    ensures Oracle.EthUsdPrice(s.oracle, block).Ok?
    ensures var wei, price := UsdToWei(s, block, usdAmount).value, Oracle.EthUsdPrice(s.oracle, block).value;
            wei * price <= usdAmount * USD_TO_WEI < (wei + 1) * price
  {
    var price := Oracle.EthUsdPrice(s.oracle, block).value;
    var wei, rest := Divide(usdAmount * USD_TO_WEI, price);
    Distribute(price, wei, 1);
  }

  /** Dollars of 6 decimals to wei, at a reading's own decimals. */
  function TrueWei(usdAmount: Word, reading: Reading): nat
    requires reading.answer > 0
  {
    MulMonotone(usdAmount, 0, Pow10(12 + reading.decimals));
    QuotientBelow(usdAmount * Pow10(12 + reading.decimals), reading.answer);
    usdAmount * Pow10(12 + reading.decimals) / reading.answer
  }

  lemma TwentyZeros()
    ensures Pow10(20) == USD_TO_WEI
  {
    assert Pow10(5) == 10_0000;
    assert Pow10(10) == 100_0000_0000;
    assert Pow10(15) == 1000_0000_0000_0000;
  }

  /** A dollar amount that fits the conversion and comes out wrong. */
  lemma WrongWei(price: nat, decimals: nat) returns (usdAmount: nat)
    requires 0 < price < UINT256_LIMIT / 2 && decimals != 8
    ensures 0 < usdAmount <= price + 1 && usdAmount * USD_TO_WEI < UINT256_LIMIT
    ensures usdAmount * USD_TO_WEI / price != usdAmount * Pow10(12 + decimals) / price
  {
    TwentyZeros();
    var scale := Pow10(12 + decimals);
    var big := if decimals < 8 then USD_TO_WEI else scale;
    if decimals < 8 {
      Pow10Grows(12 + decimals, 20);
      FloorsDiffer(price, scale, big);
    } else {
      Pow10Grows(20, 12 + decimals);
      FloorsDiffer(price, USD_TO_WEI, big);
    }
    QuotientBelow(price, big);
    var whole, rest := Divide(price, big);
    usdAmount := whole + 1;
    MulMonotone(whole, USD_TO_WEI, big);
    Distribute(USD_TO_WEI, whole, 1);
  }

  /** With a fresh ETH price, every dollar amount converts to what the reading means exactly when the feed
      has 8 decimals. */
  lemma RightAtEightDecimals(s: State, block: Block)
    requires Oracle.FreshReading(block, s.oracle.ethUsdFeed).Ok?
    ensures var reading := Oracle.FreshReading(block, s.oracle.ethUsdFeed).value;
            (forall usdAmount: Word :: UsdToWei(s, block, usdAmount).Ok? ==>
               UsdToWei(s, block, usdAmount).value == TrueWei(usdAmount, reading)) <==> reading.decimals == 8
  {
    var reading := Oracle.FreshReading(block, s.oracle.ethUsdFeed).value;
    if reading.decimals != 8 {
      var usdAmount: Word := WrongWei(reading.answer, reading.decimals);
      assert UsdToWei(s, block, usdAmount).Ok?;
      assert UsdToWei(s, block, usdAmount).value != TrueWei(usdAmount, reading);
    } else {
      TwentyZeros();
      QuotientIs(0, reading.answer, 0, 0);
    }
  }

  /** The feed's own decimals are not consulted: at 2000 dollars for ETH, a feed of 18 decimals makes 10
      dollars 500000 wei, where a feed of 8 gives five thousandths of an ETH. */
  lemma EightDecimalsAssumed(s: State, now: Time, decimals: Uint8)
    requires decimals == 8 || decimals == 18
    ensures var price: Int256 := if decimals == 8 then 2000_0000_0000 else 2000_0000_0000_0000_0000_00;
            UsdToWei(s, Block(now, map[s.oracle.ethUsdFeed := Reading(price, 0, decimals)]), 10_000000)
            == if now > Oracle.STALENESS_THRESHOLD then Revert(StalePrice)
               else Ok(if decimals == 8 then 5_000_000_000_000_000 else 500_000)
  {
  }

  function CreationFee(s: State, block: Block): Result<Word> {
    UsdToWei(s, block, s.creationFeeUsd)
  }

  function TransferFee(s: State, block: Block, value: Word): Result<Word> {
    if value == 0 then Ok(0)
    else
      var product :- Checked(value * s.transferFeeBps);
      var cap :- UsdToWei(s, block, s.transferFeeCapUsd);
      QuotientBelow(product, BPS);
      Ok(if product / BPS > cap then cap else product / BPS)
  }

  /** A creation fee in dollars is the greatest number of wei worth at most as much at the fresh price. */
  lemma CreationFeeExactly(s: State, block: Block, wei: Word)
    ensures CreationFee(s, block) == Ok(wei) <==>
            if s.creationFeeUsd == 0 then wei == 0
            else (&& Oracle.FreshReading(block, s.oracle.ethUsdFeed).Ok?
                  && s.creationFeeUsd * USD_TO_WEI < UINT256_LIMIT
                  && var price := block.feeds[s.oracle.ethUsdFeed].answer;
                  wei * price <= s.creationFeeUsd * USD_TO_WEI < (wei + 1) * price)
  {
    if s.creationFeeUsd > 0 && CreationFee(s, block).Ok? {
      UsdToWeiIsFloor(s, block, s.creationFeeUsd);
      Oracle.FloorIsUnique(s.creationFeeUsd * USD_TO_WEI, block.feeds[s.oracle.ethUsdFeed].answer,
                           wei, CreationFee(s, block).value);
    }
  }

  /** Why a positive value has no fee: its share overflows, the price is not to be had, or the cap overflows. */
  lemma TransferFeeRevertsExactly(s: State, block: Block, value: Word)
    requires value > 0
    ensures var r, price := TransferFee(s, block, value), Oracle.FreshReading(block, s.oracle.ethUsdFeed);
            && (r.Revert? <==>
                || value * s.transferFeeBps >= UINT256_LIMIT
                || (s.transferFeeCapUsd > 0 && (price.Revert? || s.transferFeeCapUsd * USD_TO_WEI >= UINT256_LIMIT)))
            && (r.Revert? ==>
                  r.error == if value * s.transferFeeBps < UINT256_LIMIT && price.Revert? then price.error else Panic)
  {
  }

  /** The lesser of two floors is the greatest number within both bounds. */
  lemma LeastIsExact(n: nat, price: nat, cap: nat, product: nat, share: nat, fee: nat)
    requires cap * price <= n < (cap + 1) * price && share * BPS <= product < (share + 1) * BPS
    ensures fee == (if share > cap then cap else share) <==>
            && fee * price <= n && fee * BPS <= product
            && ((fee + 1) * price > n || (fee + 1) * BPS > product)
  {
    if fee <= cap { MulMonotone(price, fee, cap); }
    if fee < cap { MulMonotone(price, fee + 1, cap); }
    if fee > cap { MulMonotone(price, cap + 1, fee); }
  }

  /** Exactly when a positive value has a fee, and which: with no cap in dollars the fee is zero; otherwise it is
      the greatest number of wei worth at most the cap at the fresh price and at most the share of the value. */
  lemma TransferFeeExactly(s: State, block: Block, value: Word, fee: Word)
    requires value > 0
    ensures TransferFee(s, block, value) == Ok(fee) <==>
            && value * s.transferFeeBps < UINT256_LIMIT
            && if s.transferFeeCapUsd == 0 then fee == 0
               else
                 && Oracle.FreshReading(block, s.oracle.ethUsdFeed).Ok?
                 && s.transferFeeCapUsd * USD_TO_WEI < UINT256_LIMIT
                 && var price := block.feeds[s.oracle.ethUsdFeed].answer;
                 && fee * price <= s.transferFeeCapUsd * USD_TO_WEI && fee * 10000 <= value * s.transferFeeBps
                 && ((fee + 1) * price > s.transferFeeCapUsd * USD_TO_WEI
                     || (fee + 1) * 10000 > value * s.transferFeeBps)
  {
    var product, n := value * s.transferFeeBps, s.transferFeeCapUsd * USD_TO_WEI;
    if product < UINT256_LIMIT && s.transferFeeCapUsd > 0 && n < UINT256_LIMIT
      && Oracle.FreshReading(block, s.oracle.ethUsdFeed).Ok?
    {
      var price := block.feeds[s.oracle.ethUsdFeed].answer;
      var share, rest := Divide(product, BPS);
      var cap, change := Divide(n, price);
      Distribute(price, cap, 1);
      assert TransferFee(s, block, value) == Ok(if share > cap then cap else share);
      LeastIsExact(n, price, cap, product, share, fee);
    }
  }

  // ----- configurations -----

  /** What deployment accepts and sets, with the maximum share of 1000 basis points written out. */
  lemma DeploysExactly(sender: Address, oracle: Option<Oracle.State>, collector: Address,
                       creationFeeUsd: Word, bps: Word, capUsd: Word)
    ensures var r := Deploy(sender, oracle, collector, creationFeeUsd, bps, capUsd);
            && (r.Ok? <==> oracle.Some? && collector != Null && bps <= 1000)
            && (r == Revert(ZeroAddress) <==> oracle == None || collector == Null)
            && (r.Revert? ==> r.error == ZeroAddress || r.error == FeeTooHigh)
            && (r.Ok? ==>
                  && r.value.owner == sender && r.value.pendingOwner == Null && r.value.feeCollector == collector
                  && Some(r.value.oracle) == oracle && r.value.creationFeeUsd == creationFeeUsd
                  && r.value.transferFeeBps == bps && r.value.transferFeeCapUsd == capUsd)
  {
  }

  /** Only the nominee accepts ownership and only the owner does anything else, within the limits; each call
      changes its own setting and no other. Ownership moves by acceptance alone. */
  lemma SettersExactly(s: State, sender: Address, call: Call)
    ensures Apply(s, sender, call).Ok? <==>
            if call.AcceptOwnership? then sender == s.pendingOwner
            else (&& sender == s.owner
                  && (call.SetFeeCollector? ==> call.collector != Null)
                  && (call.SetTransferFee? ==> call.bps <= 1000)
                  && (call.SetPriceOracle? ==> call.oracle.Some?)
                  && (call.TransferOwnership? ==> call.newOwner != Null))
    ensures Apply(s, sender, call).Revert? ==>
              Apply(s, sender, call).error ==
              if call.AcceptOwnership? then NotPendingOwner
              else if sender != s.owner then NotOwner
              else if call.SetTransferFee? then FeeTooHigh
              else ZeroAddress
    ensures Apply(s, sender, call).Ok? ==>
              var s' := Apply(s, sender, call).value;
              && s'.owner == (if call.AcceptOwnership? then sender else s.owner)
              && s'.pendingOwner == (if call.AcceptOwnership? then Null
                                     else if call.TransferOwnership? then call.newOwner else s.pendingOwner)
              && s'.feeCollector == (if call.SetFeeCollector? then call.collector else s.feeCollector)
              && s'.creationFeeUsd == (if call.SetCreationFee? then call.feeUsd else s.creationFeeUsd)
              && s'.transferFeeBps == (if call.SetTransferFee? then call.bps else s.transferFeeBps)
              && s'.transferFeeCapUsd == (if call.SetTransferFee? then call.capUsd else s.transferFeeCapUsd)
              && s'.oracle == (if call.SetPriceOracle? then call.oracle.value else s.oracle)
  {
  }

  predicate Configured(s: State) {
    s.transferFeeBps <= MAX_TRANSFER_FEE_BPS && s.feeCollector != Null
  }

  datatype Tx = Tx(sender: Address, call: Call)

  function Run(s: State, txs: seq<Tx>): State
    decreases txs
  {
    if txs == [] then s
    else
      var r := Apply(s, txs[0].sender, txs[0].call);
      Run(if r.Ok? then r.value else s, txs[1..])
  }

  lemma {:induction false} RunKeepsConfigured(s: State, txs: seq<Tx>)
    requires Configured(s)
    ensures Configured(Run(s, txs))
    decreases txs
  {
    if txs != [] {
      var r := Apply(s, txs[0].sender, txs[0].call);
      RunKeepsConfigured(if r.Ok? then r.value else s, txs[1..]);
    }
  }

  /** Every configuration reachable from a deployment has a share of at most ten percent and a collector. */
  lemma ReachableIsConfigured(sender: Address, oracle: Option<Oracle.State>, collector: Address,
                              creationFeeUsd: Word, bps: Word, capUsd: Word, txs: seq<Tx>)
    requires Deploy(sender, oracle, collector, creationFeeUsd, bps, capUsd).Ok?
    ensures Configured(Run(Deploy(sender, oracle, collector, creationFeeUsd, bps, capUsd).value, txs))
  {
    RunKeepsConfigured(Deploy(sender, oracle, collector, creationFeeUsd, bps, capUsd).value, txs);
  }

  // ----- splitting -----

  /** The sum of the fees of separate transfers, when none reverts. */
  function FeeSum(s: State, block: Block, values: seq<Word>): Result<nat> {
    if values == [] then Ok(0)
    else
      var fee :- TransferFee(s, block, values[0]);
      var rest :- FeeSum(s, block, values[1..]);
      Ok(fee + rest)
  }

  /** A fee the whole can be charged is a fee every part can be charged. */
  lemma PartQuoted(s: State, block: Block, part: Word, whole: Word)
    requires part <= whole && TransferFee(s, block, whole).Ok?
    ensures TransferFee(s, block, part).Ok?
  {
    MulMonotone(s.transferFeeBps, part, whole);
    assert s.transferFeeBps * part == part * s.transferFeeBps;
    assert s.transferFeeBps * whole == whole * s.transferFeeBps;
  }

  /** Either no part meets the fee cap, and the fees are the floored shares, or one does, and they cover the cap. */
  lemma {:induction false} FeeSumBounds(s: State, block: Block, values: seq<Word>, whole: Word)
    requires Sum(values) <= whole && TransferFee(s, block, whole).Ok?
    ensures FeeSum(s, block, values).Ok?
    ensures FeeSum(s, block, values).value <= SumScaled(values, s.transferFeeBps, BPS)
    ensures FeeSum(s, block, values).value == SumScaled(values, s.transferFeeBps, BPS)
            || (UsdToWei(s, block, s.transferFeeCapUsd).Ok?
                && FeeSum(s, block, values).value >= UsdToWei(s, block, s.transferFeeCapUsd).value)
  {
    if values != [] {
      FeeSumBounds(s, block, values[1..], whole);
      PartQuoted(s, block, values[0], whole);
      if values[0] == 0 {
        QuotientIs(0, BPS, 0, 0);
      }
    }
  }

  lemma ShareBelowTenth(value: nat, bps: nat)
    requires bps <= MAX_TRANSFER_FEE_BPS
    ensures value * bps / BPS <= value / 10
  {
    MulMonotone(value, bps, MAX_TRANSFER_FEE_BPS);
    DivMonotone(value * bps, value * MAX_TRANSFER_FEE_BPS, BPS);
    QuotientIs(value * 1000, 10000, value / 10, (value % 10) * 1000);
  }

  /** In every reachable configuration, charging n parts instead of the whole saves at most n - 1 wei,
      and the fees never exceed the configured share of the whole, nor a tenth of it. */
  lemma SplittingSavesLittle(s: State, block: Block, values: seq<Word>)
    requires Configured(s) && values != [] && Sum(values) < UINT256_LIMIT
    requires TransferFee(s, block, Sum(values)).Ok?
    ensures FeeSum(s, block, values).Ok?
    ensures TransferFee(s, block, Sum(values)).value - (|values| - 1) <= FeeSum(s, block, values).value
    ensures FeeSum(s, block, values).value <= Sum(values) * s.transferFeeBps / BPS <= Sum(values) / 10
  {
    var whole := Sum(values);
    FeeSumBounds(s, block, values, whole);
    RoundingLoss(values, s.transferFeeBps, BPS);
    ShareBelowTenth(whole, s.transferFeeBps);
    if whole == 0 {
      QuotientIs(0, BPS, 0, 0);
    }
  }

  /** A single fee is at most a tenth of the value, so subtracting it never underflows. */
  lemma FeeBelowTenth(s: State, block: Block, value: Word)
    requires Configured(s) && TransferFee(s, block, value).Ok?
    ensures TransferFee(s, block, value).value <= value / 10
  {
    ShareBelowTenth(value, s.transferFeeBps);
  }

  /** Fees of transfers too small to be charged anything. */
  lemma {:induction false} FreeCopies(s: State, block: Block, v: Word, n: nat)
    requires TransferFee(s, block, v) == Ok(0)
    ensures FeeSum(s, block, Copies(v, n)) == Ok(0)
  {
    if n > 0 {
      FreeCopies(s, block, v, n - 1);
      assert Copies(v, n)[1..] == Copies(v, n - 1);
    }
  }

  /** The bound is met: at one basis point and under a cap that the whole does not reach, n transfers of
      9999 wei are free while the whole is charged n - 1 wei. */
  lemma SplittingBoundIsTight(s: State, block: Block, n: nat)
    requires s.transferFeeBps == 1 && 0 < n <= BPS
    requires var cap := UsdToWei(s, block, s.transferFeeCapUsd); cap.Ok? && cap.value >= n - 1
    ensures Sum(Copies(9999, n)) == n * 9999 < UINT256_LIMIT
    ensures TransferFee(s, block, Sum(Copies(9999, n))) == Ok(n - 1)
    ensures FeeSum(s, block, Copies(9999, n)) == Ok(0)
  {
    SumOfEqual(Copies(9999, n), 9999);
    QuotientIs(9999, BPS, 0, 9999);
    QuotientIs(n * 9999, BPS, n - 1, BPS - n);
    FreeCopies(s, block, 9999, n);
  }

  class GuardrailFeeManager {
    var owner: Address
    var pendingOwner: Address
    var feeCollector: Address
    var priceOracle: Oracle.PriceOracle
    var creationFeeUsd: Word
    var transferFeeBps: Word
    var transferFeeCapUsd: Word

    ghost function View(): State
      reads this, priceOracle
    {
      State(owner, pendingOwner, feeCollector, priceOracle.View(), creationFeeUsd, transferFeeBps, transferFeeCapUsd)
    }

    /** The constructor past its three guards. */
    constructor (sender: Address, oracle: Oracle.PriceOracle, collector: Address,
                 creationFeeUsd: Word, bps: Word, capUsd: Word)
      requires Deploy(sender, Some(oracle.View()), collector, creationFeeUsd, bps, capUsd).Ok?
      ensures Ok(View()) == Deploy(sender, Some(oracle.View()), collector, creationFeeUsd, bps, capUsd)
      ensures Configured(View())
    {
      owner, pendingOwner, feeCollector, priceOracle := sender, Null, collector, oracle;
      this.creationFeeUsd, transferFeeBps, transferFeeCapUsd := creationFeeUsd, bps, capUsd;
    }

    method ToWei(block: Block, usdAmount: Word) returns (r: Result<Word>)
      ensures r == UsdToWei(View(), block, usdAmount)
    {
      if usdAmount == 0 { return Ok(0); }
      var ethUsdPrice :- priceOracle.GetEthUsdPrice(block);
      if usdAmount * USD_TO_WEI >= UINT256_LIMIT { return Revert(Panic); }
      QuotientBelow(usdAmount * USD_TO_WEI, ethUsdPrice);
      return Ok(usdAmount * USD_TO_WEI / ethUsdPrice);
    }

    method GetCreationFeeWei(block: Block) returns (r: Result<Word>)
      ensures r == CreationFee(View(), block)
    {
      r := ToWei(block, creationFeeUsd);
    }

    method CalculateTransferFee(block: Block, value: Word) returns (r: Result<Word>)
      ensures r == TransferFee(View(), block, value)
    {
      if value == 0 { return Ok(0); }
      if value * transferFeeBps >= UINT256_LIMIT { return Revert(Panic); }
      QuotientBelow(value * transferFeeBps, BPS);
      var fee := value * transferFeeBps / BPS;
      var capWei :- ToWei(block, transferFeeCapUsd);
      if fee > capWei { return Ok(capWei); }
      return Ok(fee);
    }

    method SetFeeCollector(sender: Address, collector: Address) returns (r: Result<()>)
      modifies this
      ensures Commits(old(View()), r, View(), Apply(old(View()), sender, Call.SetFeeCollector(collector)))
      ensures old(Configured(View())) ==> Configured(View())
    {
      if sender != owner { return Revert(NotOwner); }
      if collector == Null { return Revert(ZeroAddress); }
      feeCollector := collector;
      return Ok(());
    }

    method SetCreationFee(sender: Address, feeUsd: Word) returns (r: Result<()>)
      modifies this
      ensures Commits(old(View()), r, View(), Apply(old(View()), sender, Call.SetCreationFee(feeUsd)))
    {
      if sender != owner { return Revert(NotOwner); }
      creationFeeUsd := feeUsd;
      return Ok(());
    }

    method SetTransferFee(sender: Address, bps: Word, capUsd: Word) returns (r: Result<()>)
      modifies this
      ensures Commits(old(View()), r, View(), Apply(old(View()), sender, Call.SetTransferFee(bps, capUsd)))
      ensures old(Configured(View())) ==> Configured(View())
    {
      if sender != owner { return Revert(NotOwner); }
      if bps > MAX_TRANSFER_FEE_BPS { return Revert(FeeTooHigh); }
      transferFeeBps, transferFeeCapUsd := bps, capUsd;
      return Ok(());
    }

    method SetPriceOracle(sender: Address, oracle: Oracle.PriceOracle?) returns (r: Result<()>)
      modifies this
      ensures Commits(old(View()), r, View(),
                      Apply(old(View()), sender,
                            Call.SetPriceOracle(if oracle == null then None else Some(oracle.View()))))
    {
      if sender != owner { return Revert(NotOwner); }
      if oracle == null { return Revert(ZeroAddress); }
      priceOracle := oracle;
      return Ok(());
    }

    method TransferOwnership(sender: Address, newOwner: Address) returns (r: Result<()>)
      modifies this
      ensures Commits(old(View()), r, View(), Apply(old(View()), sender, Call.TransferOwnership(newOwner)))
    {
      if sender != owner { return Revert(NotOwner); }
      if newOwner == Null { return Revert(ZeroAddress); }
      pendingOwner := newOwner;
      return Ok(());
    }

    method AcceptOwnership(sender: Address) returns (r: Result<()>)
      modifies this
      ensures Commits(old(View()), r, View(), Apply(old(View()), sender, Call.AcceptOwnership))
    {
      if sender != pendingOwner { return Revert(NotPendingOwner); }
      owner := pendingOwner;
      pendingOwner := Null;
      return Ok(());
    }
  }

  /** The whole constructor call, which reverts on a zero address or a share above the maximum. */
  method DeployFeeManager(sender: Address, oracle: Oracle.PriceOracle?, collector: Address,
                          creationFeeUsd: Word, bps: Word, capUsd: Word) returns (r: Result<GuardrailFeeManager>)
    ensures match Deploy(sender, if oracle == null then None else Some(oracle.View()), collector,
                         creationFeeUsd, bps, capUsd)
            case Ok(s) => r.Ok? && fresh(r.value) && r.value.View() == s && Configured(s)
            case Revert(e) => r == Revert(e)
  {
    if oracle == null { return Revert(ZeroAddress); }
    if collector == Null { return Revert(ZeroAddress); }
    if bps > MAX_TRANSFER_FEE_BPS { return Revert(FeeTooHigh); }
    var manager := new GuardrailFeeManager(sender, oracle, collector, creationFeeUsd, bps, capUsd);
    return Ok(manager);
  }
}
