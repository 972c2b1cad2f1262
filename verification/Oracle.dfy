/** PriceOracle: converts token amounts to wei through Chainlink-style feeds, rounding down. */
module Oracle {
  import opened Arithmetic
  import opened Evm

  const STALENESS_THRESHOLD: nat := 3600

  datatype State = State(owner: Address, ethUsdFeed: Address, tokenFeeds: map<Address, Address>) {
    function FeedOf(token: Address): Address {
      if token in tokenFeeds then tokenFeeds[token] else Null
    }
  }

  datatype Call = SetTokenFeed(token: Address, feed: Address) | RemoveTokenFeed(token: Address)

  function Apply(s: State, sender: Address, call: Call): Result<State> {
    if sender != s.owner then Revert(NotOwner)
    else if call.SetTokenFeed? then Ok(s.(tokenFeeds := s.tokenFeeds[call.token := call.feed]))
    else Ok(s.(tokenFeeds := s.tokenFeeds - {call.token}))
  }

  /** Only the owner changes feeds, one token at a time; neither the owner nor the ETH feed ever changes. */
  lemma FeedsChangeExactly(s: State, sender: Address, call: Call, token: Address)
    ensures Apply(s, sender, call).Ok? <==> sender == s.owner
    ensures Apply(s, sender, call).Revert? ==> Apply(s, sender, call) == Revert(NotOwner)
    ensures Apply(s, sender, call).Ok? ==>
              var s' := Apply(s, sender, call).value;
              && s'.owner == s.owner && s'.ethUsdFeed == s.ethUsdFeed
              && s'.FeedOf(token) == (if token != call.token then s.FeedOf(token)
                                      else if call.SetTokenFeed? then call.feed else Null)
  {
  }

  /** A reading that is positive and at most one hour old; a reading from the future underflows. */
  function FreshReading(block: Block, feed: Address): (r: Result<Reading>)
    ensures r.Ok? ==> r.value.answer > 0
  {
    if feed !in block.feeds then Revert(NoContract)
    else
      var reading := block.feeds[feed];
      if reading.answer <= 0 then Revert(InvalidPrice)
      else if block.now < reading.updatedAt then Revert(Panic)
      else if block.now - reading.updatedAt > STALENESS_THRESHOLD then Revert(StalePrice)
      else Ok(reading)
  }

  /** The price of one token unit in wei, as the fraction num / den. */
  datatype Rate = Rate(num: nat, den: nat)

  function RateOf(s: State, block: Block, token: Address): (r: Result<Rate>)
    ensures r.Ok? ==> r.value.den > 0
  {
    if token == Null then Ok(Rate(1, 1))
    else if s.FeedOf(token) == Null then Revert(NoFeedConfigured)
    else
      var tokenUsd :- FreshReading(block, s.FeedOf(token));
      var ethUsd :- FreshReading(block, s.ethUsdFeed);
      var scale :- Checked(Pow10(ethUsd.decimals));
      var den :- Checked(ethUsd.answer * Pow10(tokenUsd.decimals));
      assert den > 0 by { MulMonotone(ethUsd.answer, 1, Pow10(tokenUsd.decimals)); }
      Ok(Rate(tokenUsd.answer * scale, den))
  }

  /** The rational value amount * num / den, rounded down; the product must fit 256 bits. */
  function Convert(rate: Rate, amount: Word): Result<Word>
    requires rate.den > 0
  {
    if amount * rate.num < UINT256_LIMIT then
      QuotientBelow(amount * rate.num, rate.den);
      Ok(amount * rate.num / rate.den)
    else Revert(Panic)
  }

  function EthValue(s: State, block: Block, token: Address, amount: Word): Result<Word> {
    var rate :- RateOf(s, block, token);
    Convert(rate, amount)
  }

  /** The conversion is the largest number of wei worth no more than the amount. */
  lemma ConvertIsFloor(rate: Rate, amount: Word)
    requires rate.den > 0 && Convert(rate, amount).Ok?
    ensures var v := Convert(rate, amount).value;
            v * rate.den <= amount * rate.num < (v + 1) * rate.den
  {
    var v, m := Divide(amount * rate.num, rate.den);
    Distribute(rate.den, v, 1);
  }

  lemma FloorIsUnique(n: nat, den: nat, v: nat, u: nat)
    requires u * den <= n < (u + 1) * den
    ensures v * den <= n < (v + 1) * den ==> v == u
  {
    if v < u {
      MulMonotone(den, v + 1, u);
    } else if u < v {
      MulMonotone(den, u + 1, v);
    }
  }

  /** Exactly when a nonzero token has a value in wei, and which: with a feed, fresh readings T of it and E of
      ETH and no overflow, the greatest v worth at most the amount, that is
      amount * T / 10^T.decimals dollars against v * E / 10^E.decimals. */
  lemma EthValueExactly(s: State, block: Block, token: Address, amount: Word, v: Word)
    requires token != Null
    ensures EthValue(s, block, token, amount) == Ok(v) <==>
            && s.FeedOf(token) != Null
            && FreshReading(block, s.FeedOf(token)).Ok? && FreshReading(block, s.ethUsdFeed).Ok?
            && var T, E := block.feeds[s.FeedOf(token)], block.feeds[s.ethUsdFeed];
            && Pow10(E.decimals) < UINT256_LIMIT && E.answer * Pow10(T.decimals) < UINT256_LIMIT
            && amount * (T.answer * Pow10(E.decimals)) < UINT256_LIMIT
            && v * (E.answer * Pow10(T.decimals)) <= amount * (T.answer * Pow10(E.decimals))
                                                  < (v + 1) * (E.answer * Pow10(T.decimals))
  {
    var rate := RateOf(s, block, token);
    if rate.Ok? && Convert(rate.value, amount).Ok? {
      ConvertIsFloor(rate.value, amount);
      FloorIsUnique(amount * rate.value.num, rate.value.den, v, Convert(rate.value, amount).value);
    }
  }

  /** Why a nonzero token has no value, in the order of the checks. */
  lemma EthValueRevertsExactly(s: State, block: Block, token: Address, amount: Word)
    requires token != Null
    ensures var r, T, E := EthValue(s, block, token, amount), FreshReading(block, s.FeedOf(token)),
                           FreshReading(block, s.ethUsdFeed);
            && (r == Revert(NoFeedConfigured) <==> s.FeedOf(token) == Null)
            && (r.Revert? && s.FeedOf(token) != Null && T.Revert? ==> r.error == T.error)
            && (r.Revert? && s.FeedOf(token) != Null && T.Ok? && E.Revert? ==> r.error == E.error)
            && (r.Revert? && s.FeedOf(token) != Null && T.Ok? && E.Ok? ==> r.error == Panic)
  {
  }

  /** A reading is used exactly when the feed answers with something positive, at most an hour old and not
      from the future. */
  lemma FreshExactly(block: Block, feed: Address, reading: Reading)
    ensures FreshReading(block, feed) == Ok(reading) <==>
            && feed in block.feeds && reading == block.feeds[feed] && reading.answer > 0
            && reading.updatedAt <= block.now <= reading.updatedAt + 3600
  {
  }

  /** Why a reading is refused. */
  lemma StaleExactly(block: Block, feed: Address)
    ensures FreshReading(block, feed) == Revert(NoContract) <==> feed !in block.feeds
    ensures feed in block.feeds ==>
              var reading := block.feeds[feed];
              && (FreshReading(block, feed) == Revert(InvalidPrice) <==> reading.answer <= 0)
              && (FreshReading(block, feed) == Revert(StalePrice) <==>
                  reading.answer > 0 && block.now > reading.updatedAt + 3600)
              && (FreshReading(block, feed) == Revert(Panic) <==>
                  reading.answer > 0 && block.now < reading.updatedAt)
  {
  }

  function EthUsdPrice(s: State, block: Block): (r: Result<Word>)
    ensures r.Ok? ==> r.value > 0
  {
    var reading :- FreshReading(block, s.ethUsdFeed);
    Ok(reading.answer)
  }

  /** A price is given exactly for the positive answer of a reading at most an hour old and not from the future. */
  lemma EthUsdPriceIsFresh(s: State, block: Block, price: Word)
    ensures EthUsdPrice(s, block) == Ok(price) <==>
            && s.ethUsdFeed in block.feeds
            && var reading := block.feeds[s.ethUsdFeed];
            && reading.answer == price > 0
            && reading.updatedAt <= block.now <= reading.updatedAt + STALENESS_THRESHOLD
  {
  }

  /** The two partial products overflow exactly when the whole product does. */
  lemma OverflowIsMonotone(a: nat, b: nat)
    requires b > 0 && a * b < UINT256_LIMIT
    ensures a < UINT256_LIMIT
  {
    MulMonotone(a, 1, b);
  }

  /** amount * price * scale / den, left to right in checked arithmetic. */
  method Normalize(amount: Word, price: nat, scale: nat, den: nat) returns (r: Result<Word>)
    requires scale > 0 && den > 0
    ensures r == Convert(Rate(price * scale, den), amount)
  {
    assert amount * (price * scale) == amount * price * scale;
    var value := amount * price;
    if value * scale < UINT256_LIMIT {
      OverflowIsMonotone(value, scale);
      QuotientBelow(value * scale, den);
    }
    if value >= UINT256_LIMIT { return Revert(Panic); }
    if value * scale >= UINT256_LIMIT { return Revert(Panic); }
    return Ok(value * scale / den);
  }

  class PriceOracle {
    const owner: Address
    const ethUsdFeed: Address
    var tokenFeeds: map<Address, Address>

    ghost function View(): State
      reads this
    {
      State(owner, ethUsdFeed, tokenFeeds)
    }

    constructor (sender: Address, ethUsdFeed: Address)
      ensures View() == State(sender, ethUsdFeed, map[])
    {
      this.owner, this.ethUsdFeed, tokenFeeds := sender, ethUsdFeed, map[];
    }

    method SetTokenFeed(sender: Address, token: Address, feed: Address) returns (r: Result<()>)
      modifies this
      ensures Commits(old(View()), r, View(), Apply(old(View()), sender, Call.SetTokenFeed(token, feed)))
    {
      if sender != owner { return Revert(NotOwner); }
      tokenFeeds := tokenFeeds[token := feed];
      return Ok(());
    }

    method RemoveTokenFeed(sender: Address, token: Address) returns (r: Result<()>)
      modifies this
      ensures Commits(old(View()), r, View(), Apply(old(View()), sender, Call.RemoveTokenFeed(token)))
    {
      if sender != owner { return Revert(NotOwner); }
      tokenFeeds := tokenFeeds - {token};
      return Ok(());
    }

    method GetEthValue(block: Block, token: Address, amount: Word) returns (r: Result<Word>)
      ensures r == EthValue(View(), block, token, amount)
    {
      if token == Null {
        assert amount * 1 / 1 == amount;
        return Ok(amount);
      }
      if token !in tokenFeeds || tokenFeeds[token] == Null {
        return Revert(NoFeedConfigured);
      }
      var tokenUsd :- FreshReading(block, tokenFeeds[token]);
      var ethUsd :- FreshReading(block, ethUsdFeed);
      var scale, tokenScale := Pow10(ethUsd.decimals), Pow10(tokenUsd.decimals);
      if scale >= UINT256_LIMIT || ethUsd.answer * tokenScale >= UINT256_LIMIT {
        return Revert(Panic);
      }
      MulMonotone(ethUsd.answer, 1, tokenScale);
      r := Normalize(amount, tokenUsd.answer, scale, ethUsd.answer * tokenScale);
    }

    method GetEthUsdPrice(block: Block) returns (r: Result<Word>)
      ensures r == EthUsdPrice(View(), block)
    {
      var reading :- FreshReading(block, ethUsdFeed);
      return Ok(reading.answer);
    }
  }
}
