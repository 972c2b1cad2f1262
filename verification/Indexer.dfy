/** indexer.go: polling the chain for logs in bounded block ranges, resuming from a stored block. */
module Indexer {
  import opened Evm

  datatype Log = Log(block: nat, index: nat)
  datatype Range = Range(first: nat, last: nat)

  /** The logs of each block, which the node serves unchanged. */
  type Chain = nat -> seq<Log>

  /** The stored block (0 when no row exists), the ranges processed and the logs handed to processLog. */
  datatype State = State(lastBlock: nat, processed: seq<Range>, handled: seq<Log>)

  const INITIAL := State(0, [], [])

  /** One tick: the head the node reports, if it answers; whether addresses are watched; whether the log query works. */
  datatype Tick = Tick(head: Option<nat>, watching: bool, queryWorks: bool) {
    predicate Succeeds() {
      head.Some? && watching && queryWorks
    }
  }

  /** FilterLogs over an inclusive block range. */
  function LogsBetween(chain: Chain, first: nat, last: nat): seq<Log>
    decreases last - first
  {
    if last < first then []
    else if last == first then chain(last)
    else LogsBetween(chain, first, last - 1) + chain(last)
  }

  /** Where a poll starts: an empty store looks back 1000 blocks. */
  function Start(lastBlock: nat, head: nat): nat {
    if lastBlock != 0 then lastBlock else if head < 1000 then 0 else head - 1000
  }

  function Window(lastBlock: nat, head: nat): Option<Range> {
    var first := Start(lastBlock, head) + 1;
    if first > head then None
    else Some(Range(first, if head - first > 2000 then first + 2000 else head))
  }

  function Poll(chain: Chain, s: State, tick: Tick): State {
    if !tick.Succeeds() || Window(s.lastBlock, tick.head.value).None? then s
    else
      var range := Window(s.lastBlock, tick.head.value).value;
      State(range.last, s.processed + [range], s.handled + LogsBetween(chain, range.first, range.last))
  }

  function Run(chain: Chain, s: State, ticks: seq<Tick>): State
    decreases ticks
  {
    if ticks == [] then s else Run(chain, Poll(chain, s, ticks[0]), ticks[1..])
  }

  lemma {:induction false} LogsJoin(chain: Chain, first: nat, middle: nat, last: nat)
    requires first <= middle < last
    ensures LogsBetween(chain, first, last) == LogsBetween(chain, first, middle) + LogsBetween(chain, middle + 1, last)
    decreases last
  {
    if middle + 1 < last {
      LogsJoin(chain, first, middle, last - 1);
      assert LogsBetween(chain, first, middle) + (LogsBetween(chain, middle + 1, last - 1) + chain(last))
          == (LogsBetween(chain, first, middle) + LogsBetween(chain, middle + 1, last - 1)) + chain(last);
    }
  }

  /** A single block's range holds that block's logs, and an empty range none: with joining, this gives them all. */
  lemma LogsOfBlock(chain: Chain, block: nat)
    ensures LogsBetween(chain, block, block) == chain(block) && LogsBetween(chain, block + 1, block) == []
  {
  }

  /** A poll does anything exactly when the head is known, addresses are watched, the query works and there
      are new blocks. */
  lemma PollsExactly(chain: Chain, s: State, tick: Tick)
    ensures Poll(chain, s, tick) != s <==>
            && tick.head.Some? && tick.watching && tick.queryWorks
            && (if s.lastBlock == 0 then tick.head.value > 0 else s.lastBlock < tick.head.value)
  {
    if Poll(chain, s, tick) != s {
      assert Poll(chain, s, tick).processed != s.processed;
    }
  }

  /** With nothing stored, the first successful poll takes the last 1000 blocks, or all but block 0. */
  lemma FirstPollLooksBack(chain: Chain, tick: Tick)
    requires tick.Succeeds() && tick.head.value > 0
    ensures var head := tick.head.value;
            Poll(chain, INITIAL, tick).processed == [Range(if head < 1000 then 1 else head - 999, head)]
  {
  }

  /** Range i of the list is well formed, at most 2001 blocks, and starts where the one before it ended. */
  predicate Follows(ranges: seq<Range>, i: nat)
    requires i < |ranges|
  {
    && 0 < ranges[i].first <= ranges[i].last <= ranges[i].first + 2000
    && (i > 0 ==> ranges[i].first == ranges[i - 1].last + 1)
  }

  /** The ranges follow on from each other without gap or overlap up to the stored block, and the logs
      handled are exactly those of the blocks covered, in order. */
  ghost predicate Inv(chain: Chain, s: State) {
    && (forall i: nat :: i < |s.processed| ==> Follows(s.processed, i))
    && if s.processed == [] then s.lastBlock == 0 && s.handled == []
       else
         && s.lastBlock == s.processed[|s.processed| - 1].last
         && s.processed[0].first <= s.lastBlock
         && s.handled == LogsBetween(chain, s.processed[0].first, s.lastBlock)
  }

  lemma PollKeepsInv(chain: Chain, s: State, tick: Tick)
    requires Inv(chain, s)
    ensures Inv(chain, Poll(chain, s, tick))
  {
    var s' := Poll(chain, s, tick);
    if s' != s {
      var n := |s.processed|;
      assert n > 0 ==> Follows(s.processed, n - 1);
      forall i: nat | i < |s'.processed| ensures Follows(s'.processed, i) {
        if i < n { assert Follows(s.processed, i); }
      }
      if n > 0 {
        LogsJoin(chain, s.processed[0].first, s.lastBlock, s'.lastBlock);
      }
    }
  }

  lemma {:induction false} RunKeepsInv(chain: Chain, s: State, ticks: seq<Tick>)
    requires Inv(chain, s)
    ensures Inv(chain, Run(chain, s, ticks))
    ensures s.processed <= Run(chain, s, ticks).processed
    decreases ticks
  {
    if ticks != [] {
      PollKeepsInv(chain, s, ticks[0]);
      RunKeepsInv(chain, Poll(chain, s, ticks[0]), ticks[1..]);
    }
  }

  predicate Covers(r: Range, block: nat) {
    r.first <= block <= r.last
  }

  lemma {:induction false} RangesAscend(chain: Chain, s: State, i: nat, j: nat)
    requires Inv(chain, s) && i < j < |s.processed|
    ensures s.processed[i].last < s.processed[j].first
    decreases j
  {
    assert Follows(s.processed, j) && Follows(s.processed, j - 1);
    if i < j - 1 {
      RangesAscend(chain, s, i, j - 1);
    }
  }

  lemma {:induction false} CoveringRange(chain: Chain, s: State, block: nat, n: nat) returns (i: nat)
    requires Inv(chain, s) && 0 < n <= |s.processed|
    requires s.processed[0].first <= block <= s.processed[n - 1].last
    ensures i < n && Covers(s.processed[i], block)
  {
    if s.processed[n - 1].first <= block {
      i := n - 1;
    } else {
      assert Follows(s.processed, n - 1);
      i := CoveringRange(chain, s, block, n - 1);
    }
  }

  /** After any run, whatever failed: every block from the first start block to the stored one was processed
      in exactly one range, no other block was, and the logs handled are exactly those blocks' logs in order. */
  lemma ExactlyOnce(chain: Chain, ticks: seq<Tick>, block: nat)
    requires Run(chain, INITIAL, ticks).processed != []
    ensures var s := Run(chain, INITIAL, ticks);
            && (s.processed[0].first <= block <= s.lastBlock <==>
                exists i :: 0 <= i < |s.processed| && Covers(s.processed[i], block))
            && (forall i, j :: 0 <= i < j < |s.processed| ==>
                  !(Covers(s.processed[i], block) && Covers(s.processed[j], block)))
            && (forall i :: 0 <= i < |s.processed| ==> s.processed[i].last - s.processed[i].first < 2001)
            && s.handled == LogsBetween(chain, s.processed[0].first, s.lastBlock)
  {
    var s := Run(chain, INITIAL, ticks);
    RunKeepsInv(chain, INITIAL, ticks);
    forall i: nat | i < |s.processed| ensures s.processed[i].last - s.processed[i].first < 2001 {
      assert Follows(s.processed, i);
    }
    forall i, j | 0 <= i < j < |s.processed|
      ensures s.processed[i].last < s.processed[j].first
    {
      RangesAscend(chain, s, i, j);
    }
    if s.processed[0].first <= block <= s.lastBlock {
      var i := CoveringRange(chain, s, block, |s.processed|);
    } else {
      forall i: nat | i < |s.processed| ensures !Covers(s.processed[i], block) {
        assert Follows(s.processed, i) && Follows(s.processed, 0) && Follows(s.processed, |s.processed| - 1);
      }
    }
  }

  function Successes(ticks: seq<Tick>): nat {
    if ticks == [] then 0 else Successes(ticks[1..]) + if ticks[0].Succeeds() then 1 else 0
  }

  /** At a fixed head, k successful polls, with any failures between them, move exactly 2001 k blocks on or
      stop at the head. So the head is reached exactly when 2001 k covers the distance. */
  lemma {:induction false} Progress(chain: Chain, s: State, ticks: seq<Tick>, head: nat)
    requires s.lastBlock <= head && forall tick :: tick in ticks && tick.head.Some? ==> tick.head.value == head
    ensures var reach := Start(s.lastBlock, head) + 2001 * Successes(ticks);
            Run(chain, s, ticks).lastBlock ==
            if Successes(ticks) == 0 then s.lastBlock else if reach < head then reach else head
    decreases ticks
  {
    if ticks != [] {
      assert ticks[0] in ticks;
      Progress(chain, Poll(chain, s, ticks[0]), ticks[1..], head);
    }
  }

  /** From below the head, the head is reached exactly by the ceiling of distance / 2001 successful polls. */
  lemma HeadReachedExactly(chain: Chain, s: State, ticks: seq<Tick>, head: nat)
    requires s.lastBlock < head && forall tick :: tick in ticks && tick.head.Some? ==> tick.head.value == head
    ensures Run(chain, s, ticks).lastBlock == head <==>
            Successes(ticks) >= (head - Start(s.lastBlock, head) + 2000) / 2001
  {
    Progress(chain, s, ticks, head);
  }

  class Poller {
    var lastBlock: nat
    var processed: seq<Range>
    var handled: seq<Log>

    ghost function View(): State
      reads this
    {
      State(lastBlock, processed, handled)
    }

    constructor ()
      ensures View() == INITIAL
    {
      lastBlock, processed, handled := 0, [], [];
    }

    method PollOnce(chain: Chain, tick: Tick)
      modifies this
      ensures View() == Poll(chain, old(View()), tick)
    {
      if tick.head.None? { return; }
      var currentBlock: int := tick.head.value;
      var last := lastBlock;
      if last == 0 {
        var start: int := currentBlock - 1000;
        if start < 0 { start := 0; }
        last := start;
      }
      var fromBlock, toBlock := last + 1, currentBlock;
      if fromBlock > toBlock { return; }
      if toBlock - fromBlock > 2000 {
        toBlock := fromBlock + 2000;
      }
      if !tick.watching { return; }
      if !tick.queryWorks { return; }
      var logs := LogsBetween(chain, fromBlock, toBlock);
      for i := 0 to |logs|
        invariant handled == old(handled) + logs[..i]
        invariant lastBlock == old(lastBlock) && processed == old(processed)
      {
        handled := handled + [logs[i]];
      }
      assert logs[..|logs|] == logs;
      lastBlock := toBlock;
      processed := processed + [Range(fromBlock, toBlock)];
    }
  }
}
