/** Building chain state from consumed blocks. */
module Builder {
  import opened Blocks
  import opened Execution
  import opened Executor
  import opened Forest
  import opened Primitives
  import opened Schedule
  import opened State
  import opened Wrappers

  datatype ChainBlock = ChainBlock(height: nat, parent: Hash, transactions: seq<Transaction>)

  datatype BuilderError =
    | InvalidBlockHeight(height: nat, expected: nat)
    | InvalidBlockParent(parent: Hash, expected: Hash)
    | NoInitialBlocks

  type HashOf = ChainBlock -> Hash

  /** Block heights are 64-bit. */
  function NextHeight(h: nat): nat {
    (h + 1) % TWO_TO_THE_64
  }

  // ---- The chain of recent blocks, newest first ----

  predicate Extends(hash: HashOf, block: ChainBlock, last: ChainBlock) {
    block.parent == hash(last) && block.height == NextHeight(last.height)
  }

  predicate Linked(hash: HashOf, recent: seq<ChainBlock>) {
    forall k :: 0 <= k < |recent| - 1 ==> Extends(hash, recent[k], recent[k + 1])
  }

  /** The new block in front; one old block drops out when there are more than the history holds. */
  function Push(historyLen: nat, recent: seq<ChainBlock>, block: ChainBlock): seq<ChainBlock> {
    var more := [block] + recent;
    if |more| > historyLen then more[..|more| - 1] else more
  }

  function Check(hash: HashOf, recent: seq<ChainBlock>, block: ChainBlock): Option<BuilderError>
    requires recent != []
  {
    if block.parent != hash(recent[0]) then Some(InvalidBlockParent(block.parent, hash(recent[0])))
    else if block.height != NextHeight(recent[0].height)
        then Some(InvalidBlockHeight(block.height, NextHeight(recent[0].height)))
    else None
  }

  /** A block fits if it names the newest block as its parent and has the next height; the parent is looked at first. */
  lemma CheckExactly(hash: HashOf, recent: seq<ChainBlock>, block: ChainBlock)
    requires recent != []
    ensures var next := if recent[0].height == TWO_TO_THE_64 - 1 then 0 else recent[0].height + 1;
            recent[0].height < TWO_TO_THE_64 ==>
            match Check(hash, recent, block)
            case None => block.parent == hash(recent[0]) && block.height == next
            case Some(e) =>
              if block.parent != hash(recent[0]) then e == InvalidBlockParent(block.parent, hash(recent[0]))
              else block.height != next && e == InvalidBlockHeight(block.height, next)
  {
  }

  lemma PushKeepsChain(hash: HashOf, historyLen: nat, recent: seq<ChainBlock>, block: ChainBlock)
    requires historyLen > 0 && recent != [] && Linked(hash, recent) && Check(hash, recent, block) == None
    ensures var next := Push(historyLen, recent, block);
            && next != [] && next[0] == block && Linked(hash, next)
            && (forall k :: 0 < k < |next| ==> next[k] == recent[k - 1])
            && |next| == if |recent| < historyLen then |recent| + 1 else |recent|
  {
    var more := [block] + recent;
    forall k | 0 <= k < |more| - 1 ensures Extends(hash, more[k], more[k + 1]) {
      assert k > 0 ==> more[k] == recent[k - 1] && more[k + 1] == recent[k];
    }
  }

  // ---- Runs ----

  /** The results of a block, transaction by transaction. */
  function BlockResults(judges: Judges, s: Accounts, txs: seq<Transaction>): (results: seq<TxResult>)
    ensures |results| == |txs|
  {
    var links := LinksOf(RefsOfBlock(txs, s));
    seq(|txs|, i requires 0 <= i < |txs| => BlockResult(BlockExec(judges, txs), s, links, i))
  }

  datatype Chain = Chain(state: Accounts, recent: seq<ChainBlock>)

  function Consume(judges: Judges, hash: HashOf, historyLen: nat, c: Chain, block: ChainBlock): Chain
    requires c.recent != []
  {
    if Check(hash, c.recent, block).Some? then c
    else Chain(ApplyAll(c.state, Successes(BlockResults(judges, c.state, block.transactions))),
               Push(historyLen, c.recent, block))
  }

  /** How each block of a run is judged. */
  type Judging = nat -> Judges

  function ConsumeAll(judging: Judging, hash: HashOf, historyLen: nat, c: Chain, blocks: seq<ChainBlock>): (r: Chain)
    requires c.recent != [] && historyLen > 0
    ensures r.recent != []
  {
    if blocks == [] then c
    else Consume(judging(|blocks| - 1), hash, historyLen,
                 ConsumeAll(judging, hash, historyLen, c, blocks[..|blocks| - 1]), blocks[|blocks| - 1])
  }

  /** Over every run the history stays a non-empty hash and height chain, no longer than it was or than its bound. */
  lemma {:induction false} HistoryStaysAChain(judging: Judging, hash: HashOf, historyLen: nat, c: Chain,
                                              blocks: seq<ChainBlock>)
    requires c.recent != [] && historyLen > 0 && Linked(hash, c.recent)
    ensures var r := ConsumeAll(judging, hash, historyLen, c, blocks);
            && Linked(hash, r.recent) && |c.recent| <= |r.recent|
            && (|r.recent| <= historyLen || |r.recent| == |c.recent|)
  {
    if blocks != [] {
      HistoryStaysAChain(judging, hash, historyLen, c, blocks[..|blocks| - 1]);
      var before := ConsumeAll(judging, hash, historyLen, c, blocks[..|blocks| - 1]);
      var block := blocks[|blocks| - 1];
      if Check(hash, before.recent, block) == None {
        PushKeepsChain(hash, historyLen, before.recent, block);
      }
    }
  }

  /** Each block names the digest of the one before it and is one higher, with 64 bits to count in. */
  ghost predicate Numbered(hash: HashOf, recent: seq<ChainBlock>) {
    forall k :: 0 <= k < |recent| - 1 ==>
      && recent[k].parent == hash(recent[k + 1])
      && recent[k].height == if recent[k + 1].height == TWO_TO_THE_64 - 1 then 0 else recent[k + 1].height + 1
  }

  predicate Counted(recent: seq<ChainBlock>) {
    forall k :: 0 <= k < |recent| ==> recent[k].height < TWO_TO_THE_64
  }

  lemma LinkedIsNumbered(hash: HashOf, recent: seq<ChainBlock>)
    requires Counted(recent)
    ensures Linked(hash, recent) <==> Numbered(hash, recent)
  {
    if Linked(hash, recent) {
      assert forall k :: 0 <= k < |recent| - 1 ==> Extends(hash, recent[k], recent[k + 1]);
    }
    if Numbered(hash, recent) {
      forall k | 0 <= k < |recent| - 1 ensures Extends(hash, recent[k], recent[k + 1]) {
        assert recent[k].parent == hash(recent[k + 1]);
      }
    }
  }

  /** Over every run heights go up one by one and every block is the parent of the next. */
  lemma {:induction false} HistoryIsNumbered(judging: Judging, hash: HashOf, historyLen: nat, c: Chain,
                                             blocks: seq<ChainBlock>)
    requires c.recent != [] && historyLen > 0 && Numbered(hash, c.recent) && Counted(c.recent)
    ensures var r := ConsumeAll(judging, hash, historyLen, c, blocks); Counted(r.recent) && Numbered(hash, r.recent)
  {
    LinkedIsNumbered(hash, c.recent);
    HistoryStaysAChain(judging, hash, historyLen, c, blocks);
    HistoryIsCounted(judging, hash, historyLen, c, blocks);
    LinkedIsNumbered(hash, ConsumeAll(judging, hash, historyLen, c, blocks).recent);
  }

  lemma {:induction false} HistoryIsCounted(judging: Judging, hash: HashOf, historyLen: nat, c: Chain,
                                            blocks: seq<ChainBlock>)
    requires c.recent != [] && historyLen > 0 && Counted(c.recent)
    ensures Counted(ConsumeAll(judging, hash, historyLen, c, blocks).recent)
  {
    if blocks != [] {
      HistoryIsCounted(judging, hash, historyLen, c, blocks[..|blocks| - 1]);
    }
  }

  /** A history that starts out longer than its bound never shrinks to it. */
  lemma OversizedHistoryStays(judging: Judging, hash: HashOf, historyLen: nat, c: Chain, blocks: seq<ChainBlock>)
    requires 0 < historyLen < |c.recent| && Linked(hash, c.recent)
    ensures |ConsumeAll(judging, hash, historyLen, c, blocks).recent| == |c.recent|
  {
    HistoryStaysAChain(judging, hash, historyLen, c, blocks);
  }

  /** With a collision-free hash a block is not accepted twice in a row. */
  lemma ReplayIsRejected(judges: Judges, hash: HashOf, historyLen: nat, c: Chain, block: ChainBlock)
    requires c.recent != [] && historyLen > 0 && Check(hash, c.recent, block) == None
    requires forall x, y :: hash(x) == hash(y) ==> x == y
    ensures Check(hash, Consume(judges, hash, historyLen, c, block).recent, block).Some?
  {
    var recent := Push(historyLen, c.recent, block);
    assert recent[0] == block;
    assert NextHeight(block.height) != block.height;
    assert block != c.recent[0];
    assert hash(block) != hash(c.recent[0]);
  }

  /** The newest block of the history is the last one that was accepted. */
  lemma {:induction false} NewestIsLastAccepted(judging: Judging, hash: HashOf, historyLen: nat, c: Chain,
                                                blocks: seq<ChainBlock>)
      returns (k: nat)
    requires c.recent != [] && historyLen > 0
    ensures var r := ConsumeAll(judging, hash, historyLen, c, blocks);
            || r == c
            || (k < |blocks| && r.recent[0] == blocks[k] && AcceptedLast(judging, hash, historyLen, c, blocks, k))
  {
    hide Check, BlockResults, Successes, AcceptedLast;
    k := 0;
    if blocks != [] {
      var front, last := blocks[..|blocks| - 1], |blocks| - 1;
      k := NewestIsLastAccepted(judging, hash, historyLen, c, front);
      if AcceptedAt(judging, hash, historyLen, c, blocks, last) {
        k := last;
        OnlyTheLast(judging, hash, historyLen, c, blocks);
      } else if k < last && AcceptedLast(judging, hash, historyLen, c, front, k) {
        StillTheLast(judging, hash, historyLen, c, blocks, k);
      }
    }
  }

  lemma OnlyTheLast(judging: Judging, hash: HashOf, historyLen: nat, c: Chain, blocks: seq<ChainBlock>)
    requires c.recent != [] && historyLen > 0 && blocks != []
    requires AcceptedAt(judging, hash, historyLen, c, blocks, |blocks| - 1)
    ensures AcceptedLast(judging, hash, historyLen, c, blocks, |blocks| - 1)
  {
  }

  lemma StillTheLast(judging: Judging, hash: HashOf, historyLen: nat, c: Chain, blocks: seq<ChainBlock>, k: nat)
    requires c.recent != [] && historyLen > 0 && blocks != [] && k < |blocks| - 1
    requires AcceptedLast(judging, hash, historyLen, c, blocks[..|blocks| - 1], k)
    requires !AcceptedAt(judging, hash, historyLen, c, blocks, |blocks| - 1)
    ensures AcceptedLast(judging, hash, historyLen, c, blocks, k)
  {
    hide ConsumeAll, Check;
    var front := blocks[..|blocks| - 1];
    forall j: nat | k <= j < |blocks| ensures AcceptedAt(judging, hash, historyLen, c, blocks, j) <==> j == k {
      if j < |front| {
        assert front[..j] == blocks[..j];
        assert AcceptedAt(judging, hash, historyLen, c, front, j) <==> j == k;
      }
    }
  }

  predicate AcceptedAt(judging: Judging, hash: HashOf, historyLen: nat, c: Chain, blocks: seq<ChainBlock>, k: nat)
    requires c.recent != [] && historyLen > 0 && k < |blocks|
  {
    Check(hash, ConsumeAll(judging, hash, historyLen, c, blocks[..k]).recent, blocks[k]) == None
  }

  /** The k-th block was accepted and no later one was. */
  ghost predicate AcceptedLast(judging: Judging, hash: HashOf, historyLen: nat, c: Chain, blocks: seq<ChainBlock>,
                               k: nat)
    requires c.recent != [] && historyLen > 0
  {
    forall j: nat :: k <= j < |blocks| ==> (AcceptedAt(judging, hash, historyLen, c, blocks, j) <==> j == k)
  }

  /** Consuming a schedulable block leaves the state that running its transactions one after the other leaves. */
  lemma ConsumedBlockIsSerial(judges: Judges, hash: HashOf, historyLen: nat, c: Chain, block: ChainBlock)
    requires c.recent != [] && historyLen > 0 && Check(hash, c.recent, block) == None
    requires Schedulable(block.transactions, c.state)
    ensures Consume(judges, hash, historyLen, c, block).state ==
            SerialState(BlockExec(judges, block.transactions), c.state, |block.transactions|)
  {
    hide Schedulable;
    var txs := block.transactions;
    var exec, results := BlockExec(judges, txs), BlockResults(judges, c.state, txs);
    forall i | 0 <= i < |txs| ensures SameEffect(results[i], SerialResult(exec, c.state, i)) {
      BlockRefinesSerial(judges, txs, c.state, i);
    }
    SuccessesLeadToSerialState(exec, c.state, results);
  }

  /** However the serial run is judged, if no predicate crashes along it, it leads to the same state. */
  lemma ConsumedBlockIsAnySerialRun(invoke: ContextInvoke, parallel: Judges, serial: Judges, hash: HashOf,
                                    historyLen: nat, c: Chain, block: ChainBlock)
    requires c.recent != [] && historyLen > 0 && Check(hash, c.recent, block) == None
    requires Schedulable(block.transactions, c.state)
    requires AllLegal(parallel, invoke) && AllLegal(serial, invoke)
    requires CrashFreeAlong(invoke, serial, block.transactions, c.state)
    ensures Consume(parallel, hash, historyLen, c, block).state ==
            SerialState(BlockExec(serial, block.transactions), c.state, |block.transactions|)
  {
    ConsumedBlockIsSerial(parallel, hash, historyLen, c, block);
    SerialRunsAgree(invoke, serial, parallel, block.transactions, c.state, |block.transactions|);
  }

  // ---- Runs of blocks ----

  /** The transactions of all accepted blocks, in order. */
  function AcceptedTransactions(judging: Judging, hash: HashOf, historyLen: nat, c: Chain, blocks: seq<ChainBlock>)
      : seq<Transaction>
    requires c.recent != [] && historyLen > 0
  {
    if blocks == [] then []
    else
      var front, last := blocks[..|blocks| - 1], |blocks| - 1;
      AcceptedTransactions(judging, hash, historyLen, c, front) +
      if AcceptedAt(judging, hash, historyLen, c, blocks, last) then blocks[last].transactions else []
  }

  /** How each of them was judged. */
  function ChainJudges(judging: Judging, hash: HashOf, historyLen: nat, c: Chain, blocks: seq<ChainBlock>): Judges
    requires c.recent != [] && historyLen > 0
  {
    if blocks == [] then judging(0)
    else
      var front, last := blocks[..|blocks| - 1], |blocks| - 1;
      var before, n := ChainJudges(judging, hash, historyLen, c, front),
          |AcceptedTransactions(judging, hash, historyLen, c, front)|;
      (i: nat) => if i < n then before(i) else judging(last)(i - n)
  }

  /** Every accepted block can be scheduled on the state it found. */
  ghost predicate AllSchedulable(judging: Judging, hash: HashOf, historyLen: nat, c: Chain, blocks: seq<ChainBlock>)
    requires c.recent != [] && historyLen > 0
  {
    forall k: nat :: k < |blocks| && AcceptedAt(judging, hash, historyLen, c, blocks, k) ==>
      Schedulable(blocks[k].transactions, ConsumeAll(judging, hash, historyLen, c, blocks[..k]).state)
  }

  /**
   * After every run of blocks the state is the one that running the transactions of the accepted blocks one after the
   * other leaves.
   */
  lemma {:induction false} ChainIsSerial(judging: Judging, hash: HashOf, historyLen: nat, c: Chain,
                                         blocks: seq<ChainBlock>)
    requires c.recent != [] && historyLen > 0 && AllSchedulable(judging, hash, historyLen, c, blocks)
    ensures var txs := AcceptedTransactions(judging, hash, historyLen, c, blocks);
            ConsumeAll(judging, hash, historyLen, c, blocks).state ==
            SerialState(BlockExec(ChainJudges(judging, hash, historyLen, c, blocks), txs), c.state, |txs|)
  {
    hide ConsumeAll, Consume, ChainJudges, AcceptedTransactions, AllSchedulable, AcceptedAt, SerialState, BlockExec;
    if blocks == [] {
      NothingAccepted(judging, hash, historyLen, c);
    } else {
      var front, last := blocks[..|blocks| - 1], |blocks| - 1;
      var txs := AcceptedTransactions(judging, hash, historyLen, c, front);
      var before, all := ChainJudges(judging, hash, historyLen, c, front),
          ChainJudges(judging, hash, historyLen, c, blocks);
      SchedulableFront(judging, hash, historyLen, c, blocks);
      ChainIsSerial(judging, hash, historyLen, c, front);
      AcceptedSnoc(judging, hash, historyLen, c, blocks);
      if AcceptedAt(judging, hash, historyLen, c, blocks, last) {
        LastBlockIsSerial(judging, hash, historyLen, c, blocks);
        SerialConcat(before, judging(last), all, txs, blocks[last].transactions, c.state, |blocks[last].transactions|);
      } else {
        SerialPrefix(before, all, txs, [], c.state, |txs|);
        assert txs + [] == txs;
      }
    }
  }

  lemma NothingAccepted(judging: Judging, hash: HashOf, historyLen: nat, c: Chain)
    requires c.recent != [] && historyLen > 0
    ensures AcceptedTransactions(judging, hash, historyLen, c, []) == []
    ensures ConsumeAll(judging, hash, historyLen, c, []) == c
    ensures forall exec: Exec :: SerialState(exec, c.state, 0) == c.state
  {
  }

  /** What the last block of a run adds. */
  lemma AcceptedSnoc(judging: Judging, hash: HashOf, historyLen: nat, c: Chain, blocks: seq<ChainBlock>)
    requires c.recent != [] && historyLen > 0 && blocks != []
    ensures var front, last := blocks[..|blocks| - 1], |blocks| - 1;
            var txs := AcceptedTransactions(judging, hash, historyLen, c, front);
            && AcceptedTransactions(judging, hash, historyLen, c, blocks) ==
               txs + (if AcceptedAt(judging, hash, historyLen, c, blocks, last) then blocks[last].transactions else [])
            && (forall i: nat :: ChainJudges(judging, hash, historyLen, c, blocks)(i) ==
                  if i < |txs| then ChainJudges(judging, hash, historyLen, c, front)(i) else judging(last)(i - |txs|))
            && (!AcceptedAt(judging, hash, historyLen, c, blocks, last) ==>
                  ConsumeAll(judging, hash, historyLen, c, blocks) == ConsumeAll(judging, hash, historyLen, c, front))
  {
    hide Check, BlockResults;
  }

  lemma LastBlockIsSerial(judging: Judging, hash: HashOf, historyLen: nat, c: Chain, blocks: seq<ChainBlock>)
    requires c.recent != [] && historyLen > 0 && blocks != []
    requires AllSchedulable(judging, hash, historyLen, c, blocks)
    requires AcceptedAt(judging, hash, historyLen, c, blocks, |blocks| - 1)
    ensures var last := |blocks| - 1;
            var txs := blocks[last].transactions;
            ConsumeAll(judging, hash, historyLen, c, blocks).state ==
            SerialState(BlockExec(judging(last), txs), ConsumeAll(judging, hash, historyLen, c, blocks[..last]).state,
                        |txs|)
  {
    hide Check, Consume, Schedulable, SerialState, BlockExec;
    var last := |blocks| - 1;
    ConsumedBlockIsSerial(judging(last), hash, historyLen, ConsumeAll(judging, hash, historyLen, c, blocks[..last]),
                          blocks[last]);
  }

  lemma SchedulableFront(judging: Judging, hash: HashOf, historyLen: nat, c: Chain, blocks: seq<ChainBlock>)
    requires c.recent != [] && historyLen > 0 && blocks != []
    requires AllSchedulable(judging, hash, historyLen, c, blocks)
    ensures AllSchedulable(judging, hash, historyLen, c, blocks[..|blocks| - 1])
    ensures blocks[..|blocks| - 1][..|blocks| - 1] == blocks[..|blocks| - 1]
  {
    hide Schedulable, Check, ConsumeAll;
    var front := blocks[..|blocks| - 1];
    forall k: nat | k < |front| && AcceptedAt(judging, hash, historyLen, c, front, k)
      ensures Schedulable(front[k].transactions, ConsumeAll(judging, hash, historyLen, c, front[..k]).state)
    {
      assert front[..k] == blocks[..k];
      assert AcceptedAt(judging, hash, historyLen, c, blocks, k);
    }
  }

  /** Transactions that follow do not change what was. */
  lemma {:induction false} SerialPrefix(one: Judges, all: Judges, txs: seq<Transaction>, more: seq<Transaction>,
                                        base: Accounts, i: nat)
    requires i <= |txs| && forall k: nat :: k < |txs| ==> all(k) == one(k)
    ensures SerialState(BlockExec(all, txs + more), base, i) == SerialState(BlockExec(one, txs), base, i)
  {
    hide ExecuteTransaction, After;
    if i > 0 {
      SerialPrefix(one, all, txs, more, base, i - 1);
    }
  }

  /** A serial run of two lists is a run of the second from where the first has led. */
  lemma {:induction false} SerialConcat(one: Judges, two: Judges, all: Judges, txs: seq<Transaction>,
                                        more: seq<Transaction>, base: Accounts, i: nat)
    requires i <= |more| && forall k: nat :: all(k) == if k < |txs| then one(k) else two(k - |txs|)
    ensures SerialState(BlockExec(all, txs + more), base, |txs| + i) ==
            SerialState(BlockExec(two, more), SerialState(BlockExec(one, txs), base, |txs|), i)
  {
    hide ExecuteTransaction, After;
    if i == 0 {
      SerialPrefix(one, all, txs, more, base, |txs|);
    } else {
      SerialConcat(one, two, all, txs, more, base, i - 1);
      assert (txs + more)[|txs| + i - 1] == more[i - 1];
    }
  }

  // ---- The builder ----

  class BlockStateBuilder {
    const historyLen: nat
    const hash: HashOf
    var state: Accounts
    var codecache: Accounts
    var recent: seq<ChainBlock>

    ghost predicate Valid()
      reads this
    {
      historyLen > 0 && recent != []
    }

    constructor (historyLen: nat, hash: HashOf, state: Accounts, codecache: Accounts, recent: seq<ChainBlock>)
      requires historyLen > 0 && recent != []
      ensures Valid() && this.historyLen == historyLen && this.hash == hash
      ensures this.state == state && this.codecache == codecache && this.recent == recent
    {
      this.historyLen, this.hash := historyLen, hash;
      this.state, this.codecache, this.recent := state, codecache, recent;
    }

    static method New(historyLen: nat, hash: HashOf, state: Accounts, codecache: Accounts, recent: seq<ChainBlock>)
      returns (r: Result<BlockStateBuilder, BuilderError>)
      requires historyLen > 0
      ensures r.Ok? <==> recent != []
      ensures r.Err? ==> r.error == NoInitialBlocks
      ensures r.Ok? ==> fresh(r.value) && r.value.Valid() && r.value.recent == recent && r.value.state == state
                        && r.value.historyLen == historyLen && r.value.hash == hash
    {
      if recent == [] {
        return Err(NoInitialBlocks);
      }
      var builder := new BlockStateBuilder(historyLen, hash, state, codecache, recent);
      return Ok(builder);
    }

    /** The block that the next one has to extend. */
    function Last(): (block: ChainBlock)
      requires Valid()
      reads this
      ensures forall next: ChainBlock :: Check(hash, recent, next) == None <==> Extends(hash, next, block)
    {
      recent[0]
    }

    ghost function View(): Chain
      reads this
    {
      Chain(state, recent)
    }

    /** `precompile` stands for the compiler: it turns a diff into entries of the code cache; `judges` for the run. */
    method ConsumeBlock(judges: Judges, block: ChainBlock, precompile: Diff -> Diff)
      returns (r: Result<(), BuilderError>)
      requires Valid()
      modifies this
      ensures Valid()
      ensures View() == Consume(judges, hash, historyLen, old(View()), block)
      ensures r.Ok? <==> block.parent == hash(old(Last())) && block.height == (old(Last()).height + 1) % TWO_TO_THE_64
      ensures r.Err? && block.parent != hash(old(Last())) ==>
                r.error == InvalidBlockParent(block.parent, hash(old(Last())))
      ensures r.Err? && block.parent == hash(old(Last())) ==>
                r.error == InvalidBlockHeight(block.height, (old(Last()).height + 1) % TWO_TO_THE_64)
      ensures r.Err? ==> unchanged(this)
      ensures Last() == if r.Ok? then block else old(Last())
      ensures r.Ok? ==>
                var results := BlockResults(judges, old(state), block.transactions);
                codecache == Apply(old(codecache), precompile(MergeAll(Successes(results))))
    {
      var prevHeight, prevHash := Last().height, hash(Last());
      if prevHash != block.parent {
        return Err(InvalidBlockParent(block.parent, prevHash));
      }
      if NextHeight(prevHeight) != block.height {
        return Err(InvalidBlockHeight(block.height, NextHeight(prevHeight)));
      }
      ghost var before := recent;
      recent := [block] + recent;
      if |recent| > historyLen {
        recent := recent[..|recent| - 1];
      }
      assert recent == Push(historyLen, before, block);
      var results := ExecuteBlock(judges, state, block.transactions);
      assert results == BlockResults(judges, state, block.transactions);
      var statediff := MergeSuccesses(results);
      codecache := Apply(codecache, precompile(statediff));
      MergeAllApplies(state, Successes(results));
      state := Apply(state, statediff);
      return Ok(());
    }
  }

  /** Keeps the successful results and merges them from the left. */
  method MergeSuccesses(results: seq<TxResult>) returns (merged: Diff)
    ensures merged == MergeAll(Successes(results))
  {
    var found := false;
    merged := EMPTY;
    for i := 0 to |results|
      invariant found <==> Successes(results[..i]) != []
      invariant merged == MergeAll(Successes(results[..i]))
    {
      ghost var done := Successes(results[..i]);
      assert results[..i + 1][..i] == results[..i];
      if results[i].Ok? {
        assert (done + [results[i].value])[..|done|] == done;
        merged := if found then Merge(merged, results[i].value) else results[i].value;
        found := true;
      }
    }
    assert results[..|results|] == results;
  }
}
