/** The block tree of BRPeerManager.c: what _peerRelayedBlock does to the stored blocks, the tip and the wallet.  The
    tree hangs from one checkpoint and nothing is pruned; what a difficulty or checkpoint check says of a block is a
    parameter. */
module BlockTree {
  import Arith
  import opened Ledger
  import opened Prelude
  import opened TxOrder
  import opened Wallet

  datatype Block = Block(hash: Hash, prev: Hash, height: nat, timestamp: nat, totalTx: nat, txHashes: seq<Hash>)

  // Every stored block except the root hangs from a stored block one lower.
  ghost predicate Tree(blocks: map<Hash, Block>, root: Hash) {
    && root in blocks && blocks[root].prev !in blocks
    && forall h :: h in blocks ==> blocks[h].hash == h && (h != root ==> Hangs(blocks, blocks[h]))
  }

  ghost predicate Hangs(blocks: map<Hash, Block>, b: Block) {
    b.prev in blocks && b.height == blocks[b.prev].height + 1
  }

  // The block at height n on the way from h down to the root.
  ghost function Ancestor(blocks: map<Hash, Block>, root: Hash, h: Hash, n: nat): (a: Hash)
    requires Tree(blocks, root) && h in blocks && blocks[root].height <= n <= blocks[h].height
    ensures a in blocks && blocks[a].height == n
    decreases blocks[h].height
  {
    if blocks[h].height == n then h else Ancestor(blocks, root, blocks[h].prev, n)
  }

  lemma {:induction false} AncestorStep(blocks: map<Hash, Block>, root: Hash, h: Hash, n: nat)
    requires Tree(blocks, root) && h in blocks && blocks[root].height < n <= blocks[h].height
    ensures
      var a := Ancestor(blocks, root, h, n);
      a != root && Hangs(blocks, blocks[a]) && Ancestor(blocks, root, h, n - 1) == blocks[a].prev
    decreases blocks[h].height
  {
    if blocks[h].height > n {
      AncestorStep(blocks, root, blocks[h].prev, n);
    }
  }

  lemma {:induction false} RootIsLowest(blocks: map<Hash, Block>, root: Hash, h: Hash)
    requires Tree(blocks, root) && h in blocks
    ensures root in blocks && blocks[h].height >= blocks[root].height
    ensures (blocks[h].height == blocks[root].height ==> h == root)
    decreases blocks[h].height
  {
    if h != root {
      RootIsLowest(blocks, root, blocks[h].prev);
    }
  }

  lemma Above(blocks: map<Hash, Block>, root: Hash, h: Hash, n: nat)
    requires Tree(blocks, root) && h in blocks && blocks[root].height < n <= blocks[h].height
    ensures
      var a := Ancestor(blocks, root, h, n);
      && blocks[a].prev in blocks && blocks[a].prev == Ancestor(blocks, root, h, n - 1)
      && blocks[blocks[a].prev].height == n - 1
  {
    AncestorStep(blocks, root, h, n);
  }

  // The branches of a and b meet at height n and nowhere above it.
  ghost predicate MeetAt(blocks: map<Hash, Block>, root: Hash, a: Hash, b: Hash, n: nat) {
    && Tree(blocks, root) && a in blocks && b in blocks
    && blocks[root].height <= n <= blocks[a].height && n <= blocks[b].height
    && Ancestor(blocks, root, a, n) == Ancestor(blocks, root, b, n)
    && forall k :: n < k <= blocks[a].height && k <= blocks[b].height ==>
         Ancestor(blocks, root, a, k) != Ancestor(blocks, root, b, k)
  }

  // The time a block gives its transactions: half way between it and the block before.
  function TimeOf(blocks: map<Hash, Block>, b: Block): nat {
    b.timestamp / 2 + if b.prev in blocks then blocks[b.prev].timestamp / 2 else 0
  }

  /** That time is the mean of the two, but for the half seconds that each division drops. */
  lemma HalfWay(blocks: map<Hash, Block>, b: Block)
    ensures b.prev in blocks ==>
              var t := blocks[b.prev].timestamp;
              2 * TimeOf(blocks, b) == b.timestamp + t - b.timestamp % 2 - t % 2
    ensures b.prev !in blocks ==> TimeOf(blocks, b) == b.timestamp / 2
  {
  }

  // What becomes of tx on the branch of tip: it gets the height and the time of the lowest block from height n on that
  // lists it, if any does.
  ghost function Walked(blocks: map<Hash, Block>, root: Hash, tip: Hash, n: nat, g: Hash, tx: Tx): Tx
    requires Tree(blocks, root) && tip in blocks && blocks[root].height <= n
    decreases blocks[tip].height + 1 - n
  {
    if n > blocks[tip].height then tx
    else
      var b := blocks[Ancestor(blocks, root, tip, n)];
      if g in b.txHashes then Dated(tx, true, n, TimeOf(blocks, b)) else Walked(blocks, root, tip, n + 1, g, tx)
  }

  // The walk back to where a fork joins the main chain.
  method FindJoin(blocks: map<Hash, Block>, ghost root: Hash, tip: Hash, last: Hash) returns (join: Hash)
    requires Tree(blocks, root) && tip in blocks && last in blocks && blocks[tip].height == blocks[last].height + 1
    ensures join in blocks && MeetAt(blocks, root, tip, last, blocks[join].height)
    ensures join == Ancestor(blocks, root, tip, blocks[join].height)
  {
    hide Tree, Hangs;
    var b, b2 := tip, last;
    RootIsLowest(blocks, root, last);
    while b != b2
      invariant b in blocks && b2 in blocks && blocks[b2].height >= blocks[root].height
      invariant blocks[b].height == blocks[b2].height || (b == tip && b2 == last)
      invariant blocks[b2].height <= blocks[last].height && blocks[b].height <= blocks[tip].height
      invariant b == Ancestor(blocks, root, tip, blocks[b].height)
      invariant b2 == Ancestor(blocks, root, last, blocks[b2].height)
      invariant forall k :: blocks[b].height < k <= blocks[last].height ==>
                  Ancestor(blocks, root, tip, k) != Ancestor(blocks, root, last, k)
      decreases blocks[b].height
    {
      RootIsLowest(blocks, root, b);
      RootIsLowest(blocks, root, b2);
      Above(blocks, root, tip, blocks[b].height);
      b := blocks[b].prev;
      if blocks[b].height < blocks[b2].height {
        Above(blocks, root, last, blocks[b2].height);
        b2 := blocks[b2].prev;
      }
    }
    join := b;
  }

  // How far below the tip locator k lies: 0, 1, ..., 9, 11, 15, 23, 39, ...
  function Offset(k: nat): nat { if k == 0 then 0 else Offset(k - 1) + Stride(k - 1) }

  // From locator k to the next: one block up to the ninth, then doubling.
  function Stride(k: nat): (s: nat)
    ensures s >= 1
  {
    if k < 9 then 1 else 2 * Stride(k - 1)
  }

  lemma NextLocator(k: nat)
    ensures Offset(k + 1) == Offset(k) + Stride(k) && Offset(0) == 0
    ensures Stride(k) == if k < 9 then 1 else if k == 9 then 2 else 2 * Stride(k - 1)
  {
  }

  /** How far back the locators reach: 1 to 9 blocks, and from then on 7 more than a power of two. */
  lemma {:induction false} LocatorDistance(k: nat)
    ensures Offset(k) == if k <= 9 then k else Arith.Pow(2, k - 8) + 7
    ensures Stride(k) == if k < 9 then 1 else Arith.Pow(2, k - 8)
  {
    if k > 0 { LocatorDistance(k - 1); }
  }

  ghost predicate Locates(blocks: map<Hash, Block>, root: Hash, tip: Hash, k: nat)
    requires Tree(blocks, root) && tip in blocks
  {
    blocks[tip].height - Offset(k) >= blocks[root].height && blocks[tip].height - Offset(k) > 0
  }

  // h is locator k.
  ghost predicate Locator(blocks: map<Hash, Block>, root: Hash, tip: Hash, k: nat, h: Hash)
    requires Tree(blocks, root) && tip in blocks
  {
    Locates(blocks, root, tip, k) && h == Ancestor(blocks, root, tip, blocks[tip].height - Offset(k))
  }

  method StepBack(blocks: map<Hash, Block>, ghost root: Hash, tip: Hash, from: Hash,
                  step: nat) returns (b: Option<Hash>)
    requires Tree(blocks, root) && tip in blocks && from in blocks
    requires blocks[root].height <= blocks[from].height <= blocks[tip].height
    requires from == Ancestor(blocks, root, tip, blocks[from].height)
    ensures blocks[from].height - step < blocks[root].height ==> b == None
    ensures blocks[from].height - step >= blocks[root].height ==>
              b == Some(Ancestor(blocks, root, tip, blocks[from].height - step))
  {
    hide Tree, Hangs;
    RootIsLowest(blocks, root, from);
    b := Some(from);
    for j := 0 to step
      invariant blocks[from].height - j < blocks[root].height ==> b == None
      invariant blocks[from].height - j >= blocks[root].height ==>
                  b == Some(Ancestor(blocks, root, tip, blocks[from].height - j))
    {
      if b.Some? {
        var a := b.value;
        if blocks[a].height == blocks[root].height {
          RootIsLowest(blocks, root, a);
          NothingBelowRoot(blocks, root);
        } else {
          Above(blocks, root, tip, blocks[a].height);
        }
        b := if blocks[a].prev in blocks then Some(blocks[a].prev) else None;
      }
    }
  }

  lemma NothingBelowRoot(blocks: map<Hash, Block>, root: Hash)
    requires Tree(blocks, root)
    ensures root in blocks && blocks[root].prev !in blocks
  {
  }

  /** _BRPeerManagerBlockLocators: the ten highest blocks of the main chain, then ever longer steps, then genesis.  As
      many as there is room for are written; all are counted. */
  method BlockLocators(blocks: map<Hash, Block>, ghost root: Hash, tip: Hash, genesis: Hash, room: nat)
    returns (locators: seq<Hash>, count: nat)
    requires Tree(blocks, root) && tip in blocks
    ensures count > 0 && !Locates(blocks, root, tip, count - 1)
    ensures forall k :: 0 <= k < count - 1 ==> Locates(blocks, root, tip, k)
    ensures |locators| == if count < room then count else room
    ensures forall k :: 0 <= k < |locators| ==>
              if k < count - 1 then Locator(blocks, root, tip, k, locators[k]) else locators[k] == genesis
  {
    hide Tree, Hangs, Ancestor, Offset, Stride;
    RootIsLowest(blocks, root, tip);
    NextLocator(0);
    AncestorOfItself(blocks, root, tip);
    var block, step, i: nat := Some(tip), 1, 0;
    locators := [];
    while block.Some? && blocks[block.value].height > 0
      invariant |locators| == (if i < room then i else room) && step == (if i < 10 then 1 else Stride(i - 1))
      invariant block.Some? <==> blocks[tip].height - Offset(i) >= blocks[root].height
      invariant block.Some? ==> block.value == Ancestor(blocks, root, tip, blocks[tip].height - Offset(i))
      invariant forall k :: 0 <= k < i ==> Locates(blocks, root, tip, k)
      invariant forall k :: 0 <= k < |locators| ==> Locator(blocks, root, tip, k, locators[k])
      decreases blocks[tip].height - Offset(i)
    {
      if i < room { locators := locators + [block.value]; }
      NextLocator(i);
      i := i + 1;
      if i >= 10 {
        step := step * 2;
      }
      block := StepBack(blocks, root, tip, block.value, step);
    }
    if i < room { locators := locators + [genesis]; }
    count := i + 1;
  }

  lemma AncestorOfItself(blocks: map<Hash, Block>, root: Hash, h: Hash)
    requires Tree(blocks, root) && h in blocks && blocks[root].height <= blocks[h].height
    ensures Ancestor(blocks, root, h, blocks[h].height) == h
  {
  }

  // Headers are linked by hashes: the hash of a block fixes the block before it, and no chain of hashes is a cycle.
  datatype Links = Links(parent: Hash -> Hash, age: Hash -> nat)

  ghost predicate Linked(links: Links, b: Block) {
    b.prev == links.parent(b.hash) && links.age(b.prev) < links.age(b.hash) && b.hash != 0
  }

  ghost predicate Stored(links: Links, blocks: map<Hash, Block>, root: Hash) {
    Tree(blocks, root) && blocks[root].prev == 0 && forall h :: h in blocks && h != root ==> Linked(links, blocks[h])
  }

  lemma {:induction false} RootIsOldest(links: Links, blocks: map<Hash, Block>, root: Hash, h: Hash)
    requires Stored(links, blocks, root) && h in blocks
    ensures links.age(root) <= links.age(h)
    decreases blocks[h].height
  {
    if h != root {
      RootIsOldest(links, blocks, root, blocks[h].prev);
    }
  }

  /** Storing a block whose parent is stored keeps the tree, also when the block was stored before. */
  lemma StoreKeepsTree(links: Links, blocks: map<Hash, Block>, root: Hash, b: Block)
    requires Stored(links, blocks, root) && Linked(links, b) && Hangs(blocks, b)
    ensures b.hash != root && Stored(links, blocks[b.hash := b], root)
    ensures b.hash in blocks ==> SamePlace(blocks[b.hash], b)
  {
    RootIsOldest(links, blocks, root, b.prev);
    var now := blocks[b.hash := b];
    forall h | h in now && h != root
      ensures Hangs(now, now[h])
    {
      assert h != b.hash ==> Hangs(blocks, blocks[h]);
    }
  }

  // What a relayed block turned out to be.
  datatype Outcome = Ignored | Orphaned | Rejected | Extended | Known | Forked | Reorganised

  // accepts is the verdict of _BRPeerManagerVerifyBlock on difficulty, time and checkpoints.
  datatype Rules = Rules(filter: bool, keyTime: nat, checkpointHeight: nat, now: nat, accepts: Block -> bool)

  // A header, which has no transactions, from a time that needs whole blocks: from two hours after a week before the
  // first key on.
  predicate TooNew(r: Rules, b: Block) { b.totalTx == 0 && b.timestamp + 604800 > r.keyTime + 7200 }

  // The block as it is relayed with the height that its parent gives it.
  function Placed(blocks: map<Hash, Block>, b: Block): Block {
    if b.prev in blocks then b.(height := blocks[b.prev].height + 1) else b
  }

  // A block that is looked at, hangs from a stored one and is accepted.
  ghost predicate Sound(r: Rules, was: View, b: Block) {
    !TooNew(r, b) && r.filter && b.prev in was.blocks && r.accepts(b)
  }

  // A sound block that is not stored yet and does not extend the main chain.
  ghost predicate OnFork(r: Rules, was: View, b: Block) {
    Sound(r, was, b) && b.prev != was.lastBlock && b.hash !in was.blocks
  }

  /** Which outcome a block gets, exactly. */
  ghost predicate Due(r: Rules, was: View, b: Block, o: Outcome)
    requires was.lastBlock in was.blocks
  {
    var tip := was.blocks[was.lastBlock].height;
    && (o == Ignored <==>
          || (b.totalTx == 0 && b.timestamp + 604800 > r.keyTime + 7200) || !r.filter
          || (b.prev !in was.blocks && b.timestamp + 604800 < r.now)
          || (OnFork(r, was, b) && b.height <= r.checkpointHeight))
    && (o == Orphaned <==> !TooNew(r, b) && r.filter && b.prev !in was.blocks && b.timestamp + 604800 >= r.now)
    && (o == Rejected <==> !TooNew(r, b) && r.filter && b.prev in was.blocks && !r.accepts(b))
    && (o == Extended <==> Sound(r, was, b) && b.prev == was.lastBlock)
    && (o == Known <==> Sound(r, was, b) && b.prev != was.lastBlock && b.hash in was.blocks)
    && (o == Reorganised <==> OnFork(r, was, b) && b.height > r.checkpointHeight && b.height > tip)
    && (o == Forked <==> OnFork(r, was, b) && b.height > r.checkpointHeight && b.height <= tip)
  }

  lemma AllDue(r: Rules, was: View, b: Block, o: Outcome)
    requires was.lastBlock in was.blocks
    requires o == if TooNew(r, b) || !r.filter then Ignored
                  else if b.prev !in was.blocks then (if b.timestamp + 604800 < r.now then Ignored else Orphaned)
                  else if !r.accepts(b) then Rejected
                  else if b.prev == was.lastBlock then Extended
                  else if b.hash in was.blocks then Known
                  else if b.height <= r.checkpointHeight then Ignored
                  else if b.height > was.blocks[was.lastBlock].height then Reorganised
                  else Forked
    ensures Due(r, was, b, o)
  {
  }

  /** No other outcome is due. */
  lemma DueOnce(r: Rules, was: View, b: Block, o: Outcome, o': Outcome)
    requires was.lastBlock in was.blocks && Due(r, was, b, o) && Due(r, was, b, o')
    ensures o == o'
  {
  }

  class PeerManager {
    var blocks: map<Hash, Block>
    var lastBlock: Hash
    var orphans: map<Hash, Block>       // by the hash of the block before
    var lastOrphan: Hash
    var estimatedHeight: nat
    var earliestKeyTime: nat
    var hasFilter: bool
    const checkpointHeight: nat
    const wallet: BRWallet
    ghost const root: Hash
    ghost const links: Links
    ghost const rank: Hash -> nat

    constructor (checkpoint: Block, checkpointHeight: nat, wallet: BRWallet, keyTime: nat, ghost links: Links,
                 ghost rank: Hash -> nat)
      requires checkpoint.prev == 0 && checkpoint.hash != 0
      requires checkpoint.height < TX_UNCONFIRMED && WalletValid(wallet, rank)
      ensures Valid() && NoneReady(blocks, orphans) && this.wallet == wallet
      ensures blocks == map[checkpoint.hash := checkpoint] && orphans == map[]
    {
      blocks, lastBlock, orphans, lastOrphan := map[checkpoint.hash := checkpoint], checkpoint.hash, map[], 0;
      estimatedHeight, earliestKeyTime, hasFilter := checkpoint.height, keyTime, false;
      this.checkpointHeight, this.wallet, this.root := checkpointHeight, wallet, checkpoint.hash;
      this.links, this.rank := links, rank;
    }

    /** What every relayed block keeps: a tree whose highest block is the tip, and a wallet in order. */
    ghost predicate Valid()
      reads this, wallet
    {
      && Stored(links, blocks, root) && lastBlock in blocks
      && (forall h :: h in blocks ==> blocks[h].height <= blocks[lastBlock].height)
      && (forall p :: p in orphans ==> Waits(links, p, orphans[p]))
      && WalletValid(wallet, rank)
    }

    // "is block in main chain?": the stored block at the height of b, seen from the tip.
    method OnMainChain(b: Block) returns (main: bool)
      requires Stored(links, blocks, root) && lastBlock in blocks
      requires blocks[root].height < b.height <= blocks[lastBlock].height
      ensures main <==> Ancestor(blocks, root, lastBlock, b.height) == b.hash
    {
      hide Tree, Hangs;
      RootIsLowest(blocks, root, lastBlock);
      var a := lastBlock;
      while blocks[a].height > b.height
        invariant a in blocks && b.height <= blocks[a].height <= blocks[lastBlock].height
        invariant a == Ancestor(blocks, root, lastBlock, blocks[a].height)
        decreases blocks[a].height
      {
        Above(blocks, root, lastBlock, blocks[a].height);
        a := blocks[a].prev;
      }
      main := a == b.hash;
    }

    // What decides on the outcome of a relayed block besides the stored blocks.
    ghost function RulesAt(now: nat, accepts: Block -> bool): Rules
      reads this`hasFilter, this`earliestKeyTime
    {
      Rules(hasFilter, earliestKeyTime, checkpointHeight, now, accepts)
    }

    // The heights of the wallet's transactions, and the rest of what a relayed block may change.
    ghost function Snapshot(): View
      reads this, wallet
    {
      View(blocks, lastBlock, orphans, wallet.allTx)
    }

    // A block that is stored already.
    method PlaceKnown(block: Block, txTime: nat, now: nat)
      requires Valid() && Linked(links, block) && Hangs(blocks, block)
      requires block.hash in blocks && block.height < TX_UNCONFIRMED && txTime == TimeOf(blocks, block)
      modifies this`blocks, wallet
      ensures Valid() && multiset(wallet.transactions) == multiset(old(wallet.transactions)) && block.hash in blocks
      ensures Moves(root, old(Snapshot()), Snapshot(), wallet.transactions, block, Known, 0)
    {
      hide Acyclic, Sorted, Involves, Replay, Tree, Ancestor, MeetAt, TxAfter, WalletValid, Waits, Linked;
      StoreKeepsTree(links, blocks, root, block);
      RootIsLowest(blocks, root, block.prev);
      AllListed(wallet, rank);
      var main := OnMainChain(block);
      if main {
        Confirm(wallet, block.txHashes, block.height, txTime, now, rank);
      }
      AllListed(wallet, rank);
      blocks := blocks[block.hash := block];
    }

    // A block on a fork, which becomes the main chain when it is higher.
    method PlaceFork(block: Block, now: nat) returns (kept: bool, outcome: Outcome, ghost join: nat)
      requires Valid() && Linked(links, block) && Hangs(blocks, block) && block.hash !in blocks
      requires block.height < TX_UNCONFIRMED
      modifies this`blocks, this`lastBlock, wallet
      ensures Valid() && multiset(wallet.transactions) == multiset(old(wallet.transactions))
      ensures (kept <==> outcome != Ignored) && (kept ==> block.hash in blocks)
      ensures outcome == if block.height <= checkpointHeight then Ignored
                         else if block.height > old(blocks[lastBlock].height) then Reorganised else Forked
      ensures Moves(root, old(Snapshot()), Snapshot(), wallet.transactions, block, outcome, join)
    {
      hide Acyclic, Sorted, Involves, Replay, Tree, Ancestor, MeetAt, TxAfter, WalletValid, Waits, Linked;
      StoreKeepsTree(links, blocks, root, block);
      AllListed(wallet, rank);
      join := 0;
      // never so high that it would have to wait for a rescan
      assert block.height <= blocks[lastBlock].height + 1;
      if block.height <= checkpointHeight {
        kept, outcome := false, Ignored;
      } else {
        kept, outcome := true, Forked;
        blocks := blocks[block.hash := block];
        if block.height > blocks[lastBlock].height {
          join := Reorganise(blocks, root, block.hash, lastBlock, wallet, now, rank);
          AllListed(wallet, rank);
          lastBlock := block.hash;
          outcome := Reorganised;
        }
      }
    }

    // A verified block: it extends the main chain, is known already, or is on a fork.
    method Place(block: Block, txTime: nat, now: nat) returns (kept: bool, outcome: Outcome, ghost join: nat)
      requires Valid() && Linked(links, block) && Hangs(blocks, block) && block.height < TX_UNCONFIRMED
      requires txTime == TimeOf(blocks, block)
      modifies this`blocks, this`lastBlock, wallet
      ensures Valid() && multiset(wallet.transactions) == multiset(old(wallet.transactions))
      ensures (kept <==> outcome != Ignored) && (kept ==> block.hash in blocks)
      ensures outcome == if block.prev == old(lastBlock) then Extended
                         else if block.hash in old(blocks) then Known
                         else if block.height <= checkpointHeight then Ignored
                         else if block.height > old(blocks[lastBlock].height) then Reorganised else Forked
      ensures Moves(root, old(Snapshot()), Snapshot(), wallet.transactions, block, outcome, join)
    {
      hide Acyclic, Sorted, Involves, Replay, Tree, Ancestor, MeetAt, TxAfter;
      kept, outcome, join := true, Extended, 0;
      if block.prev == lastBlock {
        StoreKeepsTree(links, blocks, root, block);
        blocks := blocks[block.hash := block];
        lastBlock := block.hash;
        Confirm(wallet, block.txHashes, block.height, txTime, now, rank);
      } else if block.hash in blocks {
        PlaceKnown(block, txTime, now);
        outcome := Known;
      } else {
        kept, outcome, join := PlaceFork(block, now);
      }
    }

    /** One relayed block, without the orphan that may wait for it. */
    method RelayBlock(relayed: Block, accepts: Block -> bool, now: nat)
      returns (block: Block, kept: bool, outcome: Outcome, ghost join: nat)
      requires Valid() && Linked(links, relayed) && relayed.height == TX_UNCONFIRMED
      requires blocks[lastBlock].height + 1 < TX_UNCONFIRMED
      modifies this, wallet
      ensures Valid() && multiset(wallet.transactions) == multiset(old(wallet.transactions))
      ensures block == Placed(old(blocks), relayed) && Due(old(RulesAt(now, accepts)), old(Snapshot()), block, outcome)
      ensures hasFilter == old(hasFilter) && earliestKeyTime == old(earliestKeyTime)
      ensures estimatedHeight == old(estimatedHeight)
      ensures lastOrphan == if outcome == Orphaned then block.hash else old(lastOrphan)
      ensures kept <==> outcome != Ignored && outcome != Rejected
      ensures kept && outcome != Orphaned ==> block.height != TX_UNCONFIRMED && block.hash in blocks
      ensures outcome == Orphaned ==> kept && block.height == TX_UNCONFIRMED
      ensures Moves(root, old(Snapshot()), Snapshot(), wallet.transactions, block, outcome, join)
    {
      hide Acyclic, Sorted, Involves, Replay, Tree, Ancestor, MeetAt, TxAfter, Hangs, Due, Moves, Waits;
      ghost var was, rules := Snapshot(), RulesAt(now, accepts);
      block, kept, outcome, join := relayed, false, Ignored, 0;
      StaysPut(root, was, wallet, rank, block);
      var txTime := 0;
      if block.prev in blocks {
        txTime := block.timestamp / 2 + blocks[block.prev].timestamp / 2;
        block := block.(height := blocks[block.prev].height + 1);
      }
      if block.totalTx == 0 && block.timestamp + 7*24*60*60 > earliestKeyTime + 2*60*60 {
        outcome := Ignored;
      } else if !hasFilter {
        outcome := Ignored;
      } else if block.prev !in blocks {
        if block.timestamp + 7*24*60*60 >= now {
          WaitsIs(links, block);
          orphans := orphans[block.prev := block];
          lastOrphan := block.hash;
          kept, outcome := true, Orphaned;
        }
      } else if !accepts(block) {
        outcome := Rejected;
      } else {
        HangsIs(blocks, block);
        kept, outcome, join := Place(block, txTime, now);
      }
      AllDue(rules, was, block, outcome);
    }

    // How high the waiting orphans can still take the tip.
    ghost function Reach(): nat
      requires lastBlock in blocks
      reads this
    {
      blocks[lastBlock].height + |orphans|
    }

    /** _peerRelayedBlock: an orphan that waits for the block follows it, and so on.  The events tell what became of the
        block and of the orphans, each the child of the one before. */
    method PeerRelayedBlock(relayed: Block, accepts: Block -> bool, now: nat) returns (ghost es: seq<Event>)
      requires Valid() && Linked(links, relayed) && relayed.height == TX_UNCONFIRMED && Reach() + 1 < TX_UNCONFIRMED
      requires NoneReady(blocks, orphans)
      modifies this, wallet
      ensures Valid() && NoneReady(blocks, orphans)
      ensures multiset(wallet.transactions) == multiset(old(wallet.transactions))
      ensures Reach() <= old(Reach()) + 1
      ensures Grows(old(Snapshot()), Snapshot())
      ensures Run(root, old(wallet.transactions), old(Snapshot()), es, Snapshot()) && Chained(es)
      ensures es != [] && SameHeader(es[0].block, relayed) && es[0].before == old(Snapshot())
      ensures RuledBy(es, old(RulesAt(now, accepts))) && RulesAt(now, accepts) == old(RulesAt(now, accepts))
      ensures estimatedHeight == Estimate(old(estimatedHeight), es)
      decreases |orphans|, 1
    {
      hide Stored, WalletValid, Moves, Grows, Run, Chained, Due, RuledBy, NoneReady, NoneReadyBut, Estimate,
           Linked, Placed, SameHeader, Hangs;
      PlacedLinked(links, blocks, relayed);
      ghost var was, listed, rules := Snapshot(), wallet.transactions, RulesAt(now, accepts);
      ghost var join;
      var block, kept, outcome;
      block, kept, outcome, join := RelayBlock(relayed, accepts, now);
      TreeGrows(links, root, was, Snapshot(), wallet.transactions, block, outcome, join);
      es := OneEvent(root, listed, wallet.transactions, was, Snapshot(), block, outcome, join, rules);
      OrphanComes(was.orphans, block);
      OnlyItsChild(root, was, Snapshot(), wallet.transactions, block, outcome, join, rules);
      EstimateOne(estimatedHeight, es);
      if kept && block.height != TX_UNCONFIRMED {
        if block.height > estimatedHeight { estimatedHeight := block.height; }
        if block.hash in orphans {
          ghost var middle, list := Snapshot(), wallet.transactions;
          ghost var more := RelayWaiting(block.hash, accepts, now);
          Continued(root, listed, list, was, es, middle, more, Snapshot(), rules, old(estimatedHeight));
          es := es + more;
        }
      }
    }

    // The orphan that waits for the block with the given hash.
    method RelayWaiting(p: Hash, accepts: Block -> bool, now: nat) returns (ghost es: seq<Event>)
      requires Valid() && p in orphans && NoneReadyBut(blocks, orphans, p) && Reach() < TX_UNCONFIRMED
      modifies this, wallet
      ensures Valid() && NoneReady(blocks, orphans)
      ensures multiset(wallet.transactions) == multiset(old(wallet.transactions))
      ensures Reach() <= old(Reach())
      ensures Grows(old(Snapshot()), Snapshot())
      ensures Run(root, old(wallet.transactions), old(Snapshot()), es, Snapshot()) && Chained(es)
      ensures es != [] && es[0].block.prev == p
      ensures RuledBy(es, old(RulesAt(now, accepts))) && RulesAt(now, accepts) == old(RulesAt(now, accepts))
      ensures estimatedHeight == Estimate(old(estimatedHeight), es)
      decreases |orphans|, 0
    {
      hide Stored, WalletValid, Grows, Run, Chained, RuledBy, NoneReady, NoneReadyBut, Estimate;
      ghost var was, listed := Snapshot(), wallet.transactions;
      var next := orphans[p];
      OrphanLeaves(orphans, p);
      ChildTaken(blocks, orphans, p);
      orphans := orphans - {p};
      es := PeerRelayedBlock(next, accepts, now);
      StartsWithout(root, listed, was, p, es, Snapshot());
    }

    /** Any run of relayed blocks.  Between blocks the bloom filter may come and go. */
    method RelayAll(relays: seq<Relay>, accepts: Block -> bool) returns (ghost es: seq<Event>)
      requires Valid() && NoneReady(blocks, orphans) && Reach() + |relays| < TX_UNCONFIRMED
      requires forall r :: r in relays ==> Linked(links, r.block) && r.block.height == TX_UNCONFIRMED
      modifies this, wallet
      ensures Valid() && NoneReady(blocks, orphans)
      ensures multiset(wallet.transactions) == multiset(old(wallet.transactions))
      ensures Reach() <= old(Reach()) + |relays|
      ensures Ran(root, old(wallet.transactions), old(Snapshot()), es, Snapshot(), relays)
      ensures forall e :: e in es ==> Obeys(e, old(earliestKeyTime), checkpointHeight, accepts)
      ensures estimatedHeight == Estimate(old(estimatedHeight), es)
    {
      hide Linked, Ran, Stored, WalletValid, Waits;
      ghost var was, listed := Snapshot(), wallet.transactions;
      es := [];
      NoEvents(root, listed, was);
      AllTaken(relays);
      for n := 0 to |relays|
        invariant Valid() && NoneReady(blocks, orphans) && lastBlock in blocks
        invariant multiset(wallet.transactions) == multiset(listed)
        invariant Reach() <= old(Reach()) + n
        invariant Ran(root, listed, was, es, Snapshot(), relays[..n]) && earliestKeyTime == old(earliestKeyTime)
        invariant forall e :: e in es ==> Obeys(e, earliestKeyTime, checkpointHeight, accepts)
        invariant estimatedHeight == Estimate(old(estimatedHeight), es)
      {
        OneTaken(relays, n);
        es := RelayNext(relays[n], accepts, listed, was, es, relays[..n], old(estimatedHeight));
      }
    }

    // One more block of a run that led from the start here.
    method RelayNext(r: Relay, accepts: Block -> bool, ghost listed: seq<Hash>, ghost start: View,
                     ghost done: seq<Event>, ghost relays: seq<Relay>, ghost height: nat)
      returns (ghost es: seq<Event>)
      requires Valid() && Reach() + 1 < TX_UNCONFIRMED && Linked(links, r.block) && r.block.height == TX_UNCONFIRMED
      requires NoneReady(blocks, orphans) && estimatedHeight == Estimate(height, done)
      requires multiset(wallet.transactions) == multiset(listed) && Ran(root, listed, start, done, Snapshot(), relays)
      modifies this, wallet
      ensures Valid() && NoneReady(blocks, orphans) && lastBlock in blocks
      ensures multiset(wallet.transactions) == multiset(listed)
      ensures Reach() <= old(Reach()) + 1
      ensures Ran(root, listed, start, es, Snapshot(), relays + [r]) && earliestKeyTime == old(earliestKeyTime)
      ensures forall e :: e in es ==> e in done || Obeys(e, earliestKeyTime, checkpointHeight, accepts)
      ensures estimatedHeight == Estimate(height, es)
    {
      hide Stored, WalletValid, Grows, Run, SameHeader, Linked, Ran, Chained, Waits, NoneReady, Estimate;
      ghost var middle, list := Snapshot(), wallet.transactions;
      hasFilter := r.filter;
      ghost var more := PeerRelayedBlock(r.block, accepts, r.now);
      RanOn(root, listed, list, start, done, middle, more, Snapshot(), relays, r);
      EstimateOn(height, done, more);
      es := done + more;
    }

  }

  // No orphan waits for a stored block, unless it is the block with hash h.
  ghost predicate NoneReadyBut(blocks: map<Hash, Block>, orphans: map<Hash, Block>, h: Hash) {
    forall p :: p in orphans && p in blocks ==> p == h
  }

  ghost predicate NoneReady(blocks: map<Hash, Block>, orphans: map<Hash, Block>) {
    forall p :: p in orphans ==> p !in blocks
  }

  // A relayed block makes nobody ready but the orphan that waits for it, and that one only if it was stored.
  lemma OnlyItsChild(root: Hash, was: View, now: View, listed: seq<Hash>, b: Block, outcome: Outcome, join: nat,
                     rules: Rules)
    requires NoneReady(was.blocks, was.orphans)
    requires was.lastBlock in was.blocks && Due(rules, was, b, outcome)
    requires Moves(root, was, now, listed, b, outcome, join)
    ensures NoneReadyBut(now.blocks, now.orphans, b.hash)
    ensures b.hash !in now.orphans ==> NoneReady(now.blocks, now.orphans)
    ensures outcome == Ignored || outcome == Rejected || outcome == Orphaned ==> NoneReady(now.blocks, now.orphans)
  {
    MovesAreSteps(root, was, now, listed, b, outcome, join);
    hide Tree, Hangs, Ancestor, MeetAt, TxAfter;
  }

  lemma ChildTaken(blocks: map<Hash, Block>, orphans: map<Hash, Block>, p: Hash)
    requires NoneReadyBut(blocks, orphans, p)
    ensures NoneReady(blocks, orphans - {p})
  {
  }

  // A relayed block, whether a bloom filter is set when it comes, and the time.
  datatype Relay = Relay(block: Block, filter: bool, now: nat)

  // What became of one block, under the rules of its time.
  datatype Event = Event(block: Block, outcome: Outcome, join: nat, before: View, after: View, rules: Rules)

  // The highest block that was stored, or the given height.
  function Estimate(height: nat, es: seq<Event>): nat {
    if es == [] then height
    else
      var m := |es| - 1;
      var h := Estimate(height, es[..m]);
      if Keeps(es[m].outcome) && es[m].block.height > h then es[m].block.height else h
  }

  predicate Keeps(o: Outcome) { o == Extended || o == Known || o == Forked || o == Reorganised }

  lemma EstimateOne(height: nat, es: seq<Event>)
    requires |es| == 1
    ensures Estimate(height, es) == if Keeps(es[0].outcome) && es[0].block.height > height then es[0].block.height
                                    else height
  {
    assert es[..0] == [];
  }

  lemma {:induction false} EstimateOn(height: nat, es: seq<Event>, more: seq<Event>)
    ensures Estimate(height, es + more) == Estimate(Estimate(height, es), more)
  {
    if more == [] {
      assert es + more == es;
    } else {
      var m := |more| - 1;
      EstimateOn(height, es, more[..m]);
      assert (es + more)[..|es + more| - 1] == es + more[..m];
    }
  }

  ghost predicate RuledBy(es: seq<Event>, r: Rules) { forall i :: 0 <= i < |es| ==> es[i].rules == r }

  // Filter and time may change between relays, the rest does not.
  ghost predicate Obeys(e: Event, keyTime: nat, checkpointHeight: nat, accepts: Block -> bool) {
    e.rules.keyTime == keyTime && e.rules.checkpointHeight == checkpointHeight && e.rules.accepts == accepts
  }

  // The orphan b waits for the block p.
  ghost predicate Waits(links: Links, p: Hash, b: Block) {
    b.prev == p && Linked(links, b) && b.height == TX_UNCONFIRMED
  }

  // The same block but for its height.
  predicate SameHeader(a: Block, b: Block) { a.(height := b.height) == b }

  // Nothing happened in between, except that a waiting orphan was taken out.
  ghost predicate Follows(was: View, now: View) {
    now == was || exists p :: p in was.orphans && now == was.(orphans := was.orphans - {p})
  }

  /** A run: every block gets the outcome that is due to it, which does to the stored blocks, the tip and the listed
      wallet transactions what it says, and each event takes up where the one before left off. */
  ghost predicate Run(root: Hash, listed: seq<Hash>, start: View, es: seq<Event>, end: View) {
    && (forall i :: 0 <= i < |es| ==> Happens(root, listed, es[i]))
    && (forall i :: 0 <= i < |es| ==> Follows(After(start, es, i), es[i].before))
    && end == After(start, es, |es|)
  }

  // What the first i events lead to.
  function After(start: View, es: seq<Event>, i: nat): View
    requires i <= |es|
  {
    if i == 0 then start else es[i - 1].after
  }

  ghost predicate Happens(root: Hash, listed: seq<Hash>, e: Event) {
    && Moves(root, e.before, e.after, listed, e.block, e.outcome, e.join)
    && e.before.lastBlock in e.before.blocks && Due(e.rules, e.before, e.block, e.outcome)
    && (e.block.prev in e.before.blocks ==> Hangs(e.before.blocks, e.block))
  }

  lemma AllTaken(relays: seq<Relay>)
    ensures relays[..0] == [] && relays[..|relays|] == relays
  {
  }

  lemma OneTaken(relays: seq<Relay>, n: nat)
    requires n < |relays|
    ensures relays[n] in relays && relays[..n + 1] == relays[..n] + [relays[n]]
  {
  }

  lemma NoEvents(root: Hash, listed: seq<Hash>, start: View)
    requires start.lastBlock in start.blocks
    ensures Ran(root, listed, start, [], start, [])
  {
  }

  lemma MovesListed(root: Hash, was: View, now: View, a: seq<Hash>, b: seq<Hash>, block: Block, outcome: Outcome,
                    join: nat)
    requires multiset(a) == multiset(b) && Moves(root, was, now, a, block, outcome, join)
    ensures Moves(root, was, now, b, block, outcome, join)
  {
    hide Tree, Hangs, Ancestor, MeetAt, TxAfter;
    SameMembers(a, b);
  }

  lemma HappensListed(root: Hash, a: seq<Hash>, b: seq<Hash>, e: Event)
    requires multiset(a) == multiset(b) && Happens(root, a, e)
    ensures Happens(root, b, e)
  {
    hide Moves, Due, Hangs;
    MovesListed(root, e.before, e.after, a, b, e.block, e.outcome, e.join);
  }

  lemma OneEvent(root: Hash, listed: seq<Hash>, list: seq<Hash>, was: View, now: View, block: Block, outcome: Outcome,
                 join: nat, rules: Rules)
    returns (es: seq<Event>)
    requires multiset(listed) == multiset(list) && Moves(root, was, now, list, block, outcome, join)
    requires was.lastBlock in was.blocks && Due(rules, was, block, outcome)
    requires block.prev in was.blocks ==> Hangs(was.blocks, block)
    ensures Run(root, listed, was, es, now) && |es| == 1 && es[0].block == block && es[0].before == was && Chained(es)
    ensures RuledBy(es, rules) && es[0].outcome == outcome
  {
    hide Moves, Due, Hangs;
    MovesListed(root, was, now, list, listed, block, outcome, join);
    es := [Event(block, outcome, join, was, now, rules)];
    assert Happens(root, listed, es[0]) && Follows(After(was, es, 0), es[0].before);
  }

  lemma RunsJoin(root: Hash, listed: seq<Hash>, list: seq<Hash>, start: View, es: seq<Event>, middle: View,
                 more: seq<Event>, end: View)
    requires multiset(listed) == multiset(list)
    requires Run(root, listed, start, es, middle) && Run(root, list, middle, more, end)
    ensures Run(root, listed, start, es + more, end)
  {
    hide Happens, Follows;
    var all := es + more;
    forall i | 0 <= i < |more|
      ensures Happens(root, listed, more[i])
    {
      HappensListed(root, list, listed, more[i]);
    }
    forall i | 0 <= i < |all|
      ensures Happens(root, listed, all[i]) && Follows(After(start, all, i), all[i].before)
    {
      if i < |es| {
        assert all[i] == es[i] && After(start, all, i) == After(start, es, i);
      } else {
        assert all[i] == more[i - |es|] && After(start, all, i) == After(middle, more, i - |es|);
      }
    }
    assert After(start, all, |all|) == After(middle, more, |more|);
  }

  // Before the first event the orphan that waits for p was taken out.
  lemma StartsWithout(root: Hash, listed: seq<Hash>, start: View, p: Hash, es: seq<Event>, end: View)
    requires p in start.orphans && es != [] && es[0].before == start.(orphans := start.orphans - {p})
    requires Run(root, listed, start.(orphans := start.orphans - {p}), es, end)
    requires Grows(start.(orphans := start.orphans - {p}), end)
    ensures Run(root, listed, start, es, end) && Grows(start, end)
  {
    hide Moves;
    var taken := start.(orphans := start.orphans - {p});
    assert Follows(start, es[0].before);
    assert forall i :: 0 < i <= |es| ==> After(start, es, i) == After(taken, es, i);
  }

  // What one event and those of the orphans after it are together.
  lemma Continued(root: Hash, listed: seq<Hash>, list: seq<Hash>, start: View, es: seq<Event>, middle: View,
                  more: seq<Event>, end: View, r: Rules, height: nat)
    requires multiset(listed) == multiset(list)
    requires Run(root, listed, start, es, middle) && Run(root, list, middle, more, end)
    requires Grows(start, middle) && Grows(middle, end) && RuledBy(es, r) && RuledBy(more, r)
    requires |es| == 1 && Chained(more) && more != [] && more[0].block.prev == es[0].block.hash
    ensures Run(root, listed, start, es + more, end) && Grows(start, end) && Chained(es + more) && RuledBy(es + more, r)
    ensures Estimate(height, es + more) == Estimate(Estimate(height, es), more)
    ensures (es + more)[0] == es[0]
  {
    hide Run, Grows, Chained, RuledBy, Estimate;
    RunsJoin(root, listed, list, start, es, middle, more, end);
    GrowsOn(start, middle, end);
    ChainOn(es, more);
    RuledOn(es, more, r);
    EstimateOn(height, es, more);
  }

  lemma RuledOn(es: seq<Event>, more: seq<Event>, r: Rules)
    requires RuledBy(es, r) && RuledBy(more, r)
    ensures RuledBy(es + more, r)
  {
  }

  // Every event is about the child of the block before.
  ghost predicate Chained(es: seq<Event>) { forall i :: 0 < i < |es| ==> es[i].block.prev == es[i - 1].block.hash }

  lemma ChainOn(es: seq<Event>, more: seq<Event>)
    requires |es| == 1 && Chained(more) && more != [] && more[0].block.prev == es[0].block.hash
    ensures Chained(es + more)
  {
  }

  // Some event is about each relayed block.
  ghost predicate AllMet(es: seq<Event>, relays: seq<Relay>) { forall r :: r in relays ==> Met(es, r) }

  ghost predicate Met(es: seq<Event>, r: Relay) { exists e :: e in es && About(e, r) }

  predicate About(e: Event, r: Relay) {
    SameHeader(e.block, r.block) && e.rules.filter == r.filter && e.rules.now == r.now
  }

  lemma MetOn(es: seq<Event>, more: seq<Event>, relays: seq<Relay>, r: Relay)
    requires AllMet(es, relays) && more != [] && About(more[0], r)
    ensures AllMet(es + more, relays + [r])
  {
    hide About;
    assert more[0] in es + more;
    forall x | x in relays
      ensures Met(es + more, x)
    {
      var e :| e in es && About(e, x);
      assert e in es + more;
    }
  }

  /** The relayed blocks had their events, which took the start to the end, and all blocks kept their places. */
  ghost predicate Ran(root: Hash, listed: seq<Hash>, start: View, es: seq<Event>, end: View, relays: seq<Relay>) {
    Run(root, listed, start, es, end) && Grows(start, end) && AllMet(es, relays)
  }

  lemma RanOn(root: Hash, listed: seq<Hash>, list: seq<Hash>, start: View, es: seq<Event>, middle: View,
              more: seq<Event>, end: View, relays: seq<Relay>, r: Relay)
    requires multiset(listed) == multiset(list) && Ran(root, listed, start, es, middle, relays)
    requires Run(root, list, middle, more, end) && Grows(middle, end)
    requires more != [] && About(more[0], r)
    ensures Ran(root, listed, start, es + more, end, relays + [r])
  {
    hide Run, Grows, About, AllMet;
    GrowsOn(start, middle, end);
    RunsJoin(root, listed, list, start, es, middle, more, end);
    MetOn(es, more, relays, r);
  }

  lemma OrphanComes(orphans: map<Hash, Block>, b: Block)
    ensures |orphans[b.prev := b]| <= |orphans| + 1
  {
    assert orphans[b.prev := b].Keys == orphans.Keys + {b.prev};
  }

  /** Blocks keep their places, and only a strictly higher block takes over as the tip. */
  ghost predicate Grows(was: View, now: View) {
    && (forall h :: h in was.blocks ==> h in now.blocks && SamePlace(was.blocks[h], now.blocks[h]))
    && was.lastBlock in was.blocks && now.lastBlock in now.blocks
    && was.blocks[was.lastBlock].height <= now.blocks[now.lastBlock].height
    && (now.lastBlock != was.lastBlock ==> was.blocks[was.lastBlock].height < now.blocks[now.lastBlock].height)
  }

  lemma GrowsOn(a: View, b: View, c: View)
    requires Grows(a, b) && Grows(b, c)
    ensures Grows(a, c)
  {
  }

  lemma OrphanLeaves(orphans: map<Hash, Block>, p: Hash)
    requires p in orphans
    ensures |orphans - {p}| == |orphans| - 1
  {
  }

  predicate SamePlace(a: Block, b: Block) { a.hash == b.hash && a.prev == b.prev && a.height == b.height }

  lemma PlacedLinked(links: Links, blocks: map<Hash, Block>, b: Block)
    requires Linked(links, b)
    ensures Linked(links, Placed(blocks, b)) && SameHeader(Placed(blocks, b), b)
    ensures b.prev in blocks ==> Hangs(blocks, Placed(blocks, b))
    ensures Placed(blocks, b).prev == b.prev && Placed(blocks, b).hash == b.hash
  {
  }

  lemma WaitsIs(links: Links, b: Block)
    ensures Waits(links, b.prev, b) <==> Linked(links, b) && b.height == TX_UNCONFIRMED
  {
  }

  // A block that is ignored, rejected or made to wait leaves everything else as it was.
  lemma StaysPut(root: Hash, was: View, wallet: BRWallet, rank: Hash -> nat, b: Block)
    requires WalletValid(wallet, rank) && was.allTx == wallet.allTx
    requires Tree(was.blocks, root) && was.lastBlock in was.blocks
    ensures
      forall h: nat :: Moves(root, was, was, wallet.transactions, b.(height := h), Ignored, 0)
                       && Moves(root, was, was, wallet.transactions, b.(height := h), Rejected, 0)
    ensures Moves(root, was, was.(orphans := was.orphans[b.prev := b]), wallet.transactions, b, Orphaned, 0)
  {
    hide Acyclic, Sorted, Involves, Tree;
    AllListed(wallet, rank);
  }

  lemma HangsIs(blocks: map<Hash, Block>, b: Block)
    ensures Hangs(blocks, b) <==> b.prev in blocks && b.height == blocks[b.prev].height + 1
  {
  }

  // A block that hangs from a stored one is stored or not, and the tip stays or moves up to it.
  lemma MovesAreSteps(root: Hash, was: View, now: View, listed: seq<Hash>, b: Block, outcome: Outcome, join: nat)
    requires Moves(root, was, now, listed, b, outcome, join)
    ensures Tree(was.blocks, root) && was.lastBlock in was.blocks
    ensures Tree(now.blocks, root) && now.lastBlock in now.blocks
    ensures now.blocks == was.blocks || (now.blocks == was.blocks[b.hash := b] && Hangs(was.blocks, b))
    ensures now.lastBlock == was.lastBlock
            || (now.lastBlock == b.hash && b.hash in now.blocks && (b.prev == was.lastBlock || b.hash !in was.blocks))
    ensures now.lastBlock != was.lastBlock ==> now.blocks == was.blocks[b.hash := b] && Hangs(was.blocks, b)
    ensures now.lastBlock != was.lastBlock ==> was.blocks[was.lastBlock].height < b.height
    ensures now.orphans == if outcome == Orphaned then was.orphans[b.prev := b] else was.orphans
    ensures outcome == Orphaned ==> now.blocks == was.blocks && now.lastBlock == was.lastBlock
  {
  }

  /** Whatever a relayed block turns out to be. */
  lemma TreeGrows(links: Links, root: Hash, was: View, now: View, listed: seq<Hash>, b: Block, outcome: Outcome,
                  join: nat)
    requires Stored(links, was.blocks, root) && Stored(links, now.blocks, root) && Linked(links, b)
    requires was.lastBlock in was.blocks
    requires forall h :: h in was.blocks ==> was.blocks[h].height <= was.blocks[was.lastBlock].height
    requires Moves(root, was, now, listed, b, outcome, join)
    ensures Grows(was, now) && now.blocks[now.lastBlock].height <= was.blocks[was.lastBlock].height + 1
    ensures now.orphans == if outcome == Orphaned then was.orphans[b.prev := b] else was.orphans
    ensures outcome == Orphaned ==> now.blocks == was.blocks && now.lastBlock == was.lastBlock
  {
    MovesAreSteps(root, was, now, listed, b, outcome, join);
    hide Moves, Stored, Tree, Linked;
    if now.blocks == was.blocks {
      assert forall h :: h in was.blocks ==> SamePlace(was.blocks[h], now.blocks[h]);
    } else {
      StoreKeepsTree(links, was.blocks, root, b);
      PlacesKept(was.blocks, b);
      hide SamePlace;
      assert was.blocks[b.prev].height <= was.blocks[was.lastBlock].height;
    }
  }

  lemma PlacesKept(blocks: map<Hash, Block>, b: Block)
    requires b.hash in blocks ==> SamePlace(blocks[b.hash], b)
    ensures forall h :: h in blocks ==> h in blocks[b.hash := b] && SamePlace(blocks[h], blocks[b.hash := b][h])
  {
  }

  datatype View = View(blocks: map<Hash, Block>, lastBlock: Hash, orphans: map<Hash, Block>, allTx: map<Hash, Tx>)

  /** What a block does to the stored blocks, the tip and the heights of the listed wallet transactions. */
  ghost predicate Moves(root: Hash, was: View, now: View, listed: seq<Hash>, b: Block, outcome: Outcome, join: nat) {
    && Tree(was.blocks, root) && was.lastBlock in was.blocks && Tree(now.blocks, root) && now.lastBlock in now.blocks
    && (forall g :: g in listed ==> g in was.allTx && g in now.allTx)
    && match outcome
       case Extended =>
         && now == View(was.blocks[b.hash := b], b.hash, was.orphans, now.allTx)
         && b.prev == was.lastBlock && Hangs(was.blocks, b)
         && forall g :: g in listed ==>
              now.allTx[g] == Dated(was.allTx[g], g in b.txHashes, b.height, TimeOf(was.blocks, b))
       case Known =>
         && now == View(was.blocks[b.hash := b], was.lastBlock, was.orphans, now.allTx)
         && b.hash in was.blocks && Hangs(was.blocks, b)
         && Reaches(was.blocks, root, was.lastBlock, b.height)
         && var main := Ancestor(was.blocks, root, was.lastBlock, b.height) == b.hash;
         && forall g :: g in listed ==>
              now.allTx[g] == Dated(was.allTx[g], main && g in b.txHashes, b.height, TimeOf(was.blocks, b))
       case Reorganised =>
         && now == View(was.blocks[b.hash := b], b.hash, was.orphans, now.allTx)
         && b.hash !in was.blocks && Hangs(was.blocks, b)
         && now.blocks[b.hash].height > was.blocks[was.lastBlock].height && was.lastBlock in now.blocks
         && MeetAt(now.blocks, root, b.hash, was.lastBlock, join)
         && forall g :: g in listed ==>
              now.allTx[g] == TxAfter(now.blocks, root, b.hash, join + 1, join, g, was.allTx[g])
       case Forked =>
         && now == View(was.blocks[b.hash := b], was.lastBlock, was.orphans, was.allTx)
         && b.hash !in was.blocks && Hangs(was.blocks, b)
       case Orphaned => now == was.(orphans := was.orphans[b.prev := b])
       case Ignored => now == was
       case Rejected => now == was
  }

  ghost predicate Reaches(blocks: map<Hash, Block>, root: Hash, h: Hash, n: nat) {
    root in blocks && h in blocks && blocks[root].height <= n <= blocks[h].height
  }

  ghost predicate WalletValid(wallet: BRWallet, rank: Hash -> nat)
    reads wallet
  {
    wallet.Ordered(rank) && forall g :: g in wallet.allTx ==> wallet.allTx[g].blockHeight <= TX_UNCONFIRMED
  }

  // ---------- the wallet follows the chain ----------

  lemma AllListed(wallet: BRWallet, rank: Hash -> nat)
    requires WalletValid(wallet, rank)
    ensures forall g :: g in wallet.transactions ==> g in wallet.allTx
  {
  }

  // BRWalletUpdateTransactions, called only when there are transactions to update.
  method Confirm(wallet: BRWallet, txHashes: seq<Hash>, height: nat, timestamp: nat, now: nat, ghost rank: Hash -> nat)
    requires WalletValid(wallet, rank) && height <= TX_UNCONFIRMED
    modifies wallet
    ensures WalletValid(wallet, rank)
    ensures multiset(wallet.transactions) == multiset(old(wallet.transactions))
    ensures forall g :: g in wallet.transactions ==> g in old(wallet.allTx)
    ensures forall g :: g in wallet.transactions ==>
              wallet.allTx[g] == Dated(old(wallet.allTx)[g], g in txHashes, height, timestamp)
    ensures wallet.blockHeight == if txHashes != [] && height > old(wallet.blockHeight) then height
                                  else old(wallet.blockHeight)
  {
    hide Acyclic, Sorted, Involves, Replay;
    if |txHashes| > 0 {
      ghost var needs;
      var hashes;
      hashes, needs := wallet.UpdateTransactions(txHashes, height, timestamp, now, rank);
    }
  }

  // What the reset of all above the join and the walk down from tip to height n make of a transaction.
  ghost function TxAfter(blocks: map<Hash, Block>, root: Hash, tip: Hash, n: nat, join: nat, g: Hash, was: Tx): Tx
    requires Tree(blocks, root) && tip in blocks && blocks[root].height <= n
  {
    Walked(blocks, root, tip, n, g, Reset(was, was.blockHeight > join))
  }

  lemma {:induction false} WalkedDates(blocks: map<Hash, Block>, root: Hash, tip: Hash, n: nat, g: Hash, tx: Tx,
                                       height: nat, time: nat)
    requires Tree(blocks, root) && tip in blocks && blocks[root].height <= n
    ensures Dated(Walked(blocks, root, tip, n, g, tx), true, height, time) == Dated(tx, true, height, time)
    decreases blocks[tip].height + 1 - n
  {
    hide Tree, Ancestor;
    if n <= blocks[tip].height { WalkedDates(blocks, root, tip, n + 1, g, tx, height, time); }
  }

  // One more block of the walk down, at height n.
  lemma WalkOn(blocks: map<Hash, Block>, root: Hash, tip: Hash, n: nat, join: nat, g: Hash, was: Tx)
    requires Tree(blocks, root) && tip in blocks && blocks[root].height <= n <= blocks[tip].height
    ensures
      var b := blocks[Ancestor(blocks, root, tip, n)];
      Dated(TxAfter(blocks, root, tip, n + 1, join, g, was), g in b.txHashes, n, TimeOf(blocks, b))
      == TxAfter(blocks, root, tip, n, join, g, was)
  {
    hide Tree, Ancestor, TimeOf;
    var b := blocks[Ancestor(blocks, root, tip, n)];
    WalkedDates(blocks, root, tip, n + 1, g, Reset(was, was.blockHeight > join), n, TimeOf(blocks, b));
  }

  lemma WalkStarts(blocks: map<Hash, Block>, root: Hash, tip: Hash, join: nat, g: Hash, was: Tx)
    requires Tree(blocks, root) && tip in blocks && blocks[root].height <= blocks[tip].height
    ensures TxAfter(blocks, root, tip, blocks[tip].height + 1, join, g, was) == Reset(was, was.blockHeight > join)
  {
  }

  /** The reorganisation: transactions above the join become unconfirmed, then the new branch is walked down from its
      tip and confirms what it lists.  Every listed wallet transaction ends with the height and time of the lowest new
      block that lists it; one that none lists is unconfirmed if it stood above the join and untouched otherwise. */
  method Reorganise(blocks: map<Hash, Block>, ghost root: Hash, tip: Hash, last: Hash, wallet: BRWallet, now: nat,
                    ghost rank: Hash -> nat)
    returns (ghost join: nat)
    requires Tree(blocks, root) && tip in blocks && last in blocks && blocks[tip].height == blocks[last].height + 1
    requires WalletValid(wallet, rank) && blocks[tip].height < TX_UNCONFIRMED
    modifies wallet
    ensures WalletValid(wallet, rank) && MeetAt(blocks, root, tip, last, join)
    ensures multiset(wallet.transactions) == multiset(old(wallet.transactions))
    ensures forall g :: g in wallet.transactions ==> g in old(wallet.allTx)
    ensures forall g :: g in wallet.transactions ==>
              wallet.allTx[g] == TxAfter(blocks, root, tip, join + 1, join, g, old(wallet.allTx)[g])
  {
    hide Acyclic, Sorted, Involves, Replay, Tree, TxAfter;
    RootIsLowest(blocks, root, tip);
    var b2 := FindJoin(blocks, root, tip, last);
    join := blocks[b2].height;
    var hashes := wallet.SetTxUnconfirmedAfter(blocks[b2].height, now, rank);
    ghost var was := old(wallet.allTx);
    forall g | g in wallet.transactions
      ensures wallet.allTx[g] == TxAfter(blocks, root, tip, blocks[tip].height + 1, join, g, was[g])
    {
      WalkStarts(blocks, root, tip, join, g, was[g]);
    }
    hide WalletValid;
    var b := tip;
    while blocks[b].height > blocks[b2].height
      invariant b in blocks && join <= blocks[b].height <= blocks[tip].height
      invariant b == Ancestor(blocks, root, tip, blocks[b].height)
      invariant WalletValid(wallet, rank) && multiset(wallet.transactions) == multiset(old(wallet.transactions))
      invariant WalkedTo(blocks, root, tip, blocks[b].height + 1, join, was, wallet)
      decreases blocks[b].height
    {
      b := ConfirmNext(blocks, root, tip, b, join, was, wallet, now, rank);
    }
  }

  // The walk has come down to height n.
  ghost predicate WalkedTo(blocks: map<Hash, Block>, root: Hash, tip: Hash, n: nat, join: nat, was: map<Hash, Tx>,
                           wallet: BRWallet)
    requires Tree(blocks, root) && tip in blocks && blocks[root].height <= n
    reads wallet
  {
    forall g :: g in wallet.transactions ==>
      g in was && g in wallet.allTx && wallet.allTx[g] == TxAfter(blocks, root, tip, n, join, g, was[g])
  }

  // What the walk does at block b.
  method ConfirmNext(blocks: map<Hash, Block>, ghost root: Hash, ghost tip: Hash, b: Hash, ghost join: nat,
                     ghost was: map<Hash, Tx>, wallet: BRWallet, now: nat, ghost rank: Hash -> nat)
    returns (parent: Hash)
    requires Tree(blocks, root) && tip in blocks && blocks[root].height <= join
    requires b in blocks && join < blocks[b].height <= blocks[tip].height
    requires b == Ancestor(blocks, root, tip, blocks[b].height)
    requires WalletValid(wallet, rank) && blocks[tip].height < TX_UNCONFIRMED
    requires WalkedTo(blocks, root, tip, blocks[b].height + 1, join, was, wallet)
    modifies wallet
    ensures WalletValid(wallet, rank) && multiset(wallet.transactions) == multiset(old(wallet.transactions))
    ensures parent in blocks && blocks[parent].height == blocks[b].height - 1
    ensures parent == Ancestor(blocks, root, tip, blocks[parent].height)
    ensures WalkedTo(blocks, root, tip, blocks[b].height, join, was, wallet)
  {
    hide Acyclic, Sorted, Involves, Replay, Tree, TxAfter, TimeOf, WalletValid, Ancestor;
    Above(blocks, root, tip, blocks[b].height);
    AncestorStep(blocks, root, tip, blocks[b].height);
    parent := blocks[b].prev;
    TimeIs(blocks, blocks[b]);
    AllListed(wallet, rank);
    ghost var list := wallet.transactions;
    Confirm(wallet, blocks[b].txHashes, blocks[b].height, blocks[b].timestamp / 2 + blocks[parent].timestamp / 2,
            now, rank);
    AllListed(wallet, rank);
    SameMembers(wallet.transactions, list);
    forall g | g in wallet.transactions
      ensures g in was && g in wallet.allTx
              && wallet.allTx[g] == TxAfter(blocks, root, tip, blocks[b].height, join, g, was[g])
    {
      WalkOn(blocks, root, tip, blocks[b].height, join, g, was[g]);
    }
  }

  lemma TimeIs(blocks: map<Hash, Block>, b: Block)
    ensures b.prev in blocks ==> TimeOf(blocks, b) == b.timestamp / 2 + blocks[b.prev].timestamp / 2
  {
  }
}
