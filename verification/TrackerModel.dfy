/** The log tracker as functions: windows of blocks, reconciling a new block, and the log store. */
module TrackerModel {
  import opened Basics
  import opened Results

  type Hash = nat

  datatype Block = Block(hash: Hash, number: nat, parent: Hash)

  datatype Log = Log(blockHash: Hash, blockNumber: nat, data: nat)

  datatype Error = BadNumberSequence | TooDeep | ParentNotFound | LogsNotAvailable | NumbersDoNotMatch

  /** What the node answers: a fixed set of blocks, and per filter the logs of each block. */
  datatype Provider = Provider(blocks: map<Hash, Block>, logs: (nat, Hash) -> Option<seq<Log>>)

  /** A block is returned under its own hash. */
  ghost predicate Faithful(p: Provider) { forall h :: h in p.blocks ==> p.blocks[h].hash == h }

  ghost predicate Known(p: Provider, b: Block) { b.hash in p.blocks && p.blocks[b.hash] == b }

  /** The blocks form a tree with consecutive numbers, and logs carry the hash and number of their block. */
  ghost predicate Tree(p: Provider)
  {
    && Faithful(p)
    && (forall b: Block, c: Block :: Known(p, b) && Known(p, c) && c.parent == b.hash ==> c.number == b.number + 1)
    && (forall f: nat, b: Block :: Known(p, b) && p.logs(f, b.hash).Some? ==> Labelled(b, p.logs(f, b.hash).value))
  }

  predicate Labelled(b: Block, logs: seq<Log>)
  {
    forall i :: 0 <= i < |logs| ==> logs[i].blockHash == b.hash && logs[i].blockNumber == b.number
  }

  // ----- chains of blocks -----

  /** Every block is the child of the one before it. */
  predicate HashLinked(bs: seq<Block>) { forall i :: 0 < i < |bs| ==> bs[i].parent == bs[i - 1].hash }

  /** Hash-linked and consecutively numbered. */
  predicate Linked(bs: seq<Block>)
  {
    HashLinked(bs) && forall i :: 0 < i < |bs| ==> bs[i].number == bs[i - 1].number + 1
  }

  function IndexOf(bs: seq<Block>, hash: Hash): (i: int)
    ensures -1 <= i < |bs|
    ensures i >= 0 ==> bs[i].hash == hash
    ensures i == -1 <==> forall k :: 0 <= k < |bs| ==> bs[k].hash != hash
  {
    IndexFrom(bs, hash, 0)
  }

  /** The first block from position i on with the given hash. */
  function IndexFrom(bs: seq<Block>, hash: Hash, i: nat): (r: int)
    requires i <= |bs|
    ensures -1 <= r < |bs| && (r >= 0 ==> i <= r && bs[r].hash == hash && forall k :: i <= k < r ==> bs[k].hash != hash)
    ensures r == -1 <==> forall k :: i <= k < |bs| ==> bs[k].hash != hash
    decreases |bs| - i
  {
    if i == |bs| then -1 else if bs[i].hash == hash then i else IndexFrom(bs, hash, i + 1)
  }

  function LastN(bs: seq<Block>, n: nat): seq<Block> { if |bs| <= n then bs else bs[|bs| - n..] }

  // ----- the window -----

  /** Appends a block to a full or growing window; a gap in the numbers is refused, after the oldest block was dropped. */
  function Push(window: seq<Block>, b: Block, max: nat): (r: (seq<Block>, bool))
  {
    var w := if |window| == max && max > 0 then window[1..] else window;
    if |w| != 0 && w[|w| - 1].number + 1 != b.number then (w, false) else (w + [b], true)
  }

  /** The blocks to add, oldest first, after the block at `keep`; -1 keeps everything. */
  datatype Plan = Plan(added: seq<Block>, keep: int)

  /** The ancestors of a block down to the first whose parent is in the window, newest first. */
  function Ancestors(p: Provider, window: seq<Block>, b: Block, budget: nat): Result<seq<Block>, Error>
    decreases budget
  {
    if budget == 0 then Err(TooDeep)
    else if b.parent !in p.blocks then Err(ParentNotFound)
    else
      var parent := p.blocks[b.parent];
      if IndexOf(window, parent.parent) != -1 then Ok([parent])
      else
        var rest := Ancestors(p, window, parent, budget - 1);
        if rest.Err? then rest else Ok([parent] + rest.value)
  }

  function Reverse<T>(s: seq<T>): (r: seq<T>)
    ensures |r| == |s| && forall i :: 0 <= i < |s| ==> r[i] == s[|s| - 1 - i]
  {
    if s == [] then [] else Reverse(s[1..]) + [s[0]]
  }

  function Reconcile(p: Provider, window: seq<Block>, max: nat, b: Block): Result<Plan, Error>
  {
    if IndexOf(window, b.hash) != -1 then Ok(Plan([], -1))
    else if |window| == 0 then Ok(Plan([b], -1))
    else if window[|window| - 1].hash == b.parent then Ok(Plan([b], -1))
    else if IndexOf(window, b.parent) != -1 then Ok(Plan([b], IndexOf(window, b.parent)))
    else
      var found := Ancestors(p, window, b, max + 1);
      if found.Err? then Err(found.error)
      else
        var newest := [b] + found.value;
        Ok(Plan(Reverse(newest), IndexOf(window, newest[|newest| - 1].parent)))
  }

  // ----- when a block attaches, in terms of parents alone -----

  /** The ancestor i generations up. */
  function Up(p: Provider, b: Block, i: nat): Option<Block>
  {
    if i == 0 then Some(b)
    else
      var u := Up(p, b, i - 1);
      if u.Some? && u.value.parent in p.blocks then Some(p.blocks[u.value.parent]) else None
  }

  lemma UpZero(p: Provider, b: Block)
    ensures Up(p, b, 0) == Some(b)
  {
  }

  lemma UpStep(p: Provider, b: Block, i: nat)
    requires Up(p, b, i).Some?
    ensures var u := Up(p, b, i).value;
            Up(p, b, i + 1) == if u.parent in p.blocks then Some(p.blocks[u.parent]) else None
  {
  }

  lemma {:induction false} UpOfParent(p: Provider, b: Block, i: nat)
    requires b.parent in p.blocks
    ensures Up(p, b, i + 1) == Up(p, p.blocks[b.parent], i)
  {
    if i > 0 {
      UpOfParent(p, b, i - 1);
    }
  }

  lemma {:induction false} UpBroken(p: Provider, b: Block, i: nat, j: nat)
    requires i <= j && Up(p, b, i).None?
    ensures Up(p, b, j).None?
  {
    if i < j {
      UpBroken(p, b, i, j - 1);
    }
  }

  predicate InWindow(window: seq<Block>, hash: Hash) { exists k :: 0 <= k < |window| && window[k].hash == hash }

  /** The ancestor i generations up has its parent in the window. */
  predicate Touches(p: Provider, window: seq<Block>, b: Block, i: nat)
  {
    Up(p, b, i).Some? && InWindow(window, Up(p, b, i).value.parent)
  }

  /** The nearest ancestor that attaches to the window is n generations up; anything attaches to an empty window. */
  predicate Attaches(p: Provider, window: seq<Block>, b: Block, n: nat)
  {
    if window == [] then n == 0 else Touches(p, window, b, n) && forall i :: 0 <= i < n ==> !Touches(p, window, b, i)
  }

  /** The block is in the window, or it or an ancestor fewer than max + 2 generations up attaches to it. */
  predicate Attachable(p: Provider, window: seq<Block>, max: nat, b: Block)
  {
    InWindow(window, b.hash) || exists n :: 0 <= n < max + 2 && Attaches(p, window, b, n)
  }

  lemma {:induction false} NearestTouch(p: Provider, window: seq<Block>, b: Block, i: nat) returns (n: nat)
    requires window != [] && Touches(p, window, b, i)
    ensures n <= i && Attaches(p, window, b, n)
  {
    if j :| 0 <= j < i && Touches(p, window, b, j) {
      n := NearestTouch(p, window, b, j);
    } else {
      n := i;
    }
  }

  /** It does not matter whether the nearest or just some ancestor is asked for. */
  lemma AttachableBySome(p: Provider, window: seq<Block>, max: nat, b: Block)
    ensures Attachable(p, window, max, b) <==>
            window == [] || InWindow(window, b.hash) || exists i :: 0 <= i < max + 2 && Touches(p, window, b, i)
  {
    hide Touches;
    if window == [] {
      assert Attaches(p, window, b, 0);
    } else if i :| 0 <= i < max + 2 && Touches(p, window, b, i) {
      var n := NearestTouch(p, window, b, i);
    }
  }

  /** The search finds an ancestor that attaches exactly when there is one within its budget, and says why otherwise. */
  lemma {:induction false} AncestorsFound(p: Provider, window: seq<Block>, b: Block, budget: nat)
    ensures Ancestors(p, window, b, budget).Ok? <==> exists i :: 1 <= i <= budget && Touches(p, window, b, i)
    ensures var r := Ancestors(p, window, b, budget);
            r.Err? ==> r.error == if Up(p, b, budget).Some? then TooDeep else ParentNotFound
    decreases budget
  {
    hide Up;
    UpZero(p, b);
    if budget > 0 {
      UpStep(p, b, 0);
      if b.parent !in p.blocks {
        UpBroken(p, b, 1, budget);
        forall i | 1 <= i <= budget ensures !Touches(p, window, b, i) { UpBroken(p, b, 1, i); }
      } else {
        var parent := p.blocks[b.parent];
        UpZero(p, parent);
        UpOfParent(p, b, 0);
        UpOfParent(p, b, budget - 1);
        TouchesParent(p, window, b, budget);
        if IndexOf(window, parent.parent) != -1 {
          assert Touches(p, window, b, 1);
        } else {
          assert !Touches(p, window, parent, 0);
          AncestorsFound(p, window, parent, budget - 1);
        }
      }
    }
  }

  lemma TouchesParent(p: Provider, window: seq<Block>, b: Block, budget: nat)
    requires b.parent in p.blocks && budget > 0
    ensures (exists i :: 1 <= i <= budget && Touches(p, window, b, i)) <==>
            (exists i :: 0 <= i <= budget - 1 && Touches(p, window, p.blocks[b.parent], i))
  {
    hide Up;
    var parent := p.blocks[b.parent];
    if i :| 1 <= i <= budget && Touches(p, window, b, i) {
      UpOfParent(p, b, i - 1);
      assert Touches(p, window, parent, i - 1);
    }
    if i :| 0 <= i <= budget - 1 && Touches(p, window, parent, i) {
      UpOfParent(p, b, i);
      assert Touches(p, window, b, i + 1);
    }
  }

  /** A plan exists exactly for the blocks that attach. */
  lemma ReconcileExactly(p: Provider, window: seq<Block>, max: nat, b: Block)
    ensures Reconcile(p, window, max, b).Ok? <==> Attachable(p, window, max, b)
    ensures var r := Reconcile(p, window, max, b);
            r.Err? ==> r.error == if Up(p, b, max + 1).Some? then TooDeep else ParentNotFound
  {
    hide Up, Ancestors, Reverse, Attachable, Attaches;
    AttachableBySome(p, window, max, b);
    AncestorsFound(p, window, b, max + 1);
    UpZero(p, b);
    assert Touches(p, window, b, 0) <==> InWindow(window, b.parent);
    assert IndexOf(window, b.parent) == -1 <==> !InWindow(window, b.parent);
  }

  /** Linked blocks that end in b and are known but for b are the ancestors of b. */
  lemma {:induction false} LinkedAreAncestors(p: Provider, bs: seq<Block>, b: Block, k: nat)
    requires HashLinked(bs) && k < |bs| && bs[|bs| - 1] == b && forall i :: 0 <= i < |bs| - 1 ==> Known(p, bs[i])
    ensures Up(p, b, k) == Some(bs[|bs| - 1 - k])
    decreases k
  {
    if k > 0 {
      LinkedAreAncestors(p, bs, b, k - 1);
      assert Known(p, bs[|bs| - 1 - k]) && bs[|bs| - k].parent == bs[|bs| - 1 - k].hash;
    }
  }

  /** The added blocks of a plan are the block and its ancestors down to the nearest that attaches. */
  lemma AddedAttach(p: Provider, window: seq<Block>, b: Block, added: seq<Block>)
    requires added != [] && added[|added| - 1] == b && HashLinked(added)
    requires forall i :: 0 <= i < |added| - 1 ==> Known(p, added[i])
    requires if window == [] then |added| == 1 else InWindow(window, added[0].parent)
    requires forall i :: 0 < i < |added| ==> !InWindow(window, added[i].parent)
    ensures Attaches(p, window, b, |added| - 1)
    ensures forall k :: 0 <= k < |added| ==> Up(p, b, k) == Some(added[|added| - 1 - k])
  {
    hide Up, HashLinked;
    forall k | 0 <= k < |added| ensures Up(p, b, k) == Some(added[|added| - 1 - k]) {
      LinkedAreAncestors(p, added, b, k);
    }
    assert Up(p, b, |added| - 1) == Some(added[0]);
  }

  predicate LogsAvailable(p: Provider, f: nat, bs: seq<Block>)
  {
    forall i :: 0 <= i < |bs| ==> p.logs(f, bs[i].hash).Some?
  }

  /** The logs of a block and of its ancestors up to n generations are available to a filter. */
  predicate LogsUpTo(p: Provider, f: nat, b: Block, n: nat)
  {
    forall k :: 0 <= k <= n && Up(p, b, k).Some? ==> p.logs(f, Up(p, b, k).value.hash).Some?
  }

  lemma AvailableUpTo(p: Provider, f: nat, b: Block, added: seq<Block>)
    requires added != [] && forall k :: 0 <= k < |added| ==> Up(p, b, k) == Some(added[|added| - 1 - k])
    ensures LogsAvailable(p, f, added) <==> LogsUpTo(p, f, b, |added| - 1)
  {
    hide Up;
    if LogsUpTo(p, f, b, |added| - 1) {
      forall i | 0 <= i < |added| ensures p.logs(f, added[i].hash).Some? {
        assert Up(p, b, |added| - 1 - i) == Some(added[i]);
      }
    }
  }

  lemma AttachesOnce(p: Provider, window: seq<Block>, b: Block, m: nat, n: nat)
    requires Attaches(p, window, b, m) && Attaches(p, window, b, n)
    ensures m == n
  {
  }

  /** Ancestors are known, linked, and the search stops at the first block that attaches to the window. */
  lemma {:induction false} AncestorsAttach(p: Provider, window: seq<Block>, b: Block, budget: nat)
    requires Faithful(p) && Ancestors(p, window, b, budget).Ok?
    ensures var s := [b] + Ancestors(p, window, b, budget).value;
            && 2 <= |s| <= budget + 1
            && (forall i :: 0 < i < |s| ==> s[i].hash == s[i - 1].parent && Known(p, s[i]))
            && IndexOf(window, s[|s| - 1].parent) != -1
            && (forall i :: 0 < i < |s| - 1 ==> IndexOf(window, s[i].parent) == -1)
    decreases budget
  {
    hide IndexOf;
    var parent := p.blocks[b.parent];
    if IndexOf(window, parent.parent) == -1 {
      AncestorsAttach(p, window, parent, budget - 1);
      var t := [parent] + Ancestors(p, window, parent, budget - 1).value;
      var s := [b] + Ancestors(p, window, b, budget).value;
      assert s == [b] + t;
      assert forall i :: 0 < i < |s| ==> s[i] == t[i - 1];
    }
  }

  /** What a plan promises: the added blocks end in the new one, are linked, and attach to the block that is kept last. */
  ghost predicate Attached(window: seq<Block>, b: Block, plan: Plan)
  {
    && -1 <= plan.keep < |window| && |plan.added| > 0
    && plan.added[|plan.added| - 1] == b && HashLinked(plan.added)
    && (plan.keep >= 0 ==> plan.added[0].parent == window[plan.keep].hash)
    && (plan.keep == -1 ==> window == [] || plan.added[0].parent == window[|window| - 1].hash)
  }

  lemma ReconcileAttaches(p: Provider, window: seq<Block>, max: nat, b: Block)
    requires Faithful(p) && Reconcile(p, window, max, b).Ok?
    ensures var plan := Reconcile(p, window, max, b).value;
            && (plan.added == [] <==> IndexOf(window, b.hash) != -1)
            && (plan.added == [] ==> plan.keep == -1)
            && (plan.added != [] ==> Attached(window, b, plan) && |plan.added| <= max + 2)
            && (window == [] ==> plan.added == [b])
            && (forall i :: 0 <= i < |plan.added| - 1 ==> Known(p, plan.added[i]))
            && (forall i :: 0 < i < |plan.added| ==> IndexOf(window, plan.added[i].parent) == -1)
  {
    hide Ancestors, IndexOf, Reverse;
    if IndexOf(window, b.hash) == -1 && |window| != 0 && window[|window| - 1].hash != b.parent
       && IndexOf(window, b.parent) == -1 {
      AncestorsAttach(p, window, b, max + 1);
      var s := [b] + Ancestors(p, window, b, max + 1).value;
      var r := Reverse(s);
      assert forall i :: 0 <= i < |s| ==> r[i] == s[|s| - 1 - i];
      forall i | 0 < i < |r| ensures r[i].parent == r[i - 1].hash {
        assert s[|s| - i].hash == s[|s| - i - 1].parent;
      }
      forall i | 0 < i < |r| ensures IndexOf(window, r[i].parent) == -1 {
        assert i < |r| - 1 ==> IndexOf(window, s[|s| - 1 - i].parent) == -1;
      }
    }
  }

  // ----- pushing a whole plan -----

  /** Pushes block after block until one is refused. */
  function PushAll(window: seq<Block>, bs: seq<Block>, max: nat): (r: (seq<Block>, bool))
    decreases |bs|
  {
    if bs == [] then (window, true)
    else
      var (w, ok) := Push(window, bs[0], max);
      if ok then PushAll(w, bs[1..], max) else (w, false)
  }

  /** A linked window stays linked and short, even when a push is refused. */
  lemma {:induction false} PushAllKeeps(window: seq<Block>, bs: seq<Block>, max: nat)
    requires max > 0 && Linked(window) && |window| <= max && HashLinked(bs)
    requires window != [] && bs != [] ==> bs[0].parent == window[|window| - 1].hash
    ensures Linked(PushAll(window, bs, max).0) && |PushAll(window, bs, max).0| <= max
    decreases |bs|
  {
    if bs != [] {
      var (w, ok) := Push(window, bs[0], max);
      if ok {
        PushAllKeeps(w, bs[1..], max);
      }
    }
  }

  /** The last n of the last n and more. */
  lemma LastOfLast(a: seq<Block>, b: seq<Block>, n: nat)
    ensures LastN(LastN(a, n) + b, n) == LastN(a + b, n)
  {
    var c := LastN(a, n);
    var k := |a| - |c|;
    assert a[k..] == c && (a + b)[k..] == c + b;
    if |a + b| > n {
      assert LastN(a + b, n) == (a + b)[|a + b| - n..];
      assert (c + b)[|c + b| - n..] == (a + b)[k..][|c + b| - n..];
    }
  }

  lemma PushLast(window: seq<Block>, b: Block, max: nat)
    requires max > 0 && |window| <= max && Push(window, b, max).1
    ensures Push(window, b, max).0 == LastN(window + [b], max)
  {
  }

  /** When nothing is refused the window is the last `max` blocks of everything. */
  lemma {:induction false} PushAllWindow(window: seq<Block>, bs: seq<Block>, max: nat)
    requires max > 0 && |window| <= max && PushAll(window, bs, max).1
    ensures PushAll(window, bs, max).0 == LastN(window + bs, max)
    decreases |bs|
  {
    if bs == [] {
      assert window + bs == window;
    } else {
      hide Push;
      PushLast(window, bs[0], max);
      PushAllWindow(LastN(window + [bs[0]], max), bs[1..], max);
      LastOfLast(window + [bs[0]], bs[1..], max);
      assert window + bs == window + [bs[0]] + bs[1..];
    }
  }

  /** Known blocks of a tree are never refused. */
  lemma {:induction false} KnownPushes(p: Provider, window: seq<Block>, bs: seq<Block>, max: nat)
    requires Tree(p) && AllKnown(p, window) && AllKnown(p, bs) && HashLinked(bs)
    requires window != [] && bs != [] ==> bs[0].parent == window[|window| - 1].hash
    ensures PushAll(window, bs, max).1 && AllKnown(p, PushAll(window, bs, max).0)
    decreases |bs|
  {
    if bs != [] {
      var (w, ok) := Push(window, bs[0], max);
      assert Known(p, bs[0]);
      assert window != [] ==> Known(p, window[|window| - 1]);
      KnownPushes(p, w, bs[1..], max);
    }
  }

  // ----- logs -----

  /** The logs of a chain, block after block; a block whose logs are not available contributes none. */
  function LogsOf(p: Provider, f: nat, bs: seq<Block>): seq<Log>
  {
    if bs == [] then [] else LogsOf(p, f, bs[..|bs| - 1]) + BlockLogs(p, f, bs[|bs| - 1])
  }

  function BlockLogs(p: Provider, f: nat, b: Block): seq<Log>
  {
    if p.logs(f, b.hash).Some? then p.logs(f, b.hash).value else []
  }

  lemma {:induction false} LogsOfConcat(p: Provider, f: nat, a: seq<Block>, b: seq<Block>)
    ensures LogsOf(p, f, a + b) == LogsOf(p, f, a) + LogsOf(p, f, b)
    decreases |b|
  {
    if b == [] {
      assert a + b == a;
    } else {
      assert (a + b)[..|a + b| - 1] == a + b[..|b| - 1];
      LogsOfConcat(p, f, a, b[..|b| - 1]);
    }
  }

  /** Taken back when everything from block `number` on goes; at that number only the logs of one hash, if given. */
  predicate Goes(l: Log, number: nat, hash: Option<Hash>)
  {
    l.blockNumber > number || (l.blockNumber == number && (hash.None? || l.blockHash == hash.value))
  }

  /** How many logs stay: the store is cut behind the last log that does not go. */
  function Kept(logs: seq<Log>, number: nat, hash: Option<Hash>): (n: nat)
    ensures n <= |logs|
    ensures forall i :: n <= i < |logs| ==> Goes(logs[i], number, hash)
    ensures n > 0 ==> !Goes(logs[n - 1], number, hash)
  {
    if logs == [] then 0
    else if !Goes(logs[|logs| - 1], number, hash) then |logs|
    else Kept(logs[..|logs| - 1], number, hash)
  }

  /** Blocks from the first on carry numbers of at least the first. */
  lemma {:induction false} NumbersGrow(bs: seq<Block>, i: nat, j: nat)
    requires Linked(bs) && i <= j < |bs|
    ensures bs[j].number == bs[i].number + (j - i)
    decreases j
  {
    if i < j {
      NumbersGrow(bs, i, j - 1);
    }
  }

  /** One log more or less at the end. */
  lemma KeptStep(logs: seq<Log>, index: nat, number: nat, hash: Option<Hash>)
    requires 0 < index <= |logs|
    ensures if Goes(logs[index - 1], number, hash) then Kept(logs[..index], number, hash) == Kept(logs[..index - 1], number, hash)
            else Kept(logs[..index], number, hash) == index
  {
    assert logs[..index][..index - 1] == logs[..index - 1];
  }

  /** The cut is where the logs that go begin. */
  lemma KeptCut(a: seq<Log>, b: seq<Log>, number: nat, hash: Option<Hash>)
    requires forall i :: 0 <= i < |b| ==> Goes(b[i], number, hash)
    requires forall i :: 0 <= i < |a| ==> !Goes(a[i], number, hash)
    ensures Kept(a + b, number, hash) == |a|
  {
    hide Goes;
    var n := Kept(a + b, number, hash);
    assert forall i :: 0 <= i < |a| ==> (a + b)[i] == a[i];
    assert forall i :: |a| <= i < |a + b| ==> (a + b)[i] == b[i - |a|];
    assert |a| > 0 ==> (a + b)[|a| - 1] == a[|a| - 1];
  }

  ghost predicate AllKnown(p: Provider, bs: seq<Block>) { forall i :: 0 <= i < |bs| ==> Known(p, bs[i]) }

  lemma {:induction false} LogNumbers(p: Provider, f: nat, bs: seq<Block>, lo: nat, hi: nat)
    requires Tree(p) && AllKnown(p, bs) && forall i :: 0 <= i < |bs| ==> lo <= bs[i].number < hi
    ensures forall i :: 0 <= i < |LogsOf(p, f, bs)| ==> lo <= LogsOf(p, f, bs)[i].blockNumber < hi
  {
    if bs != [] {
      var rest, last := bs[..|bs| - 1], bs[|bs| - 1];
      LogNumbers(p, f, rest, lo, hi);
      assert Known(p, last);
      assert Labelled(last, BlockLogs(p, f, last));
    }
  }

  lemma LogsBefore(p: Provider, f: nat, chain: seq<Block>, j: nat)
    requires Tree(p) && Linked(chain) && AllKnown(p, chain) && j < |chain|
    ensures var logs := LogsOf(p, f, chain[..j]); forall i :: 0 <= i < |logs| ==> logs[i].blockNumber < chain[j].number
  {
    hide Tree, Linked, LogsOf;
    var before := chain[..j];
    forall i | 0 <= i < |before| ensures 0 <= before[i].number < chain[j].number { NumbersGrow(chain, i, j); }
    LogNumbers(p, f, before, 0, chain[j].number);
  }

  lemma LogsAfter(p: Provider, f: nat, chain: seq<Block>, j: nat)
    requires Tree(p) && Linked(chain) && AllKnown(p, chain) && j < |chain|
    ensures var logs := LogsOf(p, f, chain[j + 1..]); forall i :: 0 <= i < |logs| ==> logs[i].blockNumber > chain[j].number
  {
    hide Tree, Linked, LogsOf;
    var later, n := chain[j + 1..], chain[j].number;
    forall i | 0 <= i < |later| ensures n + 1 <= later[i].number < n + |chain| {
      NumbersGrow(chain, j, j + 1 + i);
    }
    LogNumbers(p, f, later, n + 1, n + |chain|);
  }

  /** Taking back block j of a linked chain and everything after it cuts the store exactly before block j. */
  lemma Rewind(p: Provider, f: nat, chain: seq<Block>, j: nat)
    requires Tree(p) && Linked(chain) && AllKnown(p, chain) && j < |chain|
    ensures Kept(LogsOf(p, f, chain), chain[j].number, Some(chain[j].hash)) == |LogsOf(p, f, chain[..j])|
    ensures LogsOf(p, f, chain) == LogsOf(p, f, chain[..j]) + LogsOf(p, f, chain[j..])
  {
    hide Tree, Linked, LogsOf, Kept;
    var pivot := chain[j];
    var before, after, later := chain[..j], chain[j..], chain[j + 1..];
    assert chain == before + after && after == [pivot] + later;
    LogsOfConcat(p, f, before, after);
    LogsOfConcat(p, f, [pivot], later);
    LogsBefore(p, f, chain, j);
    LogsAfter(p, f, chain, j);
    OwnLogs(p, f, pivot);
    KeptCut(LogsOf(p, f, before), LogsOf(p, f, after), pivot.number, Some(pivot.hash));
  }

  lemma OwnLogs(p: Provider, f: nat, b: Block)
    requires Tree(p) && Known(p, b)
    ensures Labelled(b, LogsOf(p, f, [b]))
  {
    assert [b][..0] == [];
    assert LogsOf(p, f, [b]) == BlockLogs(p, f, b);
  }

  /** Taking back a block below a chain takes back all its logs. */
  lemma RewindAll(p: Provider, f: nat, chain: seq<Block>, number: nat, hash: Hash)
    requires Tree(p) && Linked(chain) && AllKnown(p, chain) && (chain != [] ==> number < chain[0].number)
    ensures Kept(LogsOf(p, f, chain), number, Some(hash)) == 0
  {
    hide Tree, Linked;
    forall i | 0 <= i < |chain| ensures number + 1 <= chain[i].number < number + 1 + (chain[0].number + |chain|) {
      NumbersGrow(chain, 0, i);
    }
    LogNumbers(p, f, chain, number + 1, number + 1 + if chain == [] then 0 else chain[0].number + |chain|);
    var logs := LogsOf(p, f, chain);
    assert [] + logs == logs;
    KeptCut([], logs, number, Some(hash));
  }

  // ----- a filter's chain beside the window -----

  /** The two end in the same blocks: the shorter is the end of the longer. */
  predicate Aligned(chain: seq<Block>, window: seq<Block>)
  {
    && (window == [] ==> chain == [])
    && (|chain| <= |window| ==> chain == window[|window| - |chain|..])
    && (|window| <= |chain| ==> window == chain[|chain| - |window|..])
  }

  function Trim(chain: seq<Block>, k: nat): seq<Block> { if k >= |chain| then [] else chain[..|chain| - k] }

  /** Hash-linked known blocks are consecutively numbered. */
  lemma KnownLinked(p: Provider, bs: seq<Block>)
    requires Tree(p) && AllKnown(p, bs) && HashLinked(bs)
    ensures Linked(bs)
  {
    forall i | 0 < i < |bs| ensures bs[i].number == bs[i - 1].number + 1 {
      assert Known(p, bs[i]) && Known(p, bs[i - 1]);
    }
  }

  /** After a step the chain is what was kept of it, then the added blocks; it is linked and still beside the window. */
  lemma ChainStep(p: Provider, chain: seq<Block>, window: seq<Block>, keep: nat, added: seq<Block>, max: nat)
    requires Tree(p) && Linked(chain) && AllKnown(p, chain) && Linked(window) && Aligned(chain, window)
    requires AllKnown(p, added) && HashLinked(added) && added != [] && keep <= |window| && max > 0
    requires keep > 0 ==> added[0].parent == window[keep - 1].hash
    requires keep == 0 ==> window == []
    ensures var chain' := Trim(chain, |window| - keep) + added;
            Linked(chain') && AllKnown(p, chain') && Aligned(chain', LastN(window[..keep] + added, max))
  {
    hide Tree, Linked, Aligned, HashLinked, LastN;
    var k := |window| - keep;
    var base := Trim(chain, k);
    var chain' := base + added;
    assert AllKnown(p, chain');
    assert HashLinked(chain') by {
      hide *;
      LinkedHashes(chain);
      BaseLinked(chain, window, keep, added);
    }
    KnownLinked(p, chain');
    AlignedTrim(chain, window, keep);
    AlignedAppend(base, window[..keep], added, max);
  }

  /** Taking the same number of blocks from both ends keeps them aligned. */
  lemma AlignedTrim(chain: seq<Block>, window: seq<Block>, keep: nat)
    requires Aligned(chain, window) && keep <= |window| && (keep == 0 ==> window == [])
    ensures Aligned(Trim(chain, |window| - keep), window[..keep])
  {
    var base, w := Trim(chain, |window| - keep), window[..keep];
    if |chain| <= |window| {
      assert base == w[|w| - |base|..];
    } else {
      assert w == base[|base| - |w|..];
    }
  }

  lemma LinkedHashes(bs: seq<Block>)
    requires Linked(bs)
    ensures HashLinked(bs)
  {
  }

  lemma BaseLinked(chain: seq<Block>, window: seq<Block>, keep: nat, added: seq<Block>)
    requires HashLinked(chain) && Aligned(chain, window) && HashLinked(added) && added != [] && keep <= |window|
    requires keep > 0 ==> added[0].parent == window[keep - 1].hash
    requires keep == 0 ==> window == []
    ensures HashLinked(Trim(chain, |window| - keep) + added)
  {
    var base := Trim(chain, |window| - keep);
    assert base != [] ==> base[|base| - 1] == window[keep - 1];
  }

  lemma AlignedAppend(base: seq<Block>, window: seq<Block>, added: seq<Block>, max: nat)
    requires Aligned(base, window) && added != [] && max > 0
    ensures Aligned(base + added, LastN(window + added, max))
  {
    var c, w := base + added, window + added;
    if |base| <= |window| {
      assert c == w[|w| - |c|..];
    } else {
      assert w == c[|c| - |w|..];
    }
    AlignedLast(c, w, max);
  }

  lemma AlignedLast(chain: seq<Block>, window: seq<Block>, max: nat)
    requires Aligned(chain, window) && window != [] && max > 0
    ensures Aligned(chain, LastN(window, max))
  {
    var w := LastN(window, max);
    if |chain| <= |w| {
      assert chain == w[|w| - |chain|..];
    } else {
      assert w == chain[|chain| - |w|..];
    }
  }
}
