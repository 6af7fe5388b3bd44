/** The tracker as it runs: a window of blocks, filters with their log stores, and one step per new block. */
module TrackerMachine {
  import opened Basics
  import opened Results
  import opened TrackerModel

  datatype BlockEvent = BlockEvent(added: seq<Block>, removed: seq<Block>)

  datatype Event = Event(added: seq<Log>, removed: seq<Log>)

  /** A filter with its own log store. The chain is the sequence of blocks the store stands for. */
  class Filter {
    const config: nat
    var synced: bool
    var logs: seq<Log>
    var last: Option<Block>
    var events: seq<Event>
    ghost var chain: seq<Block>

    constructor (config: nat)
      ensures this.config == config && !synced && logs == [] && last == None && events == [] && chain == []
    {
      this.config := config;
      synced, logs, last, events, chain := false, [], None, [], [];
    }

    /** The store is what collecting the logs of the chain from scratch would give. */
    ghost predicate Agrees(p: Provider)
      reads this
    {
      Linked(chain) && AllKnown(p, chain) && logs == LogsOf(p, config, chain)
    }
  }

  /** Cuts the store at a block and returns what was cut off, newest first. */
  method RemoveLogs(filter: Filter, number: nat, hash: Option<Hash>) returns (remove: seq<Log>)
    modifies filter`logs
    ensures var k := Kept(old(filter.logs), number, hash);
            filter.logs == old(filter.logs)[..k] && remove == Reverse(old(filter.logs)[k..])
  {
    hide Kept, Reverse;
    ghost var logs := filter.logs;
    var index := |filter.logs|;
    remove := [];
    assert logs[..index] == logs && logs[index..] == [];
    ReverseStart<Log>();
    KeptNone(number, hash);
    if index == 0 {
      return;
    }
    while true
      invariant 0 < index <= |logs| && filter.logs == logs
      invariant remove == Reverse(logs[index..]) && Kept(logs, number, hash) == Kept(logs[..index], number, hash)
      decreases index
    {
      var elemIndex := index - 1;
      var log := filter.logs[elemIndex];
      KeptStep(logs, index, number, hash);
      if log.blockNumber == number {
        if hash.Some? && log.blockHash != hash.value {
          break;
        }
      }
      if log.blockNumber < number {
        break;
      }
      ReverseStep(logs, elemIndex);
      remove := remove + [log];
      index := elemIndex;
      if elemIndex == 0 {
        assert logs[..0] == [];
        break;
      }
    }
    filter.logs := filter.logs[..index];
  }

  lemma ReverseStart<T>()
    ensures Reverse<T>([]) == []
  {
  }

  lemma KeptNone(number: nat, hash: Option<Hash>)
    ensures Kept([], number, hash) == 0
  {
  }

  lemma ReverseStep<T>(s: seq<T>, i: nat)
    requires i < |s|
    ensures Reverse(s[i..]) == Reverse(s[i + 1..]) + [s[i]]
  {
    assert s[i..][1..] == s[i + 1..];
  }

  method Revert<T>(s: seq<T>) returns (out: seq<T>)
    ensures out == Reverse(s)
  {
    out := [];
    var i := |s|;
    while i > 0
      invariant 0 <= i <= |s| && out == Reverse(s[i..])
    {
      i := i - 1;
      assert s[i..] == [s[i]] + s[i + 1..];
      out := out + [s[i]];
    }
    assert s[0..] == s;
  }

  /** Asks for the logs of a block, a few times. */
  method FetchLogs(p: Provider, config: nat, hash: Hash) returns (logs: Option<seq<Log>>)
    ensures logs == p.logs(config, hash)
  {
    logs := None;
    var i := 0;
    while i < 5
      invariant 0 <= i <= 5
      invariant logs.Some? ==> logs == p.logs(config, hash)
      invariant logs.None? && i > 0 ==> p.logs(config, hash).None?
      invariant i == 0 ==> logs.None?
    {
      logs := p.logs(config, hash);
      if logs.Some? {
        break;
      }
      i := i + 1;
    }
  }

  /** How many logs stay when the removed blocks go. */
  ghost function KeptOf(logs: seq<Log>, removed: seq<Block>): (k: nat)
    ensures k <= |logs|
  {
    if removed == [] then |logs| else Kept(logs, removed[0].number, Some(removed[0].hash))
  }

  /** Takes back the logs of removed blocks, and returns them in their order in the store. */
  method TakeBack(filter: Filter, removed: seq<Block>) returns (gone: seq<Log>)
    modifies filter`logs
    ensures var k := KeptOf(old(filter.logs), removed);
            filter.logs == old(filter.logs)[..k] && gone == old(filter.logs)[k..]
  {
    hide Kept, Reverse;
    gone := [];
    if |removed| != 0 {
      var pivot := removed[0];
      ghost var before := filter.logs;
      var logs := RemoveLogs(filter, pivot.number, Some(pivot.hash));
      gone := Revert(logs);
      ReverseTwice(before[KeptOf(before, removed)..]);
    }
  }

  /**
   * Brings a store up to date with blocks taken back and blocks added. On success the event replays the change: what it
   * removed was the end of the store, and what it added is the new end.
   */
  method DoFilter(p: Provider, filter: Filter, added: seq<Block>, removed: seq<Block>) returns (r: Result<Event, Error>)
    requires added != []
    modifies filter`logs, filter`last
    ensures r.Ok? ==>
              var k := KeptOf(old(filter.logs), removed);
              && r.value.removed == old(filter.logs)[k..]
              && r.value.added == LogsOf(p, filter.config, added)
              && filter.logs == old(filter.logs)[..k] + r.value.added
              && filter.last == Some(added[|added| - 1])
    ensures r.Ok? <==> LogsAvailable(p, filter.config, added)
  {
    hide KeptOf;
    ghost var before := filter.logs;
    ghost var k := KeptOf(before, removed);
    var gone := TakeBack(filter, removed);
    var found: seq<Log> := [];
    var i := 0;
    while i < |added|
      invariant 0 <= i <= |added|
      invariant found == LogsOf(p, filter.config, added[..i]) && LogsAvailable(p, filter.config, added[..i])
      invariant filter.logs == before[..k] + found
    {
      var logs := FetchLogs(p, filter.config, added[i].hash);
      if logs.None? {
        return Err(LogsNotAvailable);
      }
      assert added[..i + 1][..i] == added[..i];
      filter.logs := filter.logs + logs.value;
      found := found + logs.value;
      i := i + 1;
    }
    assert added[..|added|] == added;
    filter.last := Some(added[|added| - 1]);
    r := Ok(Event(found, gone));
  }

  lemma {:induction false} ReverseTwice<T>(s: seq<T>)
    ensures Reverse(Reverse(s)) == s
  {
    var r := Reverse(s);
    assert forall i :: 0 <= i < |s| ==> Reverse(r)[i] == r[|s| - 1 - i];
  }

  /** Added blocks: the new one and its ancestors down to the first that attaches to the window. */
  ghost predicate Lineage(p: Provider, max: nat, before: seq<Block>, added: seq<Block>, b: Block)
  {
    && added != [] && added[|added| - 1] == b && |added| <= max + 2
    && HashLinked(added)
    && (forall i :: 0 <= i < |added| - 1 ==> Known(p, added[i]))
    && (forall i :: 0 < i < |added| ==> !InWindow(before, added[i].parent))
  }

  /** The added blocks follow what is left of the window. */
  predicate Joins(rest: seq<Block>, added: seq<Block>)
    requires added != []
  {
    if rest == [] then |added| == 1 else added[0].parent == rest[|rest| - 1].hash
  }

  /** What an event says about the window before and after it. */
  ghost predicate MovedTo(p: Provider, max: nat, before: seq<Block>, event: Option<BlockEvent>, b: Block, after: seq<Block>)
  {
    match event
    case None => after == before && InWindow(before, b.hash)
    case Some(e) =>
      && |e.removed| <= |before| && !InWindow(before, b.hash) && Lineage(p, max, before, e.added, b)
      && var rest := before[..|before| - |e.removed|];
         && before == rest + e.removed && (rest == [] ==> before == [])
         && Joins(rest, e.added) && after == LastN(rest + e.added, max)
  }

  class Tracker {
    const provider: Provider
    const max: nat
    var blocks: seq<Block>
    var filters: seq<Filter>

    constructor (provider: Provider, backlog: nat)
      ensures this.provider == provider && max == (if backlog == 0 then 10 else backlog)
      ensures blocks == [] && filters == []
    {
      this.provider := provider;
      max := if backlog == 0 then 10 else backlog;
      blocks, filters := [], [];
    }

    /** The window is linked and short. */
    ghost predicate Valid()
      reads this`blocks
    {
      max > 0 && Faithful(provider) && Linked(blocks) && |blocks| <= max
    }

    method BlockAtIndex(hash: Hash) returns (i: int)
      ensures i == IndexOf(blocks, hash)
    {
      i := 0;
      while i < |blocks|
        invariant 0 <= i <= |blocks| && IndexOf(blocks, hash) == IndexFrom(blocks, hash, i)
      {
        if blocks[i].hash == hash {
          return;
        }
        i := i + 1;
      }
      i := -1;
    }

    method AddBlockLocked(b: Block) returns (ok: bool)
      requires max > 0
      modifies this`blocks
      ensures (blocks, ok) == Push(old(blocks), b, max)
    {
      if |blocks| == max {
        blocks := blocks[1..];
      }
      if |blocks| != 0 {
        var lastNum := blocks[|blocks| - 1].number;
        if lastNum + 1 != b.number {
          return false;
        }
      }
      blocks := blocks + [b];
      ok := true;
    }

    /** Where a new block attaches; asks for at most max + 1 parents. */
    method HandleReconcileImpl(b: Block) returns (r: Result<Plan, Error>, queries: nat)
      requires Faithful(provider)
      ensures r == Reconcile(provider, blocks, max, b)
      ensures queries <= max + 1
    {
      hide IndexOf;
      queries := 0;
      var known := BlockAtIndex(b.hash);
      if known != -1 {
        return Ok(Plan([], -1)), queries;
      }
      if |blocks| == 0 {
        return Ok(Plan([b], -1)), queries;
      }
      if blocks[|blocks| - 1].hash == b.parent {
        return Ok(Plan([b], -1)), queries;
      }
      var indx := BlockAtIndex(b.parent);
      if indx != -1 {
        return Ok(Plan([b], indx)), queries;
      }
      var found, at, n := Backfill(b);
      queries := n;
      if found.Err? {
        return Err(found.error), queries;
      }
      var bs := Revert(found.value);
      r := Ok(Plan(bs, at));
    }

    /** Follows parents from a block until one attaches to the window; newest first. */
    method Backfill(b: Block) returns (r: Result<seq<Block>, Error>, indx: int, queries: nat)
      ensures r == Extend([b], Ancestors(provider, blocks, b, max + 1))
      ensures r.Ok? ==> |r.value| > 0 && indx == IndexOf(blocks, r.value[|r.value| - 1].parent)
      ensures queries <= max + 1
    {
      hide IndexOf;
      queries, indx := 0, -1;
      var added, cur := [b], b;
      ghost var total := Extend([b], Ancestors(provider, blocks, b, max + 1));
      while true
        invariant queries <= max + 1
        invariant total == Extend(added, Ancestors(provider, blocks, cur, max + 1 - queries))
        decreases max + 1 - queries
      {
        if queries > max {
          return Err(TooDeep), indx, queries;
        }
        queries := queries + 1;
        if cur.parent !in provider.blocks {
          return Err(ParentNotFound), indx, queries;
        }
        var parent := provider.blocks[cur.parent];
        ExtendStep(added, parent, Ancestors(provider, blocks, parent, max + 1 - queries));
        added := added + [parent];
        indx := BlockAtIndex(parent.parent);
        if indx != -1 {
          return Ok(added), indx, queries;
        }
        cur := parent;
      }
    }

    /**
     * Moves the window to a new block. Whatever happens the window stays linked and short; on success the event says
     * which end of it was taken back and what was added, and the window is the last `max` blocks of the rest and those.
     */
    method HandleBlockEvent(b: Block) returns (r: Result<Option<BlockEvent>, Error>, queries: nat)
      requires Valid()
      modifies this`blocks
      ensures Valid() && queries <= max + 1
      ensures r.Ok? ==> Reconcile(provider, old(blocks), max, b).Ok? && Moved(old(blocks), r.value, b)
      ensures Tree(provider) && AllKnown(provider, old(blocks)) && Known(provider, b) ==>
                && AllKnown(provider, blocks) && (r.Ok? <==> Attachable(provider, old(blocks), max, b))
                && (r.Err? ==> blocks == old(blocks)
                               && r.error == if Up(provider, b, max + 1).Some? then TooDeep else ParentNotFound)
    {
      hide Linked, Reconcile, IndexOf, PushAll, HashLinked, LastN, Tree, Attachable, Up, Faithful;
      ghost var before := blocks;
      ReconcileExactly(provider, before, max, b);
      var plan, n := HandleReconcileImpl(b);
      queries := n;
      if plan.Err? {
        return Err(plan.error), queries;
      }
      var Plan(added, keep) := plan.value;
      ReconcileAttaches(provider, before, max, b);
      if |added| == 0 {
        return Ok(None), queries;
      }
      var removed := CutAfter(keep);
      ghost var rest := blocks;
      LinkedPrefix(before, |rest|);
      var ok := AddBlocks(added);
      PushAllKeeps(rest, added, max);
      if Tree(provider) && AllKnown(provider, before) && Known(provider, b) {
        assert AllKnown(provider, added);
        KnownPushes(provider, rest, added, max);
      }
      if !ok {
        return Err(BadNumberSequence), queries;
      }
      PushAllWindow(rest, added, max);
      r := Ok(Some(BlockEvent(added, removed)));
    }

    /** Drops the blocks after a position and returns them; -1 drops none. */
    method CutAfter(keep: int) returns (removed: seq<Block>)
      requires -1 <= keep < |blocks|
      modifies this`blocks
      ensures var n := if keep == -1 then |old(blocks)| else keep + 1;
              blocks == old(blocks)[..n] && removed == old(blocks)[n..]
    {
      removed := [];
      if keep != -1 {
        var i := keep + 1;
        while i < |blocks|
          invariant keep + 1 <= i <= |blocks| && blocks == old(blocks) && removed == blocks[keep + 1..i]
        {
          removed := removed + [blocks[i]];
          i := i + 1;
        }
        blocks := blocks[..keep + 1];
      }
    }

    method AddBlocks(added: seq<Block>) returns (ok: bool)
      requires max > 0
      modifies this`blocks
      ensures (blocks, ok) == PushAll(old(blocks), added, max)
    {
      var i := 0;
      while i < |added|
        invariant 0 <= i <= |added|
        invariant PushAll(old(blocks), added, max) == PushAll(blocks, added[i..], max)
      {
        assert added[i..][1..] == added[i + 1..];
        ok := AddBlockLocked(added[i]);
        if !ok {
          return;
        }
        i := i + 1;
      }
      ok := true;
    }

    ghost predicate Moved(before: seq<Block>, event: Option<BlockEvent>, b: Block)
      reads this`blocks
    {
      MovedTo(provider, max, before, event, b, blocks)
    }

    /** Every synced filter's store agrees with its chain, and its chain with the window. */
    ghost predicate InSync()
      reads this`blocks, this`filters, filters
    {
      forall i :: 0 <= i < |filters| && filters[i].synced ==>
        filters[i].Agrees(provider) && Aligned(filters[i].chain, blocks)
    }

    /** The logs of every block that has to be added are available to every synced filter. */
    ghost predicate Supplied(window: seq<Block>, b: Block)
      reads this`filters, filters
    {
      InWindow(window, b.hash)
      || forall n, i :: 0 <= n && 0 <= i < |filters| && filters[i].synced && Attaches(provider, window, b, n) ==>
           LogsUpTo(provider, filters[i].config, b, n)
    }

    /** A step with this block will succeed. */
    ghost predicate Ready(b: Block)
      reads this`blocks, this`filters, filters
    {
      Attachable(provider, blocks, max, b) && Supplied(blocks, b)
    }

    ghost predicate Separate()
      reads this`filters
    {
      forall i, j :: 0 <= i < j < |filters| ==> filters[i] != filters[j]
    }

    /**
     * One step. When it succeeds every synced filter is in sync again: its chain lost the removed blocks and gained the
     * added ones, and it was sent the one event that turns its old logs into its new ones. A failed step still leaves
     * a linked and short window.
     */
    method HandleReconcile(b: Block) returns (r: Result<Option<BlockEvent>, Error>)
      requires Valid() && InSync() && Separate() && Tree(provider) && Known(provider, b)
      modifies this`blocks, filters
      ensures Valid() && filters == old(filters) && forall i :: 0 <= i < |filters| ==> filters[i].synced == old(filters[i].synced)
      ensures old(AllKnown(provider, blocks)) ==> AllKnown(provider, blocks) && (r.Ok? <==> old(Ready(b)))
      ensures r.Ok? ==> InSync() && Moved(old(blocks), r.value, b)
      ensures r.Ok? ==> forall i :: 0 <= i < |old(filters)| ==> Updated(old(filters)[i], r.value)
    {
      hide Linked, Reconcile, LastN, Aligned, Tree, Filter.Agrees, Known, Faithful, AllKnown;
      hide Attachable, Moved, LogsAvailable, Supplied, Up, InWindow;
      ghost var before := blocks;
      var event, _ := HandleBlockEvent(b);
      if event.Err? {
        return Err(event.error);
      }
      r := event;
      if event.value.None? {
        StayedPut(before, b);
        return;
      }
      var e := event.value.value;
      SuppliedExactly(before, e, b);
      var error := UpdateFilters(e, before, b);
      if error.Some? {
        r := Err(error.value);
      }
    }

    /** Every synced filter follows an event of the window, until one cannot. */
    method UpdateFilters(e: BlockEvent, ghost before: seq<Block>, ghost b: Block) returns (error: Option<Error>)
      requires Valid() && Separate() && Linked(before) && Tree(provider) && Known(provider, b) && Moved(before, Some(e), b)
      requires forall i :: 0 <= i < |filters| && filters[i].synced ==>
                 filters[i].Agrees(provider) && Aligned(filters[i].chain, before)
      modifies filters
      ensures forall i :: 0 <= i < |filters| ==> filters[i].synced == old(filters[i].synced)
      ensures error.None? <==>
              forall i :: 0 <= i < |filters| && filters[i].synced ==> LogsAvailable(provider, filters[i].config, e.added)
      ensures error.None? ==> InSync() && forall i :: 0 <= i < |filters| ==> Updated(filters[i], Some(e))
    {
      hide Linked, LastN, Aligned, Tree, Filter.Agrees, Known, Faithful, Moved, LogsAvailable;
      var i := 0;
      while i < |filters|
        invariant 0 <= i <= |filters|
        invariant forall j :: 0 <= j < |filters| ==> filters[j].synced == old(filters[j].synced)
        invariant forall j :: 0 <= j < i && filters[j].synced ==> LogsAvailable(provider, filters[j].config, e.added)
        invariant forall j :: 0 <= j < i ==> Updated(filters[j], Some(e))
        invariant forall j :: 0 <= j < i && filters[j].synced ==>
                    filters[j].Agrees(provider) && Aligned(filters[j].chain, blocks)
        invariant forall j :: i <= j < |filters| ==> unchanged(filters[j])
      {
        var f := filters[i];
        if f.synced {
          error := UpdateFilter(f, e, before, b);
          if error.Some? {
            return;
          }
        }
        i := i + 1;
      }
      error := None;
    }

    /** The filters' logs are there exactly when they are there for every added block. */
    lemma SuppliedExactly(before: seq<Block>, e: BlockEvent, b: Block)
      requires Moved(before, Some(e), b)
      ensures Supplied(before, b) <==>
              forall i :: 0 <= i < |filters| && filters[i].synced ==> LogsAvailable(provider, filters[i].config, e.added)
    {
      hide Up, LogsUpTo, LogsAvailable, HashLinked, LastN;
      var n := |e.added| - 1;
      AddedAttach(provider, before, b, e.added);
      forall m, i | 0 <= m && 0 <= i < |filters| && filters[i].synced && Attaches(provider, before, b, m)
        ensures m == n && (LogsUpTo(provider, filters[i].config, b, m) <==> LogsAvailable(provider, filters[i].config, e.added))
      {
        AttachesOnce(provider, before, b, m, n);
        AvailableUpTo(provider, filters[i].config, b, e.added);
      }
    }

    lemma StayedPut(before: seq<Block>, b: Block)
      requires Moved(before, None, b)
      ensures blocks == before && Supplied(before, b)
    {
    }

    /** What following an event does to the chain and the logs of a filter. */
    lemma FilterStep(config: nat, chain: seq<Block>, before: seq<Block>, e: BlockEvent, b: Block)
      requires Valid() && Linked(before) && Tree(provider) && Known(provider, b) && Moved(before, Some(e), b)
      requires Linked(chain) && AllKnown(provider, chain) && Aligned(chain, before)
      ensures var chain' := Trim(chain, |e.removed|) + e.added;
              var logs := LogsOf(provider, config, chain);
              && e.added != [] && Linked(chain') && AllKnown(provider, chain') && Aligned(chain', blocks)
              && logs[..KeptOf(logs, e.removed)] + LogsOf(provider, config, e.added) == LogsOf(provider, config, chain')
    {
      hide Linked, IndexOf, HashLinked, LastN, LogsOf, Aligned, Tree, Trim, KeptOf;
      assert AllKnown(provider, e.added);
      StoreStep(provider, config, chain, before, e.removed, e.added, max);
    }

    /** A synced filter follows an event of the window. */
    method UpdateFilter(f: Filter, e: BlockEvent, ghost before: seq<Block>, ghost b: Block) returns (error: Option<Error>)
      requires Valid() && Linked(before) && Tree(provider) && Known(provider, b) && Moved(before, Some(e), b)
      requires f.synced && f.Agrees(provider) && Aligned(f.chain, before)
      modifies f
      ensures error.None? ==> Updated(f, Some(e)) && f.synced && f.Agrees(provider) && Aligned(f.chain, blocks)
      ensures error.None? <==> LogsAvailable(provider, f.config, e.added)
      ensures f.synced == old(f.synced)
    {
      hide Linked, IndexOf, HashLinked, LastN, LogsOf, Aligned, Tree, Trim, Moved, AllKnown, KeptOf, Valid, LogsAvailable;
      FilterStep(f.config, f.chain, before, e, b);
      var evnt := DoFilter(provider, f, e.added, e.removed);
      if evnt.Err? {
        return Some(evnt.error);
      }
      f.chain := Trim(f.chain, |e.removed|) + e.added;
      f.events := f.events + [evnt.value];
      ghost var k := KeptOf(old(f.logs), e.removed);
      assert old(f.logs) == old(f.logs)[..k] + evnt.value.removed;
      error := None;
    }

    /** What a step does to one filter. */
    twostate predicate Updated(f: Filter, new event: Option<BlockEvent>)
      reads f
    {
      if !f.synced || event.None? then unchanged(f)
      else
        && f.synced == old(f.synced)
        && event.value.added != [] && f.last == Some(event.value.added[|event.value.added| - 1])
        && f.chain == Trim(old(f.chain), |event.value.removed|) + event.value.added
        && |f.events| == |old(f.events)| + 1 && f.events[..|old(f.events)|] == old(f.events)
        && Replays(f.events[|f.events| - 1], old(f.logs), f.logs)
    }

    /**
     * A run of steps. It passes through the windows that the steps describe, and stops before the end only at a block that
     * does not attach to the window it meets or whose logs are not available. The stores stay in sync up to there.
     */
    method Run(bs: seq<Block>) returns (done: nat, ghost windows: seq<seq<Block>>)
      requires Valid() && InSync() && Separate() && Tree(provider) && AllKnown(provider, bs) && AllKnown(provider, blocks)
      modifies this`blocks, filters
      ensures Valid() && filters == old(filters) && done <= |bs| && AllKnown(provider, blocks)
      ensures |windows| == done + 1 && windows[0] == old(blocks)
      ensures forall k :: 0 <= k < done ==> Stepped(windows[k], bs[k], windows[k + 1]) && old(Supplied(windows[k], bs[k]))
      ensures done < |bs| ==> !(Attachable(provider, windows[done], max, bs[done]) && old(Supplied(windows[done], bs[done])))
      ensures done == |bs| ==> InSync() && blocks == windows[done] && (bs != [] ==> InWindow(blocks, bs[|bs| - 1].hash))
    {
      hide Linked, Tree, LastN, Aligned, LogsOf, MovedTo, Attachable;
      done, windows := 0, [blocks];
      while done < |bs|
        invariant 0 <= done <= |bs| && filters == old(filters) && Valid() && InSync() && AllKnown(provider, blocks)
        invariant |windows| == done + 1 && windows[0] == old(blocks) && windows[done] == blocks
        invariant forall k :: 0 <= k < done ==> Stepped(windows[k], bs[k], windows[k + 1]) && old(Supplied(windows[k], bs[k]))
        invariant forall i :: 0 <= i < |filters| ==> filters[i].synced == old(filters[i].synced)
        invariant done > 0 ==> InWindow(blocks, bs[done - 1].hash)
      {
        ghost var before := blocks;
        ghost var ready := Ready(bs[done]);
        var r := HandleReconcile(bs[done]);
        if r.Err? {
          return;
        }
        HeadInWindow(before, r.value, bs[done]);
        windows := windows + [blocks];
        done := done + 1;
      }
    }

    /** A window and the one a step leads to. */
    ghost predicate Stepped(before: seq<Block>, b: Block, after: seq<Block>)
    {
      Attachable(provider, before, max, b) && exists event :: MovedTo(provider, max, before, event, b, after)
    }

    lemma HeadInWindow(before: seq<Block>, event: Option<BlockEvent>, b: Block)
      requires max > 0 && Moved(before, event, b)
      ensures InWindow(blocks, b.hash)
    {
      if event.Some? {
        assert blocks[|blocks| - 1] == b;
      }
    }
  }

  /** Applying the removed and then the added logs of an event to the old list gives the new one. */
  ghost predicate Replays(e: Event, before: seq<Log>, after: seq<Log>)
  {
    exists k :: 0 <= k <= |before| && before == before[..k] + e.removed && after == before[..k] + e.added
  }

  /** The store after a step is the logs of the chain after it. */
  lemma StoreStep(p: Provider, f: nat, chain: seq<Block>, window: seq<Block>, removed: seq<Block>, added: seq<Block>, max: nat)
    requires Tree(p) && Linked(chain) && AllKnown(p, chain) && Linked(window) && Aligned(chain, window)
    requires |removed| <= |window| && removed == window[|window| - |removed|..] && max > 0
    requires AllKnown(p, added) && HashLinked(added) && added != []
    requires var rest := window[..|window| - |removed|];
             if rest == [] then window == [] else added[0].parent == rest[|rest| - 1].hash
    ensures var chain' := Trim(chain, |removed|) + added;
            var logs := LogsOf(p, f, chain);
            && Linked(chain') && AllKnown(p, chain') && Aligned(chain', LastN(window[..|window| - |removed|] + added, max))
            && logs[..KeptOf(logs, removed)] + LogsOf(p, f, added) == LogsOf(p, f, chain')
  {
    hide Tree, Linked, LogsOf, Kept, LastN, HashLinked;
    var n := |removed|;
    ChainStep(p, chain, window, |window| - n, added, max);
    var base := Trim(chain, n);
    LogsOfConcat(p, f, base, added);
    var logs := LogsOf(p, f, chain);
    if n == 0 {
      assert base == chain && logs[..|logs|] == logs;
    } else if n <= |chain| {
      var j := |chain| - n;
      assert removed[0] == chain[j];
      Rewind(p, f, chain, j);
      assert base == chain[..j];
    } else {
      if chain != [] {
        var first := |window| - |chain|;
        assert chain[0] == window[first] && removed[0] == window[|window| - n];
        NumbersGrow(window, |window| - n, first);
      }
      RewindAll(p, f, chain, removed[0].number, removed[0].hash);
      NoLogs(p, f);
    }
  }

  lemma NoLogs(p: Provider, f: nat)
    ensures LogsOf(p, f, []) == []
  {
  }

  lemma LinkedPrefix(bs: seq<Block>, n: nat)
    requires Linked(bs) && n <= |bs|
    ensures Linked(bs[..n])
  {
  }

  ghost function Extend(front: seq<Block>, rest: Result<seq<Block>, Error>): Result<seq<Block>, Error>
  {
    if rest.Err? then rest else Ok(front + rest.value)
  }

  lemma ExtendStep(front: seq<Block>, b: Block, rest: Result<seq<Block>, Error>)
    ensures Extend(front, if rest.Err? then rest else Ok([b] + rest.value)) == Extend(front + [b], rest)
  {
    if rest.Ok? {
      assert front + ([b] + rest.value) == front + [b] + rest.value;
    }
  }
}
