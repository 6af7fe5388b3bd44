/** Starting and catching up: the first window, the common ancestor after a reorganisation, and batches of old logs. */
module TrackerSync {
  import opened Basics
  import opened Results
  import opened TrackerModel
  import opened TrackerMachine

  // ----- the first window -----

  /** The last blocks up to the latest one, filled in from the end of a buffer; fewer when the chain is shorter. */
  method PopulateBlocks(p: Provider, latest: Block, max: nat) returns (r: Result<seq<Block>, Error>)
    requires max > 0 && Faithful(p)
    ensures r.Ok? && latest.number == 0 ==> r.value == []
    ensures r.Ok? && latest.number != 0 ==>
              var bs := r.value;
              && 0 < |bs| <= max && bs[|bs| - 1] == latest && HashLinked(bs)
              && (|bs| == max || bs[0].number == 0)
              && forall i :: 0 <= i < |bs| ==> Up(p, latest, |bs| - 1 - i) == Some(bs[i])
    ensures r.Err? ==> exists i :: 0 <= i < max && Up(p, latest, i).Some? && Up(p, latest, i + 1).None?
  {
    hide Up, HashLinked, Faithful;
    if latest.number == 0 {
      return Ok([]);
    }
    var blocks := new Block[max](_ => latest);
    var block := latest;
    UpZero(p, latest);
    var i := 0;
    while i < max
      invariant 0 <= i <= max && Up(p, latest, i) == Some(block)
      invariant forall k :: 0 <= k < i ==> Up(p, latest, k) == Some(blocks[max - 1 - k])
    {
      blocks[max - i - 1] := block;
      if block.number == 0 {
        break;
      }
      UpStep(p, latest, i);
      if block.parent !in p.blocks {
        return Err(ParentNotFound);
      }
      block := p.blocks[block.parent];
      i := i + 1;
    }
    var from := if i != max then max - i - 1 else 0;
    var bs := blocks[from..];
    forall k | 0 <= k < |bs| ensures Up(p, latest, |bs| - 1 - k) == Some(bs[k]) {
      var m := |bs| - 1 - k;
      assert bs[k] == blocks[from + k] == blocks[max - 1 - m];
    }
    UpLinked(p, latest, bs);
    assert i != max ==> bs[0] == block;
    r := Ok(bs);
  }

  /** Successive ancestors are linked. */
  lemma UpLinked(p: Provider, b: Block, bs: seq<Block>)
    requires Faithful(p) && forall i :: 0 <= i < |bs| ==> Up(p, b, |bs| - 1 - i) == Some(bs[i])
    ensures HashLinked(bs)
    ensures bs != [] ==> bs[|bs| - 1] == b
  {
    if bs != [] {
      assert Up(p, b, |bs| - 1 - (|bs| - 1)) == Some(bs[|bs| - 1]);
    }
    forall i | 0 < i < |bs| ensures bs[i].parent == bs[i - 1].hash {
      assert Up(p, b, |bs| - 1 - i) == Some(bs[i]);
      assert Up(p, b, |bs| - 1 - (i - 1)) == Some(bs[i - 1]);
    }
  }

  // ----- the common ancestor -----

  /** Both blocks have an ancestor i generations up, of the same number. */
  predicate Level(p: Provider, a: Block, b: Block, i: nat)
  {
    Up(p, a, i).Some? && Up(p, b, i).Some? && Up(p, a, i).value.number == Up(p, b, i).value.number
  }

  predicate Apart(p: Provider, a: Block, b: Block, i: nat)
  {
    Level(p, a, b, i) && Up(p, a, i).value.hash != Up(p, b, i).value.hash
  }

  /** i generations up the two blocks meet, and not before. */
  predicate Meet(p: Provider, a: Block, b: Block, i: nat)
  {
    && Level(p, a, b, i) && Up(p, a, i).value.hash == Up(p, b, i).value.hash
    && (forall k :: 0 <= k < i ==> Apart(p, a, b, k))
  }

  /** Climbs from both blocks in step; finds the nearest common ancestor exactly when it is less than `max` generations up. */
  method FindAncestor(p: Provider, a: Block, b: Block, max: nat) returns (r: Result<nat, Error>)
    ensures r.Ok? <==> exists i :: 0 <= i < max && Meet(p, a, b, i)
    ensures r.Ok? ==> exists i :: 0 <= i < max && Meet(p, a, b, i) && Up(p, a, i).value.number == r.value
  {
    hide Up;
    var block, pivot := a, b;
    UpZero(p, a);
    UpZero(p, b);
    var i := 0;
    while i < max
      invariant 0 <= i <= max
      invariant Up(p, a, i) == Some(block) && Up(p, b, i) == Some(pivot)
      invariant forall k :: 0 <= k < i ==> Apart(p, a, b, k)
    {
      if block.number != pivot.number {
        assert !Level(p, a, b, i);
        NoMeeting(p, a, b, i, max);
        return Err(NumbersDoNotMatch);
      }
      if block.hash == pivot.hash {
        assert Meet(p, a, b, i);
        return Ok(block.number);
      }
      UpStep(p, a, i);
      UpStep(p, b, i);
      if block.parent !in p.blocks || pivot.parent !in p.blocks {
        assert Apart(p, a, b, i) && !Level(p, a, b, i + 1);
        NoMeeting(p, a, b, i + 1, max);
        return Err(ParentNotFound);
      }
      block, pivot := p.blocks[block.parent], p.blocks[pivot.parent];
      i := i + 1;
    }
    forall m | 0 <= m < max ensures !Meet(p, a, b, m) {
      assert Apart(p, a, b, m);
    }
    r := Err(TooDeep);
  }

  /** Apart up to a level that one of the two does not reach, they never meet. */
  lemma NoMeeting(p: Provider, a: Block, b: Block, i: nat, max: nat)
    requires (forall k :: 0 <= k < i ==> Apart(p, a, b, k)) && !Level(p, a, b, i)
    ensures forall m :: 0 <= m < max ==> !Meet(p, a, b, m)
  {
    hide Up, Level;
    forall m | 0 <= m < max ensures !Meet(p, a, b, m) {
      assert m < i ==> Apart(p, a, b, m);
      assert Meet(p, a, b, m) && m > i ==> Apart(p, a, b, i);
    }
  }

  // ----- batches -----

  /** An answer to a query for the logs of a range of block numbers. */
  datatype Answer = Logs(logs: seq<Log>) | TooMuch | Failed

  /** The logs of the blocks numbered from..until of the chain, both included. */
  function RangeLogs(chain: nat -> seq<Log>, from: nat, until: nat): seq<Log>
    decreases until
  {
    if until < from then [] else (if until == 0 then [] else RangeLogs(chain, from, until - 1)) + chain(until)
  }

  lemma RangeStep(chain: nat -> seq<Log>, from: nat, until: nat)
    requires from <= until
    ensures RangeLogs(chain, from, until) == (if until == 0 then [] else RangeLogs(chain, from, until - 1)) + chain(until)
  {
  }

  lemma RangeNone(chain: nat -> seq<Log>, from: nat, until: nat)
    requires until < from
    ensures RangeLogs(chain, from, until) == []
  {
  }

  lemma {:induction false} RangesJoin(chain: nat -> seq<Log>, a: nat, b: nat, c: nat)
    requires a <= b + 1 && b <= c
    ensures RangeLogs(chain, a, b) + RangeLogs(chain, b + 1, c) == RangeLogs(chain, a, c)
    decreases c
  {
    hide RangeLogs;
    if b == c {
      RangeNone(chain, b + 1, c);
    } else {
      RangesJoin(chain, a, b, c - 1);
      RangeStep(chain, a, c);
      RangeStep(chain, b + 1, c);
      var x, y := RangeLogs(chain, a, b), RangeLogs(chain, b + 1, c - 1);
      assert x + (y + chain(c)) == x + y + chain(c);
    }
  }

  /** What the node answers while catching up: logs of ranges and blocks by number. */
  datatype Archive = Archive(query: (nat, nat) -> Answer, byNumber: nat -> Option<Block>)

  /** Answers about blocks of the range tell the truth. */
  ghost predicate Honest(chain: nat -> seq<Log>, archive: Archive, from: nat, until: nat)
  {
    forall a: nat, b: nat :: from <= a <= b <= until && archive.query(a, b).Logs? ==>
      archive.query(a, b).logs == RangeLogs(chain, a, b)
  }

  // ----- when batches end -----

  /** Where the batches are: the next block and the size of the next batch, or the end. */
  datatype Cursor = At(i: nat, size: nat) | Stopped(ok: bool)

  /** One query and what follows from its answer. */
  function Advance(archive: Archive, batch: nat, until: nat, i: nat, size: nat): Cursor
  {
    var dst := Min(until, i + size);
    match archive.query(i, dst)
    case TooMuch => At(i, size / 2)
    case Failed => Stopped(false)
    case Logs(_) =>
      if archive.byNumber(dst).None? then Stopped(false)
      else if i + size + 1 > until then Stopped(true)
      else At(i + size + 1, if size < batch then Min(batch, size + batch / 10) else size)
  }

  /** The cursor after n queries. */
  function After(archive: Archive, batch: nat, from: nat, until: nat, n: nat): (c: Cursor)
    requires from <= until
    ensures c.At? ==> from <= c.i <= until
  {
    if n == 0 then At(from, batch)
    else
      var c := After(archive, batch, from, until, n - 1);
      if c.Stopped? then c else Advance(archive, batch, until, c.i, c.size)
  }

  /** The batch cannot get smaller, and the logs of its one block are too much for an answer. */
  predicate Stuck(archive: Archive, c: Cursor) { c.At? && c.size == 0 && archive.query(c.i, c.i).TooMuch? }

  /** A stuck cursor repeats its query for ever. */
  lemma {:induction false} StuckForEver(archive: Archive, batch: nat, from: nat, until: nat, n: nat, m: nat)
    requires from <= until && n <= m && Stuck(archive, After(archive, batch, from, until, n))
    ensures After(archive, batch, from, until, m) == After(archive, batch, from, until, n)
    decreases m
  {
    if n < m {
      StuckForEver(archive, batch, from, until, n, m - 1);
    }
  }

  lemma {:induction false} StoppedStays(archive: Archive, batch: nat, from: nat, until: nat, n: nat, m: nat)
    requires from <= until && n <= m && After(archive, batch, from, until, n).Stopped?
    ensures After(archive, batch, from, until, m) == After(archive, batch, from, until, n)
    decreases m
  {
    if n < m {
      StoppedStays(archive, batch, from, until, n, m - 1);
    }
  }

  ghost predicate Unstuck(archive: Archive, batch: nat, from: nat, until: nat)
    requires from <= until
  {
    forall n: nat :: !Stuck(archive, After(archive, batch, from, until, n))
  }

  /** Every query of an unstuck cursor reaches further blocks or makes the batch smaller. */
  lemma {:induction false} StopsFrom(archive: Archive, batch: nat, from: nat, until: nat, n: nat) returns (m: nat)
    requires from <= until && Unstuck(archive, batch, from, until)
    ensures After(archive, batch, from, until, m).Stopped?
    decreases match After(archive, batch, from, until, n) case At(i, size) => until + 1 - i case _ => 0,
              match After(archive, batch, from, until, n) case At(i, size) => size case _ => 0
  {
    var c := After(archive, batch, from, until, n);
    if c.Stopped? {
      m := n;
    } else {
      assert !Stuck(archive, c);
      m := StopsFrom(archive, batch, from, until, n + 1);
    }
  }

  /** The batches end if and only if they never come to a block whose logs alone are too much, with batches of that one block. */
  lemma EndsExactly(archive: Archive, batch: nat, from: nat, until: nat)
    requires from <= until
    ensures (exists n: nat :: After(archive, batch, from, until, n).Stopped?) <==> Unstuck(archive, batch, from, until)
  {
    hide After, Stuck;
    if Unstuck(archive, batch, from, until) {
      var m := StopsFrom(archive, batch, from, until, 0);
    } else {
      var n: nat :| Stuck(archive, After(archive, batch, from, until, n));
      StuckNotStopped(archive, After(archive, batch, from, until, n));
      forall m: nat ensures !After(archive, batch, from, until, m).Stopped? {
        if m >= n {
          StuckForEver(archive, batch, from, until, n, m);
        } else if After(archive, batch, from, until, m).Stopped? {
          StoppedStays(archive, batch, from, until, m, n);
        }
      }
    }
  }

  lemma StuckNotStopped(archive: Archive, c: Cursor)
    requires Stuck(archive, c)
    ensures !c.Stopped?
  {
  }

  /** A node that answers every query of the range, unless too large, and refuses whatever contains a refused block. */
  ghost predicate Steady(archive: Archive, from: nat, until: nat)
  {
    && (forall a: nat, b: nat :: from <= a <= b <= until ==> !archive.query(a, b).Failed?)
    && (forall a: nat :: from <= a <= until ==> archive.byNumber(a).Some?)
    && (forall a: nat, c: nat, b: nat {:trigger archive.query(a, b), archive.query(c, c)} ::
         from <= a <= c <= b <= until && archive.query(c, c).TooMuch? ==> archive.query(a, b).TooMuch?)
  }

  /** A block that is too much is never passed. */
  lemma {:induction false} NeverPassed(archive: Archive, batch: nat, from: nat, until: nat, c: nat, n: nat)
    requires from <= c <= until && Steady(archive, from, until) && archive.query(c, c).TooMuch?
    ensures var k := After(archive, batch, from, until, n); k.At? && k.i <= c
  {
    if n > 0 {
      NeverPassed(archive, batch, from, until, c, n - 1);
    }
  }

  /** Such a node never makes the batches fail. */
  lemma {:induction false} SteadyNeverFails(archive: Archive, batch: nat, from: nat, until: nat, n: nat)
    requires from <= until && Steady(archive, from, until)
    ensures After(archive, batch, from, until, n) != Stopped(false)
  {
    if n > 0 {
      SteadyNeverFails(archive, batch, from, until, n - 1);
    }
  }

  /** No batch is larger than the configured size. */
  lemma {:induction false} BatchBounded(archive: Archive, batch: nat, from: nat, until: nat, n: nat)
    requires from <= until
    ensures var c := After(archive, batch, from, until, n); c.At? ==> c.size <= batch
  {
    if n > 0 {
      BatchBounded(archive, batch, from, until, n - 1);
    }
  }

  /** With such a node the batches end if and only if no block of the range is too much on its own. */
  lemma SteadyEndsExactly(archive: Archive, batch: nat, from: nat, until: nat)
    requires from <= until && Steady(archive, from, until)
    ensures (exists n: nat :: After(archive, batch, from, until, n).Stopped?) <==>
            (forall a: nat {:trigger archive.query(a, a)} :: from <= a <= until ==> !archive.query(a, a).TooMuch?)
  {
    EndsExactly(archive, batch, from, until);
    if c: nat :| from <= c <= until && archive.query(c, c).TooMuch? {
      forall n: nat ensures !After(archive, batch, from, until, n).Stopped? {
        NeverPassed(archive, batch, from, until, c, n);
      }
    }
  }

  /** A node that refuses every range with block 5 in it. */
  const RefusesFive: Archive :=
    Archive((a: nat, b: nat) => if a <= 5 <= b then TooMuch else Logs([]), (n: nat) => Some(Block(n + 1, n, n)))

  /** Catching up from block 0 to block 9 with it never ends. */
  lemma NeverCatchesUp(batch: nat, n: nat)
    ensures After(RefusesFive, batch, 0, 9, n).At?
  {
    NeverPassed(RefusesFive, batch, 0, 9, 5, n);
  }

  lemma CursorStart(archive: Archive, batch: nat, from: nat, until: nat)
    requires from <= until
    ensures After(archive, batch, from, until, 0) == At(from, batch)
  {
  }

  lemma NextCursor(archive: Archive, batch: nat, from: nat, until: nat, n: nat)
    requires from <= until && Unstuck(archive, batch, from, until) && After(archive, batch, from, until, n).At?
    ensures var c := After(archive, batch, from, until, n);
            && After(archive, batch, from, until, n + 1) == Advance(archive, batch, until, c.i, c.size)
            && !(c.size == 0 && archive.query(c.i, c.i).TooMuch?)
  {
    hide Advance;
    assert !Stuck(archive, After(archive, batch, from, until, n));
  }

  lemma Truthful(chain: nat -> seq<Log>, archive: Archive, from: nat, until: nat, a: nat, b: nat)
    requires Honest(chain, archive, from, until) && from <= a <= b <= until && archive.query(a, b).Logs?
    ensures archive.query(a, b).logs == RangeLogs(chain, a, b)
  {
  }

  // ----- the batches as they run -----

  /**
   * Catches up in batches whose size adapts: halved when an answer would be too large, grown again after a success.
   * However the sizes went, on success each block of the range contributed its logs exactly once and in order.
   * It requires no more than that the batches end.
   */
  method SyncBatch(filter: Filter, archive: Archive, batch: nat, from: nat, until: nat, ghost chain: nat -> seq<Log>)
    returns (ok: bool)
    requires from <= until && Honest(chain, archive, from, until)
    requires exists n: nat :: After(archive, batch, from, until, n).Stopped?
    modifies filter`logs, filter`last, filter`events
    ensures exists n: nat :: After(archive, batch, from, until, n) == Stopped(ok)
    ensures ok ==> filter.logs == old(filter.logs) + RangeLogs(chain, from, until)
    ensures ok ==> archive.byNumber(until).Some? && filter.last == archive.byNumber(until)
    ensures !ok ==> exists i :: from <= i <= until + 1 && filter.logs == old(filter.logs) + RangeBefore(chain, from, i)
    ensures old(filter.events) <= filter.events
    ensures Announced(filter.events[|old(filter.events)|..], old(filter.logs), filter.logs)
  {
    hide RangeLogs, RangeBefore, After, Unstuck, Honest, Announced;
    ghost var sent: seq<Event> := [];
    NothingAnnounced(filter.logs);
    EndsExactly(archive, batch, from, until);
    CursorStart(archive, batch, from, until);
    var size: nat, factor: nat := batch, batch / 10;
    var i := from;
    ghost var n := 0;
    RangeEmpty(chain, from);
    assert filter.logs == filter.logs + RangeBefore(chain, from, from);
    while true
      invariant from <= i <= until && After(archive, batch, from, until, n) == At(i, size)
      invariant filter.logs == old(filter.logs) + RangeBefore(chain, from, i)
      invariant old(filter.events) <= filter.events && filter.events[|old(filter.events)|..] == sent
      invariant Announced(sent, old(filter.logs), filter.logs)
      decreases until - i, size
    {
      var dst: nat := if until < i + size then until else i + size;
      var answer := archive.query(i, dst);
      NextCursor(archive, batch, from, until, n);
      n := n + 1;
      if answer.TooMuch? {
        size := size / 2;
        continue;
      }
      if answer.Failed? {
        return false;
      }
      Truthful(chain, archive, from, until, i, dst);
      Append(chain, from, i, dst, old(filter.logs));
      AnnouncedMore(sent, old(filter.logs), filter.logs, answer.logs);
      filter.logs := filter.logs + answer.logs;
      sent := sent + [Event(answer.logs, [])];
      assert filter.logs == old(filter.logs) + RangeBefore(chain, from, dst + 1);
      filter.events := filter.events + [Event(answer.logs, [])];
      assert filter.events[|old(filter.events)|..] == sent;
      var block := archive.byNumber(dst);
      if block.None? {
        return false;
      }
      filter.last := block;
      i := i + size + 1;
      if size < batch {
        size := if batch < size + factor then batch else size + factor;
      }
      if i > until {
        return true;
      }
    }
  }

  /** The events add, one after the other, what the store gained, and take nothing back. */
  predicate Announced(events: seq<Event>, before: seq<Log>, after: seq<Log>)
    decreases |events|
  {
    if events == [] then after == before
    else
      var last := events[|events| - 1];
      && last.removed == [] && |last.added| <= |after| && after == after[..|after| - |last.added|] + last.added
      && Announced(events[..|events| - 1], before, after[..|after| - |last.added|])
  }

  lemma NothingAnnounced(logs: seq<Log>)
    ensures Announced([], logs, logs)
  {
  }

  lemma AnnouncedMore(events: seq<Event>, before: seq<Log>, logs: seq<Log>, more: seq<Log>)
    requires Announced(events, before, logs)
    ensures Announced(events + [Event(more, [])], before, logs + more)
  {
    assert (events + [Event(more, [])])[..|events|] == events;
    assert (logs + more)[..|logs|] == logs;
  }

  /** The logs of the blocks from `from` up to but without `i`. */
  function RangeBefore(chain: nat -> seq<Log>, from: nat, i: nat): seq<Log>
  {
    if i <= from then [] else RangeLogs(chain, from, i - 1)
  }

  lemma RangeEmpty(chain: nat -> seq<Log>, from: nat)
    ensures RangeBefore(chain, from, from) == []
  {
  }

  lemma Append(chain: nat -> seq<Log>, from: nat, i: nat, dst: nat, before: seq<Log>)
    requires from <= i <= dst
    ensures before + RangeBefore(chain, from, i) + RangeLogs(chain, i, dst) == before + RangeLogs(chain, from, dst)
    ensures RangeBefore(chain, from, dst + 1) == RangeLogs(chain, from, dst)
  {
    hide RangeLogs;
    if i > from {
      RangesJoin(chain, from, i - 1, dst);
    }
    assert before + RangeBefore(chain, from, i) + RangeLogs(chain, i, dst)
        == before + (RangeBefore(chain, from, i) + RangeLogs(chain, i, dst));
  }
}
