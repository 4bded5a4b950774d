/** The static `HTMLAudioTagPool` object of src/soundjs/htmlaudio/HTMLAudioTagPool.js:
    for each source, its tags (`_tags`) and their busy flags (`_tagUsed`), the
    shared free pool (`_tagPool`) and the count of tags handed to sources
    (`_audioTagCount`). */
module Registry {
  import opened Wrappers
  import opened TagPool
  import opened SlotList

  datatype State = State(tags: map<string, Tags>, used: map<string, Flags>, pool: Pool, tagCount: int)

  /** The state when the script is loaded. */
  const Init: State := State(map[], map[], TagPool.Empty, 0)

  /** `_tags[src]` or `_tagUsed[src]`, read as an empty array when the source has none. */
  function Lookup<V>(m: map<string, seq<V>>, src: string): seq<V> {
    if src in m then m[src] else []
  }

  /** The two arrays of every source exist together and have one length. */
  predicate Aligned(st: State) {
    && st.tags.Keys == st.used.Keys
    && forall src :: src in st.tags ==> |st.tags[src]| == |st.used[src]|
  }

  /** Every state the operations can reach from `Init`. */
  predicate Valid(st: State) {
    && Aligned(st)
    && TagPool.Valid(st.pool)
    && forall src :: src in st.tags ==> WellFormed(st.tags[src], st.used[src], st.pool.next)
  }

  lemma InitValid()
    ensures Valid(Init) && Init.tags == map[] && Init.pool.free == []
  {
  }

  // ---------------------------------------------------------------- get

  /** A tag handed out by `get`, the new state, and whether the quota-recovery
      listener was attached to the tag (Internet Explorer only). */
  datatype Acquired = Acquired(st: State, tag: Handle, watched: bool)

  /** `HTMLAudioTagPool.get(src)`: the lowest idle tag of the source, marked busy;
      failing that, a tag from the free pool, installed as the base slot (flag
      down) when the source has no slot, or appended busy as an overflow slot. */
  function Get(st: State, src: string, ie: bool): (r: Acquired)
    requires Aligned(st)
    ensures Aligned(r.st)
    ensures r.st.tags.Keys == st.tags.Keys + {src}
    ensures Some(r.tag) in r.st.tags[src]
    ensures forall k :: k in st.tags && k != src ==> r.st.tags[k] == st.tags[k] && r.st.used[k] == st.used[k]
    ensures st.tagCount <= r.st.tagCount <= st.tagCount + 1
    ensures r.watched ==> ie
  {
    var ts := Lookup(st.tags, src);
    var fs := Lookup(st.used, src);
    match FirstIdle(ts, fs)
    case Some(i) =>
      Acquired(st.(used := st.used[src := fs[i := true]]), ts[i].value, false)
    case None =>
      var taken := TagPool.Get(st.pool);
      var st' := st.(pool := taken.pool, tagCount := st.tagCount + 1);
      if |ts| == 0 then
        Acquired(st'.(tags := st.tags[src := [Some(taken.tag)]], used := st.used[src := [false]]), taken.tag, false)
      else
        Acquired(st'.(tags := st.tags[src := ts + [Some(taken.tag)]], used := st.used[src := fs + [true]]), taken.tag, ie)
  }

  /** `get` returns the lowest idle slot's tag and raises only that flag; the
      tags, the free pool and the count do not change. */
  lemma GetReuse(st: State, src: string, ie: bool, i: nat)
    requires Aligned(st) && src in st.tags
    requires IsIdle(st.tags[src], st.used[src], i)
    requires forall j :: 0 <= j < i ==> !IsIdle(st.tags[src], st.used[src], j)
    ensures var r := Get(st, src, ie);
            && st.tags[src][i] == Some(r.tag)
            && r.st.used == st.used[src := st.used[src][i := true]]
            && r.st.tags == st.tags && r.st.pool == st.pool && r.st.tagCount == st.tagCount
            && !r.watched
  {
  }

  /** When any slot of the source is idle, `get` hands out one of the idle tags
      and creates nothing. */
  lemma GetPrefersIdle(st: State, src: string, ie: bool, i: nat)
    requires Aligned(st) && src in st.tags
    requires IsIdle(st.tags[src], st.used[src], i)
    ensures var r := Get(st, src, ie);
            && r.st.tags == st.tags && r.st.pool == st.pool && r.st.tagCount == st.tagCount
            && exists j :: 0 <= j <= i && IsIdle(st.tags[src], st.used[src], j) && st.tags[src][j] == Some(r.tag)
  {
    var j := FirstIdle(st.tags[src], st.used[src]).value;
    GetReuse(st, src, ie, j);
  }

  /** The first `get` of a source takes one tag from the free pool (or creates
      one), counts it, and installs it as the base slot with its flag down, so
      an immediate second `get` returns the same tag. */
  lemma GetBase(st: State, src: string, ie: bool, ie2: bool)
    requires Aligned(st) && src !in st.tags
    ensures var r := Get(st, src, ie);
            && r.st.tags == st.tags[src := [Some(r.tag)]]
            && r.st.used == st.used[src := [false]]
            && r.st.tagCount == st.tagCount + 1
            && (|st.pool.free| > 0 ==> st.pool.free == r.st.pool.free + [r.tag])
            && (|st.pool.free| == 0 ==> r.st.pool.free == [] && st.pool.next <= r.tag)
            && !r.watched
            && Get(r.st, src, ie2).tag == r.tag
            && Get(r.st, src, ie2).st.used[src] == [true]
  {
    var r := Get(st, src, ie);
    assert src !in st.used;
    GetReuse(r.st, src, ie2, 0);
  }

  /** When every slot of a registered source is busy or deleted, `get` appends
      a tag from the free pool, busy, to both arrays and counts it. */
  lemma GetOverflow(st: State, src: string, ie: bool)
    requires Aligned(st) && src in st.tags && |st.tags[src]| > 0
    requires forall j :: 0 <= j < |st.tags[src]| ==> !IsIdle(st.tags[src], st.used[src], j)
    ensures var r := Get(st, src, ie);
            && r.st.tags == st.tags[src := st.tags[src] + [Some(r.tag)]]
            && r.st.used == st.used[src := st.used[src] + [true]]
            && |r.st.tags[src]| == |r.st.used[src]| == |st.tags[src]| + 1
            && r.st.tagCount == st.tagCount + 1
            && (|st.pool.free| > 0 ==> st.pool.free == r.st.pool.free + [r.tag])
            && (|st.pool.free| == 0 ==> r.st.pool.free == [] && st.pool.next <= r.tag)
            && r.watched == ie
  {
  }

  /** A tag `get` creates because the free pool is empty is bound to no slot of
      any source. */
  lemma GetFresh(st: State, src: string, ie: bool)
    requires Valid(st) && st.pool.free == []
    requires forall j :: 0 <= j < |Lookup(st.tags, src)| ==> !IsIdle(Lookup(st.tags, src), Lookup(st.used, src), j)
    ensures var r := Get(st, src, ie);
            forall k, j :: k in st.tags && 0 <= j < |st.tags[k]| ==> st.tags[k][j] != Some(r.tag)
  {
    var r := Get(st, src, ie);
    assert r.tag >= st.pool.next;
    forall k, j | k in st.tags && 0 <= j < |st.tags[k]|
      ensures st.tags[k][j] != Some(r.tag)
    {
      assert WellFormed(st.tags[k], st.used[k], st.pool.next);
    }
  }

  /** `get` keeps a valid state valid. */
  lemma GetPreservesValid(st: State, src: string, ie: bool)
    requires Valid(st)
    ensures Valid(Get(st, src, ie).st)
  {
    var r := Get(st, src, ie);
    TagPool.GetPreservesValid(st.pool);
    if src in st.tags {
      assert WellFormed(st.tags[src], st.used[src], st.pool.next);
    }
    GetKeepsSourceWellFormed(st, src, ie);
    forall k | k in r.st.tags
      ensures WellFormed(r.st.tags[k], r.st.used[k], r.st.pool.next)
    {
      if k != src {
        assert WellFormed(st.tags[k], st.used[k], st.pool.next);
      }
    }
  }

  /** The list `get` works on stays well-formed. */
  lemma GetKeepsSourceWellFormed(st: State, src: string, ie: bool)
    requires Aligned(st) && TagPool.Valid(st.pool)
    requires src in st.tags ==> WellFormed(st.tags[src], st.used[src], st.pool.next)
    ensures var r := Get(st, src, ie);
            st.pool.next <= r.st.pool.next && WellFormed(r.st.tags[src], r.st.used[src], r.st.pool.next)
  {
    var r := Get(st, src, ie);
    TagPool.GetPreservesValid(st.pool);
    var ts, fs := Lookup(st.tags, src), Lookup(st.used, src);
    var ts', fs' := r.st.tags[src], r.st.used[src];
    match FirstIdle(ts, fs)
    case Some(i) =>
      assert ts' == ts && fs' == fs[i := true];
      forall j | 0 <= j < |ts'|
        ensures (ts'[j].None? ==> !fs'[j]) && (ts'[j].Some? ==> ts'[j].value < r.st.pool.next)
      {
      }
    case None =>
      var t := TagPool.Get(st.pool).tag;
      assert t < r.st.pool.next && st.pool.next <= r.st.pool.next;
      if |ts| > 0 {
        assert ts' == ts + [Some(t)] && fs' == fs + [true];
        forall j | 0 <= j < |ts'|
          ensures (ts'[j].None? ==> !fs'[j]) && (ts'[j].Some? ==> ts'[j].value < r.st.pool.next)
        {
          if j < |ts| {
            assert ts'[j] == ts[j];
          }
        }
      }
  }

  // ---------------------------------------------------------------- set

  /** `set` on a source that has no arrays reads a property of `undefined`. */
  datatype Error = UnknownSource

  /** `HTMLAudioTagPool.set(src, tag)`: when the tag sits in the source's list,
      every slot holding it is marked idle; otherwise it is not the registry's,
      so it goes back to the free pool and the count drops. */
  function Release(st: State, src: string, tag: Handle): (r: Result<State, Error>)
    requires Aligned(st)
    ensures r.Failure? <==> src !in st.tags
    ensures r.Success? ==> Aligned(r.value) && r.value.tags == st.tags && r.value.used.Keys == st.used.Keys
    ensures r.Success? ==> forall k :: k in st.used && k != src ==> r.value.used[k] == st.used[k]
    ensures r.Success? && Some(tag) in st.tags[src] ==>
              && r.value.pool == st.pool && r.value.tagCount == st.tagCount
              && forall i :: 0 <= i < |st.used[src]| ==>
                   r.value.used[src][i] == (st.used[src][i] && st.tags[src][i] != Some(tag))
    ensures r.Success? && Some(tag) !in st.tags[src] ==>
              && r.value.used == st.used && r.value.tagCount == st.tagCount - 1
              && r.value.pool.next == st.pool.next
              && (forall x :: x in r.value.pool.free <==> x in st.pool.free || x == tag)
              && (tag in st.pool.free ==> r.value.pool == st.pool)
              && (tag !in st.pool.free ==> r.value.pool.free == st.pool.free + [tag])
  {
    if src !in st.tags then Failure(UnknownSource)
    else if Some(tag) in st.tags[src] then
      Success(st.(used := st.used[src := ClearMatching(st.tags[src], st.used[src], tag)]))
    else
      Success(st.(pool := TagPool.Set(st.pool, tag), tagCount := st.tagCount - 1))
  }

  /** `set` keeps a valid state valid, given a tag that was created before. */
  lemma ReleasePreservesValid(st: State, src: string, tag: Handle)
    requires Valid(st) && tag < st.pool.next
    ensures Release(st, src, tag).Success? ==> Valid(Release(st, src, tag).value)
  {
    if src in st.tags {
      var st' := Release(st, src, tag).value;
      if Some(tag) !in st.tags[src] {
        TagPool.SetPreservesValid(st.pool, tag);
      }
      forall k | k in st'.tags
        ensures WellFormed(st'.tags[k], st'.used[k], st'.pool.next)
      {
        assert WellFormed(st.tags[k], st.used[k], st.pool.next);
      }
    }
  }

  /** After a source's tag is returned with `set`, `get` on that source reuses a
      slot it already has: nothing is created, taken from the pool or counted;
      when no other slot is idle, it is the returned tag itself. */
  lemma ReleaseThenGetReuses(st: State, src: string, tag: Handle, ie: bool)
    requires Aligned(st) && src in st.tags && Some(tag) in st.tags[src]
    ensures var r := Get(Release(st, src, tag).value, src, ie);
            && r.st.tags == st.tags && r.st.pool == st.pool && r.st.tagCount == st.tagCount
            && Some(r.tag) in st.tags[src]
            && ((forall j :: 0 <= j < |st.tags[src]| && st.tags[src][j] != Some(tag) ==>
                   !IsIdle(st.tags[src], st.used[src], j)) ==> r.tag == tag)
  {
    var st1 := Release(st, src, tag).value;
    var ts := st.tags[src];
    var i :| 0 <= i < |ts| && ts[i] == Some(tag);
    assert IsIdle(st1.tags[src], st1.used[src], i);
    GetPrefersIdle(st1, src, ie, i);
    var r := Get(st1, src, ie);
    if forall j :: 0 <= j < |ts| && ts[j] != Some(tag) ==> !IsIdle(ts, st.used[src], j) {
      var j :| 0 <= j <= i && IsIdle(st1.tags[src], st1.used[src], j) && ts[j] == Some(r.tag);
      assert st1.used[src][j] == (st.used[src][j] && ts[j] != Some(tag));
      assert IsIdle(ts, st.used[src], j) ==> ts[j] == Some(tag);
    }
  }

  // ---------------------------------------------------------------- remove

  /** The free pool after `TagPool.set` on every tag of `ts`, in slot order;
      deleted slots hold no tag and are passed over. */
  function PoolAll(p: Pool, ts: Tags): (r: Pool)
    ensures r.next == p.next && p.free <= r.free
    ensures forall h :: h in r.free <==> h in p.free || Some(h) in ts
    decreases |ts|
  {
    if |ts| == 0 then p
    else
      assert forall h :: Some(h) in ts <==> ts[0] == Some(h) || Some(h) in ts[1..];
      PoolAll(if ts[0].Some? then TagPool.Set(p, ts[0].value) else p, ts[1..])
  }

  /** The tags are pooled one after another in slot order: pooling one more
      slot is one more `TagPool.set` on the result. */
  lemma {:induction false} PoolAllSnoc(p: Pool, ts: Tags, x: Option<Handle>)
    ensures PoolAll(p, ts + [x]) == if x.Some? then TagPool.Set(PoolAll(p, ts), x.value) else PoolAll(p, ts)
    decreases |ts|
  {
    if |ts| == 0 {
      assert ([] + [x])[1..] == [];
    } else {
      var p' := if ts[0].Some? then TagPool.Set(p, ts[0].value) else p;
      assert (ts + [x])[0] == ts[0] && (ts + [x])[1..] == ts[1..] + [x];
      PoolAllSnoc(p', ts[1..], x);
    }
  }

  /** Because the free list is last in, first out, the order matters: when the
      last slot's tag is new to the pool, it ends on top, and it is the next
      tag `TagPool.get` hands out. */
  lemma LastPooledIsNextOut(p: Pool, ts: Tags, h: Handle)
    requires |ts| > 0 && ts[|ts| - 1] == Some(h)
    requires h !in p.free && Some(h) !in ts[..|ts| - 1]
    ensures TagPool.Get(PoolAll(p, ts)).tag == h
    ensures TagPool.Get(PoolAll(p, ts)).pool == PoolAll(p, ts[..|ts| - 1])
  {
    var front := ts[..|ts| - 1];
    assert front + [Some(h)] == ts;
    PoolAllSnoc(p, front, Some(h));
    assert h !in PoolAll(p, front).free;
  }

  /** Pooling tags that were created before keeps the free pool valid. */
  lemma {:induction false} PoolAllPreservesValid(p: Pool, ts: Tags)
    requires TagPool.Valid(p)
    requires forall i :: 0 <= i < |ts| && ts[i].Some? ==> ts[i].value < p.next
    ensures TagPool.Valid(PoolAll(p, ts))
    decreases |ts|
  {
    if |ts| > 0 {
      var p' := if ts[0].Some? then TagPool.Set(p, ts[0].value) else p;
      if ts[0].Some? {
        TagPool.SetPreservesValid(p, ts[0].value);
      }
      assert forall i :: 0 <= i < |ts[1..]| ==> ts[1..][i] == ts[i + 1];
      PoolAllPreservesValid(p', ts[1..]);
    }
  }

  /** What `remove` returns: the new state and whether the source was known. */
  datatype Removal = Removal(st: State, removed: bool)

  /** `HTMLAudioTagPool.remove(src)`: for a known source every tag goes to the
      free pool and every slot is deleted, leaving both arrays as long as
      before; an unknown source is reported with `false`. */
  function Remove(st: State, src: string): (r: Removal)
    requires Aligned(st)
    ensures r.removed <==> src in st.tags
    ensures !r.removed ==> r.st == st
    ensures Aligned(r.st) && r.st.tags.Keys == st.tags.Keys
    ensures r.removed ==>
              && |r.st.tags[src]| == |st.tags[src]|
              && forall i :: 0 <= i < |st.tags[src]| ==> r.st.tags[src][i] == None && !r.st.used[src][i]
    ensures forall k :: k in st.tags && k != src ==> r.st.tags[k] == st.tags[k] && r.st.used[k] == st.used[k]
    ensures r.st.tagCount == st.tagCount && r.st.pool.next == st.pool.next
    ensures st.pool.free <= r.st.pool.free
    ensures r.removed ==> forall h :: h in r.st.pool.free <==> h in st.pool.free || Some(h) in st.tags[src]
  {
    if src !in st.tags then Removal(st, false)
    else
      var ts := st.tags[src];
      Removal(st.(tags := st.tags[src := Holes(|ts|)],
                  used := st.used[src := Downs(|ts|)],
                  pool := PoolAll(st.pool, ts)), true)
  }

  /** `remove` keeps a valid state valid. */
  lemma RemovePreservesValid(st: State, src: string)
    requires Valid(st)
    ensures Valid(Remove(st, src).st)
  {
    if src in st.tags {
      var st' := Remove(st, src).st;
      assert WellFormed(st.tags[src], st.used[src], st.pool.next);
      PoolAllPreservesValid(st.pool, st.tags[src]);
      forall k | k in st'.tags
        ensures WellFormed(st'.tags[k], st'.used[k], st'.pool.next)
      {
        assert WellFormed(st.tags[k], st.used[k], st.pool.next);
      }
    }
  }

  /** A second `remove` of the same source still answers `true` but pools
      nothing more. */
  lemma RemoveTwice(st: State, src: string)
    requires Aligned(st) && src in st.tags
    ensures var st1 := Remove(st, src).st;
            Remove(st1, src).removed && Remove(st1, src).st == st1
  {
    var st1 := Remove(st, src).st;
    var ts := st1.tags[src];
    assert forall h :: Some(h) !in ts;
    assert Remove(st1, src).st.pool.free == st1.pool.free by {
      PoolAllOfHoles(st1.pool, ts);
    }
    assert st1.tags[src := Holes(|ts|)] == st1.tags;
    assert st1.used[src := Downs(|ts|)] == st1.used;
  }

  /** Pooling a list of deleted slots leaves the pool as it is. */
  lemma {:induction false} PoolAllOfHoles(p: Pool, ts: Tags)
    requires forall i :: 0 <= i < |ts| ==> ts[i] == None
    ensures PoolAll(p, ts) == p
    decreases |ts|
  {
    if |ts| > 0 {
      PoolAllOfHoles(p, ts[1..]);
    }
  }

  /** Since `remove` leaves the arrays in place, a later `get` of the source
      does not start over at the base slot: it appends a busy overflow slot
      after the deleted ones and counts a tag. */
  lemma RemoveThenGetOverflows(st: State, src: string, ie: bool)
    requires Aligned(st) && src in st.tags && |st.tags[src]| > 0
    ensures var r := Get(Remove(st, src).st, src, ie);
            && r.st.tags[src] == Holes(|st.tags[src]|) + [Some(r.tag)]
            && r.st.used[src] == Downs(|st.tags[src]|) + [true]
            && r.st.tagCount == st.tagCount + 1
            && r.watched == ie
  {
    var st1 := Remove(st, src).st;
    GetOverflow(st1, src, ie);
  }

  // ---------------------------------------------------------------- quota recovery

  /** The media error code that makes `_handleMaximumInstances` reclaim tags. */
  const MaxInstancesError: int := 4

  /** `order` lists every registered source once: the keys a `for ... in` loop
      over `_tags` visits, in whatever order the engine chooses. */
  predicate Enumerates(order: seq<string>, st: State) {
    && Distinct(order)
    && (forall k :: k in order ==> k in st.tags)
    && (forall k :: k in st.tags ==> k in order)
  }

  /** The state after scanning some sources, the count of reclaimed tags, and
      whether the scan stopped early at the budget. */
  datatype Swept = Swept(st: State, removed: nat, stopped: bool)

  /** One turn of the outer loop of `_handleMaximumInstances`: a source with
      more than one slot is scanned from its last slot down to slot 1. */
  function SweepSource(st: State, src: string, removed: nat): (r: Swept)
    requires Aligned(st) && removed <= Budget && src in st.tags
    ensures Aligned(r.st) && r.st.tags.Keys == st.tags.Keys
    ensures r.st.pool == st.pool && r.st.tagCount == st.tagCount
    ensures removed <= r.removed <= Budget
    ensures r.stopped ==> r.removed >= Budget
    ensures |r.st.tags[src]| + r.removed == |st.tags[src]| + removed
    ensures |st.tags[src]| > 0 ==> |r.st.tags[src]| > 0 && r.st.tags[src][0] == st.tags[src][0]
    ensures forall k :: k in st.tags && k != src ==> r.st.tags[k] == st.tags[k] && r.st.used[k] == st.used[k]
    ensures forall k :: k in st.tags ==>
              && |r.st.tags[k]| <= |st.tags[k]|
              && (|st.tags[k]| > 0 ==> |r.st.tags[k]| > 0 && r.st.tags[k][0] == st.tags[k][0])
  {
    var ts := st.tags[src];
    if |ts| > 1 then
      var s := ScanDown(ts, st.used[src], |ts| - 1, removed);
      Swept(st.(tags := st.tags[src := s.tags], used := st.used[src := s.used]), s.removed, s.stopped)
    else Swept(st, removed, false)
  }

  /** The outer loop of `_handleMaximumInstances`: the sources in `order`, one
      after another, until the budget is spent. */
  function Sweep(st: State, order: seq<string>, removed: nat): (r: Swept)
    requires Aligned(st) && removed <= Budget
    requires forall k :: k in order ==> k in st.tags
    ensures Aligned(r.st) && r.st.tags.Keys == st.tags.Keys
    ensures r.st.pool == st.pool && r.st.tagCount == st.tagCount
    ensures removed <= r.removed <= Budget
    ensures r.stopped ==> r.removed >= Budget
    ensures forall k :: k in st.tags ==>
              && |r.st.tags[k]| <= |st.tags[k]|
              && (|st.tags[k]| > 0 ==> |r.st.tags[k]| > 0 && r.st.tags[k][0] == st.tags[k][0])
    ensures forall k :: k in st.tags && k !in order ==> r.st.tags[k] == st.tags[k] && r.st.used[k] == st.used[k]
    decreases |order|
  {
    if |order| == 0 then Swept(st, removed, false)
    else
      var w := SweepSource(st, order[0], removed);
      if w.stopped then w else Sweep(w.st, order[1..], w.removed)
  }

  /** The outcome of the recovery handler: the new state, how many tags it
      reclaimed, and whether it asked the failing tag to load again. */
  datatype Recovery = Recovery(st: State, removed: nat, reload: bool)

  /** `_handleMaximumInstances`, for an error event with media error `code`:
      on code 4 it reclaims up to four idle overflow tags over all sources,
      newest slot first within a source, and asks the failing tag to reload
      when it reclaimed any. Reclaimed tags are dropped: `set` still finds
      them in their list, so they reach neither the free pool nor the count. */
  function Recover(st: State, code: int, order: seq<string>): (r: Recovery)
    requires Aligned(st) && Enumerates(order, st)
    ensures code != MaxInstancesError ==> r == Recovery(st, 0, false)
    ensures r.removed <= Budget
    ensures r.reload <==> r.removed > 0
    ensures Aligned(r.st) && r.st.tags.Keys == st.tags.Keys
    ensures r.st.pool == st.pool && r.st.tagCount == st.tagCount
    ensures forall k :: k in st.tags ==>
              && |r.st.tags[k]| <= |st.tags[k]|
              && (|st.tags[k]| > 0 ==> |r.st.tags[k]| > 0 && r.st.tags[k][0] == st.tags[k][0])
  {
    if code != MaxInstancesError then Recovery(st, 0, false)
    else
      var w := Sweep(st, order, 0);
      Recovery(w.st, w.removed, w.stopped || w.removed != 0)
  }

  /** The scan's flag update is what `set` does with a tag it finds: nothing is
      pooled and the count is kept. */
  lemma ReclaimIsFoundBySet(st: State, src: string, i: nat)
    requires Aligned(st) && src in st.tags && IsIdle(st.tags[src], st.used[src], i)
    ensures Release(st, src, st.tags[src][i].value)
            == Success(st.(used := st.used[src := ClearMatching(st.tags[src], st.used[src], st.tags[src][i].value)]))
  {
  }

  /** The number of slots of the sources in `keys`. */
  function SlotTotal(tags: map<string, Tags>, keys: seq<string>): nat
    requires forall k :: k in keys ==> k in tags
    decreases |keys|
  {
    if |keys| == 0 then 0 else |tags[keys[0]]| + SlotTotal(tags, keys[1..])
  }

  /** Changing a source outside `keys` does not change their slot total. */
  lemma {:induction false} SlotTotalFrame(tags: map<string, Tags>, keys: seq<string>, src: string, x: Tags)
    requires forall k :: k in keys ==> k in tags
    requires src !in keys
    ensures SlotTotal(tags[src := x], keys) == SlotTotal(tags, keys)
    decreases |keys|
  {
    if |keys| > 0 {
      SlotTotalFrame(tags, keys[1..], src, x);
    }
  }

  /** Every reclaim removes exactly one slot from the sources swept. */
  lemma {:induction false} SweepSlotTotal(st: State, order: seq<string>, removed: nat)
    requires Aligned(st) && removed <= Budget && Distinct(order)
    requires forall k :: k in order ==> k in st.tags
    ensures var r := Sweep(st, order, removed);
            SlotTotal(r.st.tags, order) + r.removed == SlotTotal(st.tags, order) + removed
    decreases |order|
  {
    if |order| > 0 {
      var src, rest := order[0], order[1..];
      assert src !in rest && Distinct(rest) by {
        assert forall j :: 0 <= j < |rest| ==> rest[j] == order[j + 1];
      }
      var w := SweepSource(st, src, removed);
      SlotTotalFrame(st.tags, rest, src, w.st.tags[src]);
      assert st.tags[src := w.st.tags[src]] == w.st.tags;
      if !w.stopped {
        SweepSlotTotal(w.st, rest, w.removed);
      }
    }
  }

  /** The recovery pass removes exactly as many slots as it reports reclaimed. */
  lemma RecoverSlotTotal(st: State, code: int, order: seq<string>)
    requires Aligned(st) && Enumerates(order, st)
    ensures var r := Recover(st, code, order);
            SlotTotal(r.st.tags, order) + r.removed == SlotTotal(st.tags, order)
  {
    if code == MaxInstancesError {
      SweepSlotTotal(st, order, 0);
    }
  }

  /** When no source binds a tag twice, sweeping keeps every source's busy tags, in order. */
  lemma {:induction false} SweepKeepsBusy(st: State, order: seq<string>, removed: nat)
    requires Aligned(st) && removed <= Budget && Distinct(order)
    requires forall k :: k in order ==> k in st.tags && NoDup(st.tags[k])
    ensures var r := Sweep(st, order, removed);
            forall k :: k in st.tags ==> Busy(r.st.tags[k], r.st.used[k]) == Busy(st.tags[k], st.used[k])
    decreases |order|, 1
  {
    if |order| > 0 {
      var src := order[0];
      var w := SweepSource(st, src, removed);
      SweepSourceKeepsBusy(st, src, removed);
      if !w.stopped {
        SweepRestKeepsBusy(st, order, removed);
      }
    }
  }

  /** One turn of the sweep keeps the busy tags of every source. */
  lemma SweepSourceKeepsBusy(st: State, src: string, removed: nat)
    requires Aligned(st) && removed <= Budget && src in st.tags && NoDup(st.tags[src])
    ensures var w := SweepSource(st, src, removed);
            forall k :: k in st.tags ==> Busy(w.st.tags[k], w.st.used[k]) == Busy(st.tags[k], st.used[k])
  {
    var ts := st.tags[src];
    if |ts| > 1 {
      ScanKeepsBusy(ts, st.used[src], removed);
    }
  }

  /** `SweepKeepsBusy` for the sources after the first, once the first is swept. */
  lemma {:induction false} SweepRestKeepsBusy(st: State, order: seq<string>, removed: nat)
    requires Aligned(st) && removed <= Budget && Distinct(order) && |order| > 0
    requires forall k :: k in order ==> k in st.tags && NoDup(st.tags[k])
    requires !SweepSource(st, order[0], removed).stopped
    requires var w := SweepSource(st, order[0], removed);
             forall k :: k in st.tags ==> Busy(w.st.tags[k], w.st.used[k]) == Busy(st.tags[k], st.used[k])
    ensures var r := Sweep(st, order, removed);
            forall k :: k in st.tags ==> Busy(r.st.tags[k], r.st.used[k]) == Busy(st.tags[k], st.used[k])
    decreases |order|, 0
  {
    var src, rest := order[0], order[1..];
    assert src !in rest && Distinct(rest) by {
      assert forall j :: 0 <= j < |rest| ==> rest[j] == order[j + 1];
    }
    var w := SweepSource(st, src, removed);
    forall k | k in rest
      ensures k in w.st.tags && NoDup(w.st.tags[k])
    {
      assert k != src;
    }
    SweepKeepsBusy(w.st, rest, w.removed);
  }

  /** When no source binds a tag twice, recovery reclaims only idle slots: the
      busy tags of every source survive, in order. */
  lemma RecoverKeepsBusy(st: State, code: int, order: seq<string>)
    requires Aligned(st) && Enumerates(order, st)
    requires forall k :: k in st.tags ==> NoDup(st.tags[k])
    ensures var r := Recover(st, code, order);
            forall k :: k in st.tags ==> Busy(r.st.tags[k], r.st.used[k]) == Busy(st.tags[k], st.used[k])
  {
    if code == MaxInstancesError {
      SweepKeepsBusy(st, order, 0);
    }
  }

  /** One source's turn from a zero count reclaims nothing exactly when the
      source has no idle overflow slot, and then it changes nothing. */
  lemma SweepSourceReclaimsNothing(st: State, src: string)
    requires Aligned(st) && src in st.tags
    ensures var w := SweepSource(st, src, 0);
            && (w.removed == 0 <==> NoIdleOverflow(st.tags[src], st.used[src]))
            && (w.removed == 0 ==> w.st == st && !w.stopped)
  {
    var ts, fs := st.tags[src], st.used[src];
    if |ts| > 1 {
      ScanReclaimsNothing(ts, fs, |ts| - 1);
      if SweepSource(st, src, 0).removed == 0 {
        assert st.tags[src := ts] == st.tags && st.used[src := fs] == st.used;
      }
    }
  }

  /** Sweeping from a zero count reclaims nothing exactly when no source in
      `order` has an idle overflow slot, and then it changes nothing. */
  lemma {:induction false} SweepReclaimsNothing(st: State, order: seq<string>)
    requires Aligned(st)
    requires forall k :: k in order ==> k in st.tags
    ensures Sweep(st, order, 0).removed == 0 <==>
            forall k :: k in order ==> NoIdleOverflow(st.tags[k], st.used[k])
    ensures Sweep(st, order, 0).removed == 0 ==> Sweep(st, order, 0).st == st
    decreases |order|
  {
    if |order| > 0 {
      var src := order[0];
      SweepSourceReclaimsNothing(st, src);
      if SweepSource(st, src, 0).removed == 0 {
        SweepReclaimsNothing(st, order[1..]);
        assert forall k :: k in order ==> k == src || k in order[1..];
      }
    }
  }

  /** The "complete full" branch of the handler: on a quota error the pass
      reclaims nothing exactly when no source has an idle overflow slot, so
      whenever one exists a tag is reclaimed and the failing tag reloads. */
  lemma RecoverReclaimsWhenIdle(st: State, order: seq<string>)
    requires Aligned(st) && Enumerates(order, st)
    ensures var r := Recover(st, MaxInstancesError, order);
            && (r.removed == 0 <==> forall k :: k in st.tags ==> NoIdleOverflow(st.tags[k], st.used[k]))
            && (r.removed == 0 ==> r.st == st && !r.reload)
  {
    SweepReclaimsNothing(st, order);
  }

  /** Sweeping keeps a valid state valid. */
  lemma {:induction false} SweepPreservesValid(st: State, order: seq<string>, removed: nat)
    requires Valid(st) && removed <= Budget
    requires forall k :: k in order ==> k in st.tags
    ensures Valid(Sweep(st, order, removed).st)
    decreases |order|
  {
    if |order| > 0 {
      var src := order[0];
      var ts := st.tags[src];
      var w := SweepSource(st, src, removed);
      if |ts| > 1 {
        ScanPreservesWellFormed(ts, st.used[src], |ts| - 1, removed, st.pool.next);
      }
      assert WellFormed(w.st.tags[src], w.st.used[src], w.st.pool.next);
      assert Valid(w.st);
      if !w.stopped {
        SweepPreservesValid(w.st, order[1..], w.removed);
      }
    }
  }

  /** The recovery pass keeps a valid state valid. */
  lemma RecoverPreservesValid(st: State, code: int, order: seq<string>)
    requires Valid(st) && Enumerates(order, st)
    ensures Valid(Recover(st, code, order).st)
  {
    if code == MaxInstancesError {
      SweepPreservesValid(st, order, 0);
    }
  }
}
