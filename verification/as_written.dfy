/** Two places where src/soundjs/htmlaudio/HTMLAudioTagPool.js, as written,
    trips over the deleted slots that `remove` leaves in a source's arrays.
    Each is modelled here as the source has it, next to a lemma that exhibits
    the failure; `Registry` holds the corrected definitions. */
module AsWritten {
  import opened Wrappers
  import TagPool
  import opened SlotList
  import opened Registry

  // ---------------------------------------------------------------- remove

  /** The free list as JavaScript values: a tag, or `undefined` (`None`). */
  type FreeValues = seq<Option<TagPool.Handle>>

  /** A free list of tags, seen as JavaScript values. */
  function Lift(free: seq<TagPool.Handle>): (r: FreeValues)
    ensures |r| == |free| && forall i :: 0 <= i < |free| ==> r[i] == Some(free[i])
  {
    seq(|free|, i requires 0 <= i < |free| => Some(free[i]))
  }

  /** The loop of `remove` as written: every slot value, a deleted one
      (`undefined`) included, is passed to `TagPool.set`. */
  function PoolAllAsWritten(free: FreeValues, ts: Tags): (r: FreeValues)
    ensures free <= r
    ensures forall x :: x in r <==> x in free || x in ts
    decreases |ts|
  {
    if |ts| == 0 then free
    else
      assert forall x :: x in ts <==> x == ts[0] || x in ts[1..];
      PoolAllAsWritten(TagPool.Put(free, ts[0]), ts[1..])
  }

  /** The free list `remove(src)` leaves as written; the arrays change as in
      `Registry.Remove`. */
  function RemoveAsWritten(st: State, src: string): (r: FreeValues)
    requires Aligned(st) && src in st.tags
    ensures Lift(st.pool.free) <= r
    ensures forall x :: x in r <==> x in Lift(st.pool.free) || x in st.tags[src]
  {
    PoolAllAsWritten(Lift(st.pool.free), st.tags[src])
  }

  /** No slot of the list is deleted. */
  predicate HoleFree(ts: Tags) {
    forall j :: 0 <= j < |ts| ==> ts[j].Some?
  }

  /** Returning a tag to the free list commutes with seeing the list as values. */
  lemma PutLift(free: seq<TagPool.Handle>, h: TagPool.Handle)
    ensures TagPool.Put(Lift(free), Some(h)) == Lift(TagPool.Put(free, h))
  {
    assert Some(h) in Lift(free) <==> h in free by {
      if h in free {
        var i :| 0 <= i < |free| && free[i] == h;
        assert Lift(free)[i] == Some(h);
      }
    }
    if h !in free {
      assert Lift(free + [h]) == Lift(free) + [Some(h)];
    }
  }

  /** On a list without deleted slots the two loops pool the same tags. */
  lemma {:induction false} PoolAllAgrees(p: TagPool.Pool, ts: Tags)
    requires HoleFree(ts)
    ensures PoolAllAsWritten(Lift(p.free), ts) == Lift(PoolAll(p, ts).free)
    decreases |ts|
  {
    if |ts| > 0 {
      PutLift(p.free, ts[0].value);
      assert HoleFree(ts[1..]) by {
        assert forall j :: 0 <= j < |ts[1..]| ==> ts[1..][j] == ts[j + 1];
      }
      PoolAllAgrees(TagPool.Set(p, ts[0].value), ts[1..]);
    }
  }

  /** On a source without deleted slots, `remove` as written pools exactly
      what the corrected `Registry.Remove` pools. */
  lemma RemoveAsWrittenAgrees(st: State, src: string)
    requires Aligned(st) && src in st.tags && HoleFree(st.tags[src])
    ensures RemoveAsWritten(st, src) == Lift(Remove(st, src).st.pool.free)
  {
    PoolAllAgrees(st.pool, st.tags[src]);
  }

  /** `get("a")` then `remove("a")` twice: the second `remove` pushes the
      deleted slot's `undefined` onto the free list, on top, so the next
      `TagPool.get` pops `undefined` and reads `parentNode` of it. The
      corrected `remove` leaves the free list as it was. */
  lemma RemoveTwicePoolsUndefined()
    ensures var st1 := Get(Init, "a", false).st;
            var st2 := Remove(st1, "a").st;
            && st2.tags["a"] == [None]
            && RemoveAsWritten(st2, "a") == [Some(0), None]
            && Remove(st2, "a").st.pool == st2.pool
            && st2.pool.free == [0]
  {
    var st1 := Get(Init, "a", false).st;
    assert st1.tags["a"] == [Some(0)];
    var st2 := Remove(st1, "a").st;
    assert st2.tags["a"] == Holes(1);
    assert Holes(1) == [None];
    assert st2.pool.free == [0] by {
      assert st2.pool == PoolAll(st1.pool, [Some(0)]);
      assert st1.pool == TagPool.Pool([], 1);
      assert [Some(0)][1..] == [];
    }
    assert Lift([0]) == [Some(0)];
    assert RemoveAsWritten(st2, "a") == PoolAllAsWritten([Some(0)], [None]);
    var hole: Tags := [None];
    assert hole[1..] == [];
    RemoveTwice(st1, "a");
  }

  // ---------------------------------------------------------------- quota recovery

  /** The per-source scan as written: it finishes, or it throws with the
      arrays as far as it got. */
  datatype Step = Done(scan: Scan) | Threw(tags: Tags, used: Flags)

  /** The inner loop of `_handleMaximumInstances` as written: a deleted slot's
      flag reads `undefined`, so the slot counts as idle, and `set(src,
      undefined)` throws when it reads `removeEventListener` of `undefined`. */
  function ScanDownAsWritten(ts: Tags, fs: Flags, i: nat, removed: nat): (r: Step)
    requires |ts| == |fs| && i < |ts|
    ensures r.Done? ==> r.scan == ScanDown(ts, fs, i, removed)
    ensures r.Threw? ==> exists j :: 0 < j <= i && ts[j] == None && !fs[j]
    decreases i
  {
    if i == 0 then Done(Scan(ts, fs, removed, false))
    else if removed >= Budget then Done(Scan(ts, fs, removed, true))
    else if !fs[i] then
      if ts[i].None? then Threw(ts, fs)
      else ScanDownAsWritten(Splice(ts, i), Splice(ClearMatching(ts, fs, ts[i].value), i), i - 1, removed + 1)
    else ScanDownAsWritten(ts, fs, i - 1, removed)
  }

  /** One turn of the outer loop as written; `Failure` carries the state the
      exception leaves behind. */
  function SweepSourceAsWritten(st: State, src: string, removed: nat): (r: Result<Swept, State>)
    requires Aligned(st) && removed <= Budget && src in st.tags
    ensures r.Success? ==> r.value == SweepSource(st, src, removed)
    ensures r.Failure? ==> exists j :: 0 < j < |st.tags[src]| && st.tags[src][j] == None
  {
    var ts := st.tags[src];
    if |ts| > 1 then
      match ScanDownAsWritten(ts, st.used[src], |ts| - 1, removed)
      case Done(s) =>
        Success(Swept(st.(tags := st.tags[src := s.tags], used := st.used[src := s.used]), s.removed, s.stopped))
      case Threw(t, f) =>
        Failure(st.(tags := st.tags[src := t], used := st.used[src := f]))
    else Success(Swept(st, removed, false))
  }

  /** The outer loop as written. */
  function SweepAsWritten(st: State, order: seq<string>, removed: nat): (r: Result<Swept, State>)
    requires Aligned(st) && removed <= Budget
    requires forall k :: k in order ==> k in st.tags
    ensures r.Success? ==> r.value == Sweep(st, order, removed)
    decreases |order|
  {
    if |order| == 0 then Success(Swept(st, removed, false))
    else
      match SweepSourceAsWritten(st, order[0], removed)
      case Failure(st') => Failure(st')
      case Success(w) => if w.stopped then Success(w) else SweepAsWritten(w.st, order[1..], w.removed)
  }

  /** `_handleMaximumInstances` as written: when it does not throw, it does
      what the corrected `Registry.Recover` does. */
  function RecoverAsWritten(st: State, code: int, order: seq<string>): (r: Result<Recovery, State>)
    requires Aligned(st) && Enumerates(order, st)
    ensures r.Success? ==> r.value == Recover(st, code, order)
    ensures code != MaxInstancesError ==> r.Success?
  {
    if code != MaxInstancesError then Success(Recovery(st, 0, false))
    else
      match SweepAsWritten(st, order, 0)
      case Failure(st') => Failure(st')
      case Success(w) => Success(Recovery(w.st, w.removed, w.stopped || w.removed != 0))
  }

  /** Without deleted slots below the starting index, the scan as written never throws. */
  lemma {:induction false} ScanAsWrittenWithoutHoles(ts: Tags, fs: Flags, i: nat, removed: nat)
    requires |ts| == |fs| && i < |ts|
    requires forall j :: 0 < j <= i ==> ts[j].Some?
    ensures ScanDownAsWritten(ts, fs, i, removed).Done?
    decreases i
  {
    if i > 0 && removed < Budget {
      if !fs[i] {
        var ts1 := Splice(ts, i);
        ScanAsWrittenWithoutHoles(ts1, Splice(ClearMatching(ts, fs, ts[i].value), i), i - 1, removed + 1);
      } else {
        ScanAsWrittenWithoutHoles(ts, fs, i - 1, removed);
      }
    }
  }

  /** Without deleted slots in the swept sources, the outer loop as written never throws. */
  lemma {:induction false} SweepAsWrittenWithoutHoles(st: State, order: seq<string>, removed: nat)
    requires Aligned(st) && removed <= Budget && TagPool.Distinct(order)
    requires forall k :: k in order ==> k in st.tags && HoleFree(st.tags[k])
    ensures SweepAsWritten(st, order, removed).Success?
    decreases |order|
  {
    if |order| > 0 {
      var src, rest := order[0], order[1..];
      assert src !in rest && TagPool.Distinct(rest) by {
        assert forall j :: 0 <= j < |rest| ==> rest[j] == order[j + 1];
      }
      var ts := st.tags[src];
      if |ts| > 1 {
        ScanAsWrittenWithoutHoles(ts, st.used[src], |ts| - 1, removed);
      }
      var w := SweepSourceAsWritten(st, src, removed);
      assert w.Success?;
      if !w.value.stopped {
        forall k | k in rest
          ensures k in w.value.st.tags && HoleFree(w.value.st.tags[k])
        {
          assert k != src;
        }
        SweepAsWrittenWithoutHoles(w.value.st, rest, w.value.removed);
      }
    }
  }

  /** On a registry without deleted slots the recovery handler as written
      agrees with the corrected one. */
  lemma RecoverAsWrittenAgrees(st: State, code: int, order: seq<string>)
    requires Aligned(st) && Enumerates(order, st)
    requires forall k :: k in st.tags ==> HoleFree(st.tags[k])
    ensures RecoverAsWritten(st, code, order) == Success(Recover(st, code, order))
  {
    if code == MaxInstancesError {
      SweepAsWrittenWithoutHoles(st, order, 0);
    }
  }

  /** `get("a")` three times (the base tag is handed out twice, then an
      overflow tag is created) and `remove("a")` leave source "a" with two
      deleted slots. */
  lemma DeletedSlotsReachable()
    ensures var st1 := Get(Get(Get(Init, "a", true).st, "a", true).st, "a", true).st;
            var st2 := Remove(st1, "a").st;
            st2.tags == map["a" := [None, None]] && st2.used == map["a" := [false, false]]
  {
    FirstGetOfA();
    SecondGetOfA();
    ThirdGetOfA();
    RemoveOfA();
  }

  /** `remove("a")` after the three calls deletes both slots. */
  lemma RemoveOfA()
    ensures var st := State(map["a" := [Some(0), Some(1)]], map["a" := [true, true]], TagPool.Pool([], 2), 2);
            var st' := Remove(st, "a").st;
            st'.tags == map["a" := [None, None]] && st'.used == map["a" := [false, false]]
  {
    assert Holes(2) == [None, None] && Downs(2) == [false, false];
  }

  /** The first `get("a")` on a fresh page creates tag 0 as the base slot. */
  lemma FirstGetOfA()
    ensures Get(Init, "a", true).st == State(map["a" := [Some(0)]], map["a" := [false]], TagPool.Pool([], 1), 1)
  {
  }

  /** The second `get("a")` hands out base tag 0 again, now busy. */
  lemma SecondGetOfA()
    ensures var st := State(map["a" := [Some(0)]], map["a" := [false]], TagPool.Pool([], 1), 1);
            Get(st, "a", true).st == State(map["a" := [Some(0)]], map["a" := [true]], TagPool.Pool([], 1), 1)
  {
    var st := State(map["a" := [Some(0)]], map["a" := [false]], TagPool.Pool([], 1), 1);
    GetReuse(st, "a", true, 0);
    var down: Flags := [false];
    assert down[0 := true] == [true];
  }

  /** The third `get("a")` finds every slot busy and creates overflow tag 1. */
  lemma ThirdGetOfA()
    ensures var st := State(map["a" := [Some(0)]], map["a" := [true]], TagPool.Pool([], 1), 1);
            Get(st, "a", true).st == State(map["a" := [Some(0), Some(1)]], map["a" := [true, true]], TagPool.Pool([], 2), 2)
  {
    var st := State(map["a" := [Some(0)]], map["a" := [true]], TagPool.Pool([], 1), 1);
    GetOverflow(st, "a", true);
    assert TagPool.Get(st.pool) == TagPool.Taken(TagPool.Pool([], 2), 1);
    var up: Flags := [true];
    assert up + [true] == [true, true];
    var one: Tags := [Some(0)];
    assert one + [Some(1)] == [Some(0), Some(1)];
  }

  /** A quota error while source "a" holds two deleted slots makes the handler
      as written throw on slot 1, while the corrected handler reclaims nothing
      and changes nothing. */
  lemma RecoverAsWrittenThrowsOnDeletedSlot(st: State)
    requires st.tags == map["a" := [None, None]] && st.used == map["a" := [false, false]]
    ensures Enumerates(["a"], st)
    ensures RecoverAsWritten(st, MaxInstancesError, ["a"]).Failure?
    ensures Recover(st, MaxInstancesError, ["a"]) == Recovery(st, 0, false)
  {
    var ts: Tags, fs: Flags := [None, None], [false, false];
    assert ScanDownAsWritten(ts, fs, 1, 0).Threw?;
    assert ScanDown(ts, fs, 1, 0) == Scan(ts, fs, 0, false) by {
      assert ScanDown(ts, fs, 1, 0) == ScanDown(ts, fs, 0, 0);
    }
    assert st.tags["a" := ts] == st.tags && st.used["a" := fs] == st.used;
    assert SweepSource(st, "a", 0) == Swept(st, 0, false);
    var order := ["a"];
    assert order[1..] == [];
  }
}
