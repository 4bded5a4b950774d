/** One source's pair of parallel arrays, `_tags[src]` and `_tagUsed[src]` in
    src/soundjs/htmlaudio/HTMLAudioTagPool.js, and the part of the
    quota-recovery pass that works on one source. */
module SlotList {
  import opened Wrappers
  import opened TagPool

  /** `_tags[src]`: the tag of each slot, `None` where `remove` deleted it. */
  type Tags = seq<Option<Handle>>

  /** `_tagUsed[src]`: the busy flag of each slot. A deleted flag is `undefined`
      in JavaScript; every reader only tests `!flag`, so it is `false` here. */
  type Flags = seq<bool>

  /** Slot `i` holds a tag whose busy flag is down (the test of `get`). */
  predicate IsIdle(ts: Tags, fs: Flags, i: int) {
    0 <= i < |ts| && i < |fs| && ts[i].Some? && !fs[i]
  }

  /** The lowest idle slot at or after `from`, if there is one. */
  function FirstIdle(ts: Tags, fs: Flags, from: nat := 0): (r: Option<nat>)
    requires |ts| == |fs| && from <= |ts|
    ensures r.Some? ==> from <= r.value && IsIdle(ts, fs, r.value)
    ensures r.Some? ==> forall j :: from <= j < r.value ==> !IsIdle(ts, fs, j)
    ensures r.None? ==> forall j :: from <= j < |ts| ==> !IsIdle(ts, fs, j)
    decreases |ts| - from
  {
    if from == |ts| then None
    else if ts[from].Some? && !fs[from] then Some(from)
    else FirstIdle(ts, fs, from + 1)
  }

  /** The slot lists every source keeps: both arrays of one length, at least the
      base slot, a deleted slot never busy, and only tags created before. */
  predicate WellFormed(ts: Tags, fs: Flags, next: Handle) {
    && |ts| == |fs|
    && |ts| >= 1
    && forall i :: 0 <= i < |ts| ==>
         (ts[i].None? ==> !fs[i]) && (ts[i].Some? ==> ts[i].value < next)
  }

  /** Slots `i` and `j` are not bound to the same tag. */
  predicate Apart(ts: Tags, i: nat, j: nat)
    requires i < |ts| && j < |ts|
  {
    ts[i].Some? ==> ts[i] != ts[j]
  }

  /** No tag is bound to two slots of the list. */
  predicate NoDup(ts: Tags) {
    forall i, j :: 0 <= i < j < |ts| ==> Apart(ts, i, j)
  }

  /** The flags after `set` finds tag `h`: every slot that holds `h` is marked
      idle, every other flag is kept. */
  function ClearMatching(ts: Tags, fs: Flags, h: Handle): (r: Flags)
    requires |ts| == |fs|
    ensures |r| == |fs|
    ensures forall i {:trigger r[i]} :: 0 <= i < |fs| ==> r[i] == (fs[i] && ts[i] != Some(h))
  {
    if |ts| == 0 then []
    else [fs[0] && ts[0] != Some(h)] + ClearMatching(ts[1..], fs[1..], h)
  }

  /** `Array.prototype.splice(i, 1)`: the element at `i` is taken out and the
      later ones move down. */
  function Splice<T>(s: seq<T>, i: nat): (r: seq<T>)
    requires i < |s|
    ensures |r| == |s| - 1
    ensures forall j {:trigger r[j]} :: 0 <= j < i ==> r[j] == s[j]
    ensures forall j :: i <= j < |r| ==> r[j] == s[j + 1]
  {
    s[..i] + s[i + 1..]
  }

  /** `n` deleted slots. */
  function Holes(n: nat): (r: Tags)
    ensures |r| == n && forall i :: 0 <= i < n ==> r[i] == None
  {
    seq(n, i => None)
  }

  /** `n` flags that are down. */
  function Downs(n: nat): (r: Flags)
    ensures |r| == n && forall i :: 0 <= i < n ==> !r[i]
  {
    seq(n, i => false)
  }

  /** The busy tags of the list, in slot order. */
  function Busy(ts: Tags, fs: Flags): seq<Handle>
    requires |ts| == |fs|
    decreases |ts|
  {
    if |ts| == 0 then []
    else
      var n := |ts| - 1;
      Busy(ts[..n], fs[..n]) + (if ts[n].Some? && fs[n] then [ts[n].value] else [])
  }

  /** The recovery pass stops once it has reclaimed this many tags. */
  const Budget: nat := 4

  /** The arrays of one source after the downward scan, the running count of
      reclaimed tags, and whether the scan stopped because the count reached
      the budget. */
  datatype Scan = Scan(tags: Tags, used: Flags, removed: nat, stopped: bool)

  /** The inner loop of `_handleMaximumInstances` from slot `i` down to slot 1,
      with `removed` tags reclaimed so far: an idle tag is passed to `set`
      (which finds it, so only flags change) and spliced out of both arrays.
      A deleted slot is skipped; `AsWritten.ScanDownAsWritten` is the loop as
      the source has it. */
  function ScanDown(ts: Tags, fs: Flags, i: nat, removed: nat): (r: Scan)
    requires |ts| == |fs| && i < |ts|
    ensures |r.tags| == |r.used|
    ensures removed <= r.removed <= removed + i
    ensures |r.tags| + r.removed == |ts| + removed
    ensures removed <= Budget ==> r.removed <= Budget
    ensures r.stopped ==> r.removed >= Budget
    ensures r.tags[0] == ts[0]
    decreases i
  {
    if i == 0 then Scan(ts, fs, removed, false)
    else if removed >= Budget then Scan(ts, fs, removed, true)
    else if ts[i].Some? && !fs[i] then
      ScanDown(Splice(ts, i), Splice(ClearMatching(ts, fs, ts[i].value), i), i - 1, removed + 1)
    else ScanDown(ts, fs, i - 1, removed)
  }

  /** Reclaiming the idle slot `i` keeps a well-formed list well-formed. */
  lemma ReclaimKeepsWellFormed(ts: Tags, fs: Flags, i: nat, next: Handle)
    requires WellFormed(ts, fs, next) && 0 < i < |ts| && IsIdle(ts, fs, i)
    ensures WellFormed(Splice(ts, i), Splice(ClearMatching(ts, fs, ts[i].value), i), next)
  {
    var fs' := ClearMatching(ts, fs, ts[i].value);
    var ts1, fs1 := Splice(ts, i), Splice(fs', i);
    forall j | 0 <= j < |ts1|
      ensures (ts1[j].None? ==> !fs1[j]) && (ts1[j].Some? ==> ts1[j].value < next)
    {
      var k := if j < i then j else j + 1;
      assert ts1[j] == ts[k] && fs1[j] == fs'[k];
    }
  }

  /** The scan keeps a well-formed list well-formed. */
  lemma {:induction false} ScanPreservesWellFormed(ts: Tags, fs: Flags, i: nat, removed: nat, next: Handle)
    requires WellFormed(ts, fs, next) && i < |ts|
    ensures var s := ScanDown(ts, fs, i, removed); WellFormed(s.tags, s.used, next)
    decreases i, 1
  {
    if i == 0 || removed >= Budget {
      ScanStops(ts, fs, i, removed);
    } else if ts[i].Some? && !fs[i] {
      ReclaimPreservesWellFormed(ts, fs, i, removed, next);
    } else {
      SkipPreservesWellFormed(ts, fs, i, removed, next);
    }
  }

  /** `ScanPreservesWellFormed` when slot `i` is passed over. */
  lemma {:induction false} SkipPreservesWellFormed(ts: Tags, fs: Flags, i: nat, removed: nat, next: Handle)
    requires WellFormed(ts, fs, next) && 0 < i < |ts| && removed < Budget && !IsIdle(ts, fs, i)
    ensures var s := ScanDown(ts, fs, i, removed); WellFormed(s.tags, s.used, next)
    decreases i, 0
  {
    ScanSkips(ts, fs, i, removed);
    ScanPreservesWellFormed(ts, fs, i - 1, removed, next);
  }

  /** `ScanPreservesWellFormed` when slot `i` is reclaimed. */
  lemma {:induction false} ReclaimPreservesWellFormed(ts: Tags, fs: Flags, i: nat, removed: nat, next: Handle)
    requires WellFormed(ts, fs, next) && 0 < i < |ts| && removed < Budget && IsIdle(ts, fs, i)
    ensures var s := ScanDown(ts, fs, i, removed); WellFormed(s.tags, s.used, next)
    decreases i, 0
  {
    var ts1, fs1 := Splice(ts, i), Splice(ClearMatching(ts, fs, ts[i].value), i);
    assert ScanDown(ts, fs, i, removed) == ScanDown(ts1, fs1, i - 1, removed + 1);
    ReclaimKeepsWellFormed(ts, fs, i, next);
    ScanPreservesWellFormed(ts1, fs1, i - 1, removed + 1, next);
  }

  /** Which slots survive when `b` reclaims go to the most recently created idle
      overflow slots: a definition from the end of the list, independent of the
      in-place scan. */
  function Survivors(ts: Tags, fs: Flags, b: nat): (r: (Tags, Flags))
    requires |ts| == |fs| && |ts| >= 1
    decreases |ts|
  {
    if |ts| == 1 then (ts, fs)
    else
      var n := |ts| - 1;
      if ts[n].Some? && !fs[n] && b > 0 then Survivors(ts[..n], fs[..n], b - 1)
      else
        var rest := Survivors(ts[..n], fs[..n], b);
        (rest.0 + [ts[n]], rest.1 + [fs[n]])
  }

  /** With no budget left nothing is reclaimed. */
  lemma {:induction false} SurvivorsWithoutBudget(ts: Tags, fs: Flags)
    requires |ts| == |fs| && |ts| >= 1
    ensures Survivors(ts, fs, 0) == (ts, fs)
    decreases |ts|
  {
    if |ts| > 1 {
      var n := |ts| - 1;
      SurvivorsWithoutBudget(ts[..n], fs[..n]);
      assert ts[..n] + [ts[n]] == ts;
      assert fs[..n] + [fs[n]] == fs;
    }
  }

  /** Reclaiming only idle slots keeps the busy tags, in order. */
  lemma {:induction false} SurvivorsKeepBusy(ts: Tags, fs: Flags, b: nat)
    requires |ts| == |fs| && |ts| >= 1
    ensures |Survivors(ts, fs, b).0| == |Survivors(ts, fs, b).1| >= 1
    ensures Busy(Survivors(ts, fs, b).0, Survivors(ts, fs, b).1) == Busy(ts, fs)
    decreases |ts|
  {
    if |ts| > 1 {
      var n := |ts| - 1;
      SurvivorsKeepBusy(ts[..n], fs[..n], if ts[n].Some? && !fs[n] && b > 0 then b - 1 else b);
      if !(ts[n].Some? && !fs[n] && b > 0) {
        var rest := Survivors(ts[..n], fs[..n], b);
        var t, f := rest.0 + [ts[n]], rest.1 + [fs[n]];
        assert t[..|t| - 1] == rest.0 && f[..|f| - 1] == rest.1;
      }
    }
  }

  /** When no tag is bound twice in the list, `set` on an idle slot's tag
      changes no flag. */
  lemma ClearIdleUnique(ts: Tags, fs: Flags, i: nat)
    requires |ts| == |fs| && NoDup(ts) && IsIdle(ts, fs, i)
    ensures ClearMatching(ts, fs, ts[i].value) == fs
  {
    var r := ClearMatching(ts, fs, ts[i].value);
    forall j | 0 <= j < |fs|
      ensures r[j] == fs[j]
    {
      if j < i {
        assert Apart(ts, j, i);
      } else if i < j {
        assert Apart(ts, i, j);
      }
    }
  }

  /** Splicing a slot out keeps the list free of duplicate tags. */
  lemma SpliceKeepsNoDup(ts: Tags, i: nat)
    requires NoDup(ts) && i < |ts|
    ensures NoDup(Splice(ts, i))
  {
    var r := Splice(ts, i);
    forall a, b | 0 <= a < b < |r|
      ensures Apart(r, a, b)
    {
      var a', b' := if a < i then a else a + 1, if b < i then b else b + 1;
      assert r[a] == ts[a'] && r[b] == ts[b'];
      assert Apart(ts, a', b');
    }
  }

  /** Reclaiming idle slot `i` spends one unit of budget on the newest slot
      of `0..i`, in both definitions. */
  lemma SurvivorsReclaimStep(ts: Tags, fs: Flags, i: nat, b: nat)
    requires |ts| == |fs| && 0 < i < |ts| && IsIdle(ts, fs, i) && b > 0
    ensures Survivors(ts[..i + 1], fs[..i + 1], b) == Survivors(Splice(ts, i)[..i], Splice(fs, i)[..i], b - 1)
    ensures Splice(ts, i)[i..] == ts[i + 1..] && Splice(fs, i)[i..] == fs[i + 1..]
  {
    assert Splice(ts, i)[..i] == ts[..i + 1][..i];
    assert Splice(fs, i)[..i] == fs[..i + 1][..i];
  }

  /** A slot the scan passes over survives in both definitions. */
  lemma SurvivorsSkipStep(ts: Tags, fs: Flags, i: nat, b: nat)
    requires |ts| == |fs| && 0 < i < |ts| && !(IsIdle(ts, fs, i) && b > 0)
    ensures var v := Survivors(ts[..i], fs[..i], b);
            var w := Survivors(ts[..i + 1], fs[..i + 1], b);
            w.0 + ts[i + 1..] == v.0 + ts[i..] && w.1 + fs[i + 1..] == v.1 + fs[i..]
  {
    var v := Survivors(ts[..i], fs[..i], b);
    assert ts[..i + 1][..i] == ts[..i] && fs[..i + 1][..i] == fs[..i];
    assert v.0 + [ts[i]] + ts[i + 1..] == v.0 + ts[i..];
    assert v.1 + [fs[i]] + fs[i + 1..] == v.1 + fs[i..];
  }

  /** When no tag is bound twice, the scan from slot `i` with `removed` tags
      already reclaimed leaves exactly the survivors of slots `0..i` with the
      remaining budget, followed by the untouched slots above `i`. */
  lemma {:induction false} ScanMatchesSurvivors(ts: Tags, fs: Flags, i: nat, removed: nat)
    requires |ts| == |fs| && i < |ts| && removed <= Budget && NoDup(ts)
    ensures var s := ScanDown(ts, fs, i, removed);
            var v := Survivors(ts[..i + 1], fs[..i + 1], Budget - removed);
            s.tags == v.0 + ts[i + 1..] && s.used == v.1 + fs[i + 1..]
    decreases i, 1
  {
    if i == 0 {
      assert ts[..1] + ts[1..] == ts;
      assert fs[..1] + fs[1..] == fs;
    } else if removed >= Budget {
      SurvivorsWithoutBudget(ts[..i + 1], fs[..i + 1]);
      assert ts[..i + 1] + ts[i + 1..] == ts;
      assert fs[..i + 1] + fs[i + 1..] == fs;
    } else if ts[i].Some? && !fs[i] {
      ScanMatchesOnReclaim(ts, fs, i, removed);
    } else {
      ScanMatchesOnSkip(ts, fs, i, removed);
    }
  }

  /** `ScanMatchesSurvivors` when slot `i` is reclaimed. */
  lemma {:induction false} ScanMatchesOnReclaim(ts: Tags, fs: Flags, i: nat, removed: nat)
    requires |ts| == |fs| && 0 < i < |ts| && removed < Budget && NoDup(ts) && IsIdle(ts, fs, i)
    ensures var s := ScanDown(ts, fs, i, removed);
            var v := Survivors(ts[..i + 1], fs[..i + 1], Budget - removed);
            s.tags == v.0 + ts[i + 1..] && s.used == v.1 + fs[i + 1..]
    decreases i, 0
  {
    ClearIdleUnique(ts, fs, i);
    assert ScanDown(ts, fs, i, removed) == ScanDown(Splice(ts, i), Splice(fs, i), i - 1, removed + 1);
    SpliceKeepsNoDup(ts, i);
    ScanMatchesSurvivors(Splice(ts, i), Splice(fs, i), i - 1, removed + 1);
    SurvivorsReclaimStep(ts, fs, i, Budget - removed);
  }

  /** `ScanMatchesSurvivors` when slot `i` is passed over. */
  lemma {:induction false} ScanMatchesOnSkip(ts: Tags, fs: Flags, i: nat, removed: nat)
    requires |ts| == |fs| && 0 < i < |ts| && removed < Budget && NoDup(ts) && !IsIdle(ts, fs, i)
    ensures var s := ScanDown(ts, fs, i, removed);
            var v := Survivors(ts[..i + 1], fs[..i + 1], Budget - removed);
            s.tags == v.0 + ts[i + 1..] && s.used == v.1 + fs[i + 1..]
    decreases i, 0
  {
    ScanSkips(ts, fs, i, removed);
    ScanMatchesSurvivors(ts, fs, i - 1, removed);
    SkipExtends(ts, fs, i, Budget - removed, ScanDown(ts, fs, i - 1, removed));
  }

  /** The scan changes nothing once it reaches the base slot or the budget. */
  lemma ScanStops(ts: Tags, fs: Flags, i: nat, removed: nat)
    requires |ts| == |fs| && i < |ts| && (i == 0 || removed >= Budget)
    ensures ScanDown(ts, fs, i, removed).tags == ts && ScanDown(ts, fs, i, removed).used == fs
  {
  }

  /** The scan passes over a slot that is busy or deleted. */
  lemma ScanSkips(ts: Tags, fs: Flags, i: nat, removed: nat)
    requires |ts| == |fs| && 0 < i < |ts| && removed < Budget && !IsIdle(ts, fs, i)
    ensures ScanDown(ts, fs, i, removed) == ScanDown(ts, fs, i - 1, removed)
  {
  }

  /** A result that matches the survivors of slots `0..i-1` also matches those
      of slots `0..i` when slot `i` is passed over. */
  lemma SkipExtends(ts: Tags, fs: Flags, i: nat, b: nat, s: Scan)
    requires |ts| == |fs| && 0 < i < |ts| && !(IsIdle(ts, fs, i) && b > 0)
    requires var v := Survivors(ts[..i], fs[..i], b);
             s.tags == v.0 + ts[i..] && s.used == v.1 + fs[i..]
    ensures var w := Survivors(ts[..i + 1], fs[..i + 1], b);
            s.tags == w.0 + ts[i + 1..] && s.used == w.1 + fs[i + 1..]
  {
    SurvivorsSkipStep(ts, fs, i, b);
  }

  /** When no tag is bound twice, the whole downward scan of a source keeps its
      busy tags, in order. */
  lemma ScanKeepsBusy(ts: Tags, fs: Flags, removed: nat)
    requires |ts| == |fs| && |ts| >= 1 && removed <= Budget && NoDup(ts)
    ensures var s := ScanDown(ts, fs, |ts| - 1, removed);
            Busy(s.tags, s.used) == Busy(ts, fs)
  {
    ScanMatchesWhole(ts, fs, removed);
    SurvivorsKeepBusy(ts, fs, Budget - removed);
  }

  /** The whole downward scan of a list without duplicate tags leaves exactly
      its survivors. */
  lemma ScanMatchesWhole(ts: Tags, fs: Flags, removed: nat)
    requires |ts| == |fs| && |ts| >= 1 && removed <= Budget && NoDup(ts)
    ensures var s := ScanDown(ts, fs, |ts| - 1, removed);
            (s.tags, s.used) == Survivors(ts, fs, Budget - removed)
  {
    var i := |ts| - 1;
    var s := ScanDown(ts, fs, i, removed);
    var v := Survivors(ts[..i + 1], fs[..i + 1], Budget - removed);
    ScanMatchesSurvivors(ts, fs, i, removed);
    assert s.tags == v.0 + ts[i + 1..] && s.used == v.1 + fs[i + 1..];
    assert ts[..i + 1] == ts && fs[..i + 1] == fs;
    assert ts[i + 1..] == [] && fs[i + 1..] == [];
    assert v.0 + [] == v.0 && v.1 + [] == v.1;
  }

  /** No overflow slot of the list holds an idle tag: the recovery pass finds
      nothing to reclaim in it. */
  predicate NoIdleOverflow(ts: Tags, fs: Flags) {
    forall j :: 0 < j < |ts| ==> !IsIdle(ts, fs, j)
  }

  /** A scan that starts with nothing reclaimed reclaims nothing exactly when
      no slot from 1 to `i` is idle, and then it leaves the list as it was. */
  lemma {:induction false} ScanReclaimsNothing(ts: Tags, fs: Flags, i: nat)
    requires |ts| == |fs| && i < |ts|
    ensures ScanDown(ts, fs, i, 0).removed == 0 <==> forall j :: 0 < j <= i ==> !IsIdle(ts, fs, j)
    ensures ScanDown(ts, fs, i, 0).removed == 0 ==> ScanDown(ts, fs, i, 0) == Scan(ts, fs, 0, false)
    decreases i
  {
    if i > 0 {
      if IsIdle(ts, fs, i) {
        assert ScanDown(ts, fs, i, 0).removed >= 1;
      } else {
        ScanSkips(ts, fs, i, 0);
        ScanReclaimsNothing(ts, fs, i - 1);
      }
    }
  }

  /** Without `NoDup` the scan can lose a busy tag: reclaiming the idle copy
      of a tag also lowers the flag of its busy copy. */
  lemma DuplicateLosesBusy()
    ensures var ts: Tags, fs: Flags := [Some(0), Some(0)], [true, false];
            var s := ScanDown(ts, fs, 1, 0);
            Busy(ts, fs) == [0] && Busy(s.tags, s.used) == []
  {
    var ts: Tags, fs: Flags := [Some(0), Some(0)], [true, false];
    var cleared := ClearMatching(ts, fs, 0);
    assert cleared == [false, false];
    var t1: Tags, f1: Flags := [Some(0)], [false];
    assert Splice(ts, 1) == t1 && Splice(cleared, 1) == f1;
    assert ScanDown(ts, fs, 1, 0) == ScanDown(t1, f1, 0, 1);
    assert ts[..1] == t1 && fs[..1] == [true];
    var e: Tags := [];
    assert t1[..0] == e;
  }
}
