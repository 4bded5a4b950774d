# HTMLAudioTagPool, modelled in Dafny

SoundJS plays sounds through HTML `<audio>` elements. Browsers limit how many
of these a page may have, so `HTMLAudioTagPool` (in
`src/soundjs/htmlaudio/HTMLAudioTagPool.js`) recycles them. It has two parts.

- **The registry.** For each audio source it keeps an array of tags (`_tags[src]`)
  and a parallel array of busy flags (`_tagUsed[src]`). It also counts the tags
  it has handed to sources (`_audioTagCount`). Its operations are:
  - `get`: hand out a tag;
  - `set`: take one back;
  - `remove`: forget a source;
  - `_handleMaximumInstances`: on Internet Explorer, reclaim idle overflow tags
    when the browser refuses another element.
- **The free pool (`TagPool`).** A last-in-first-out list of tags that belong
  to no source. It creates a new element when the list is empty.

The model is functional. A `Registry.State` holds:
- the two maps of arrays;
- the free pool;
- the counter.

Every operation is a pure function from state to state. An element is an
abstract `Handle`, a number. "Creating an element" means taking the pool's next
unused number.

Modules:
- `Wrappers`: the `Option` and `Result` types. A deleted array slot is `None`.
- `TagPool`: the free pool, `_createTag`, and the duplicate-free `Put`.
- `SlotList`: one source's two arrays. It holds the lowest-idle search, the flag
  update `set` makes, `splice`, and the downward scan of the recovery pass. It
  also holds an independent end-first definition of which slots that scan
  keeps (`Survivors`).
- `Registry`: `get`, `set` (`Release`), `remove`, the recovery pass
  (`Recover`), and the invariant `Valid` that all of them keep. `Remove`,
  `PoolAll` and `Recover` are corrected on deleted slots (see Findings): they
  pass over a deleted slot where the code hands `undefined` to `set`.
- `AsWritten`: the two places where the code as written fails on the slots
  that `remove` deletes (see Findings).

`delete` on a JavaScript array has two effects:
- The tag slot becomes `undefined`. It is `None` here.
- The flag slot becomes `undefined`. It is `false` here. Both values are
  falsy, and every reader of a flag only tests `!flag`, so the two are
  interchangeable.

In three places the code does something a reader might not expect. The model
follows the code.

- **A new base slot gets flag `false` (line 114).** So two `get` calls with no
  `set` between them both return the base tag, and the second call only marks
  it busy (`Registry.GetBase`). The base slot is not treated as taken on the
  first call.
- **`remove` leaves the arrays in place.** It deletes their entries but keeps
  their length. So a later `get` appends an overflow slot after the holes
  instead of creating slot 0 again (`Registry.RemoveThenGetOverflows`).
- **The recovery pass reclaims a tag by calling `set` while the tag is still in
  the list.** `set` therefore finds the tag and only lowers flags. The
  reclaimed tag goes neither to the free pool nor off the counter
  (`Registry.Recover`, `Registry.ReclaimIsFoundBySet`).

The code does not keep every tag bound to at most one slot. Suppose `remove`
runs while a tag is busy and `set` returns that tag later. The tag is pooled a
second time, possibly after another source has taken it. Because of this, the
lemmas about busy slots surviving recovery (`SlotList.ScanKeepsBusy`,
`SlotList.ScanMatchesSurvivors`, `Registry.SweepKeepsBusy`,
`Registry.RecoverKeepsBusy`) assume that no list holds a tag twice
(`SlotList.NoDup`).

## Model

| member | source | states |
|---|---|---|
| `TagPool.Create` | src/soundjs/htmlaudio/HTMLAudioTagPool.js:301-307 | a created element differs from every element created before and from every pooled one; the free list is untouched |
| `TagPool.Get` | src/soundjs/htmlaudio/HTMLAudioTagPool.js:263-272 | a non-empty pool gives up its most recently pushed element and shrinks by one; an empty pool yields a new element and stays empty |
| `TagPool.Set` | src/soundjs/htmlaudio/HTMLAudioTagPool.js:279-286 | afterwards the tag is in the free list; nothing else is added; nothing is lost; nothing changes when the tag was already there |
| `TagPool.SetIdempotent` | src/soundjs/htmlaudio/HTMLAudioTagPool.js:279-286 | returning a tag twice has the effect of returning it once |
| `TagPool.SetPreservesValid` | src/soundjs/htmlaudio/HTMLAudioTagPool.js:279-286 | the free list never holds a tag twice |
| `TagPool.GetAfterSet` | src/soundjs/htmlaudio/HTMLAudioTagPool.js:263-286 | last in, first out: a tag just returned is the next one handed out, and the pool is as before |
| `TagPool.GetPreservesValid` | src/soundjs/htmlaudio/HTMLAudioTagPool.js:263-272 | taking a tag keeps the free list duplicate-free, and the tag taken is no longer in it |
| `SlotList.FirstIdle` | src/soundjs/htmlaudio/HTMLAudioTagPool.js:100-107 | finds the lowest slot that holds a tag whose flag is down, or reports that no slot qualifies |
| `SlotList.ClearMatching` | src/soundjs/htmlaudio/HTMLAudioTagPool.js:143-148 | every slot holding the returned tag becomes idle; every other flag is kept |
| `SlotList.ScanDown` | src/soundjs/htmlaudio/HTMLAudioTagPool.js:205-218 | the downward scan keeps the arrays equal in length and keeps slot 0's tag; each reclaim removes exactly one slot; it never goes past four reclaims; it stops early only when four are reached |
| `SlotList.ScanPreservesWellFormed` | src/soundjs/htmlaudio/HTMLAudioTagPool.js:205-218 | after the scan, both arrays are still one length with a base slot; deleted slots stay idle |
| `SlotList.ScanMatchesSurvivors` | src/soundjs/htmlaudio/HTMLAudioTagPool.js:205-218 | the scan's four reclaims go to the newest idle overflow slots, as the end-first definition `Survivors` says |
| `SlotList.ScanKeepsBusy` | src/soundjs/htmlaudio/HTMLAudioTagPool.js:212-216 | for a list where no tag fills two slots, only idle slots are reclaimed and the busy tags of the source survive, in order |
| `SlotList.DuplicateLosesBusy` | src/soundjs/htmlaudio/HTMLAudioTagPool.js:143-148 | when a tag fills two slots, reclaiming the idle copy also lowers the busy copy's flag (line 145), so the busy tag is lost |
| `SlotList.ScanReclaimsNothing` | src/soundjs/htmlaudio/HTMLAudioTagPool.js:205-218 | a scan starting from zero reclaims nothing exactly when no slot above the base is idle, and then leaves the list unchanged |
| `Registry.InitValid` | src/soundjs/htmlaudio/HTMLAudioTagPool.js:60-87 | the initial registry and pool are empty and satisfy the invariant |
| `Registry.Get` | src/soundjs/htmlaudio/HTMLAudioTagPool.js:96-129 | the tag handed out is bound to the source afterwards; other sources do not change; the arrays stay aligned; the count rises by at most one; the listener is attached only on Internet Explorer |
| `Registry.GetReuse` | src/soundjs/htmlaudio/HTMLAudioTagPool.js:100-106 | the lowest idle slot's tag is returned and only its flag rises; the tags, the pool and the count are unchanged |
| `Registry.GetPrefersIdle` | src/soundjs/htmlaudio/HTMLAudioTagPool.js:100-107 | while any slot of the source is idle, `get` creates nothing and takes nothing from the pool |
| `Registry.GetBase` | src/soundjs/htmlaudio/HTMLAudioTagPool.js:108-115 | a source's first `get` takes one pool tag and counts it; it installs `[tag]` with flags `[false]`; a second `get` returns the same tag |
| `Registry.GetOverflow` | src/soundjs/htmlaudio/HTMLAudioTagPool.js:116-128 | when every slot is busy or deleted, a pool tag is appended busy to both arrays and counted; the listener is attached exactly on Internet Explorer |
| `Registry.GetFresh` | src/soundjs/htmlaudio/HTMLAudioTagPool.js:108-128 | a tag created because the pool is empty is bound to no slot of any source |
| `Registry.GetPreservesValid` | src/soundjs/htmlaudio/HTMLAudioTagPool.js:96-129 | `get` keeps the invariant: arrays aligned; base slot present; deleted slots idle; pool duplicate-free |
| `Registry.Release` | src/soundjs/htmlaudio/HTMLAudioTagPool.js:138-153 | an unknown source is an error. A tag found in the list lowers the flags of exactly its slots and changes nothing else. Any other tag is pushed on top of the free list unless it is already there, nothing else joins the list, and the count drops by one |
| `Registry.ReleasePreservesValid` | src/soundjs/htmlaudio/HTMLAudioTagPool.js:138-153 | `set` keeps the invariant |
| `Registry.ReleaseThenGetReuses` | src/soundjs/htmlaudio/HTMLAudioTagPool.js:143-147 | after `set` of a source's own tag, `get` reuses an existing slot and creates nothing. When no other slot is idle it returns that same tag |
| `Registry.PoolAll` | src/soundjs/htmlaudio/HTMLAudioTagPool.js:166-168 | afterwards the free pool holds exactly the tags it held plus every tag of the list; corrected on deleted slots (see Findings) |
| `Registry.PoolAllSnoc` | src/soundjs/htmlaudio/HTMLAudioTagPool.js:166-168 | the tags are pooled one at a time in slot order: one more slot is one more `TagPool.set` on the result |
| `Registry.LastPooledIsNextOut` | src/soundjs/htmlaudio/HTMLAudioTagPool.js:166-168 | when the last slot's tag is new to the pool it lands on top, so the next `TagPool.get` (line 268) hands it out and leaves the pool as the other slots made it |
| `Registry.PoolAllPreservesValid` | src/soundjs/htmlaudio/HTMLAudioTagPool.js:166-168 | pooling a source's tags keeps the free list duplicate-free |
| `Registry.Remove` | src/soundjs/htmlaudio/HTMLAudioTagPool.js:162-174 | an unknown source gives `false` and nothing changes. Otherwise the answer is `true`, every tag is pooled, and every slot is deleted and idle. Both arrays keep their length and the count is unchanged. Corrected on deleted slots (see Findings) |
| `Registry.RemovePreservesValid` | src/soundjs/htmlaudio/HTMLAudioTagPool.js:162-174 | `remove` keeps the invariant |
| `Registry.RemoveTwice` | src/soundjs/htmlaudio/HTMLAudioTagPool.js:162-174 | with the correction on deleted slots (see Findings), removing a source again still answers `true` and changes nothing; the code as written pushes `undefined` instead |
| `Registry.RemoveThenGetOverflows` | src/soundjs/htmlaudio/HTMLAudioTagPool.js:169-170 | after `remove`, `get` appends a busy slot after the deleted ones and counts it; it does not start over at slot 0 |
| `Registry.SweepSource` | src/soundjs/htmlaudio/HTMLAudioTagPool.js:203-219 | a source with more than one slot loses exactly as many slots as are reclaimed; it keeps its base tag; other sources, the pool and the count are untouched |
| `Registry.Sweep` | src/soundjs/htmlaudio/HTMLAudioTagPool.js:202-220 | across all sources, at most four tags are reclaimed; every base tag stays; keys, pool and count do not change |
| `Registry.Recover` | src/soundjs/htmlaudio/HTMLAudioTagPool.js:197-229 | it does nothing unless the error code is 4. It reclaims at most four tags and asks for a reload exactly when it reclaimed one. The pool and the count are untouched, and every source keeps its base tag. Corrected on deleted slots (see Findings) |
| `Registry.RecoverReclaimsWhenIdle` | src/soundjs/htmlaudio/HTMLAudioTagPool.js:221-227 | on a quota error the pass reclaims nothing, and changes nothing, exactly when no source has an idle overflow slot; whenever one has, a tag is reclaimed and the failing tag reloads |
| `Registry.ReclaimIsFoundBySet` | src/soundjs/htmlaudio/HTMLAudioTagPool.js:212-214 | the `set` call on a reclaimed tag takes the found branch; nothing is pooled and nothing is uncounted |
| `Registry.SweepSlotTotal` | src/soundjs/htmlaudio/HTMLAudioTagPool.js:213-216 | each reclaim splices exactly one slot out of the registry |
| `Registry.RecoverSlotTotal` | src/soundjs/htmlaudio/HTMLAudioTagPool.js:197-229 | the registry loses exactly as many slots as the pass reports reclaimed |
| `Registry.SweepKeepsBusy` | src/soundjs/htmlaudio/HTMLAudioTagPool.js:202-220 | over all sources swept whose lists hold no tag twice, busy tags survive in order |
| `Registry.RecoverKeepsBusy` | src/soundjs/htmlaudio/HTMLAudioTagPool.js:212 | when no list holds a tag twice, recovery never reclaims a busy slot and every source's busy tags survive in order |
| `Registry.RecoverPreservesValid` | src/soundjs/htmlaudio/HTMLAudioTagPool.js:197-229 | the recovery pass keeps the invariant |
| `AsWritten.PoolAllAsWritten` | src/soundjs/htmlaudio/HTMLAudioTagPool.js:166-171 | as written, every slot value, `undefined` included, ends up in the free list |
| `AsWritten.RemoveAsWritten` | src/soundjs/htmlaudio/HTMLAudioTagPool.js:162-174 | as written, the free list after `remove` holds the old list plus every slot value of the source |
| `AsWritten.RemoveAsWrittenAgrees` | src/soundjs/htmlaudio/HTMLAudioTagPool.js:166-168 | on a source with no deleted slot, the code as written pools what the corrected `remove` pools |
| `AsWritten.RemoveTwicePoolsUndefined` | src/soundjs/htmlaudio/HTMLAudioTagPool.js:164-170 | `get`, `remove`, `remove` on one source leaves `undefined` on top of the free list as written; the corrected `remove` leaves the list alone |
| `AsWritten.ScanDownAsWritten` | src/soundjs/htmlaudio/HTMLAudioTagPool.js:205-218 | the scan as written throws only on reaching a deleted slot; otherwise it does what the corrected scan does |
| `AsWritten.SweepSourceAsWritten` | src/soundjs/htmlaudio/HTMLAudioTagPool.js:203-219 | one source's turn as written fails only when the source has a deleted overflow slot; otherwise it does what the corrected turn does |
| `AsWritten.SweepAsWritten` | src/soundjs/htmlaudio/HTMLAudioTagPool.js:202-220 | the outer loop as written, when it completes, agrees with the corrected loop |
| `AsWritten.RecoverAsWritten` | src/soundjs/htmlaudio/HTMLAudioTagPool.js:197-229 | the handler as written cannot throw unless the code is 4; when it completes, it agrees with the corrected handler |
| `AsWritten.RecoverAsWrittenAgrees` | src/soundjs/htmlaudio/HTMLAudioTagPool.js:197-229 | with no deleted slots anywhere, the handler as written completes and agrees with the corrected one |
| `AsWritten.DeletedSlotsReachable` | src/soundjs/htmlaudio/HTMLAudioTagPool.js:96-174 | three calls to `get("a")` and then `remove("a")` leave source "a" with two deleted, idle slots |
| `AsWritten.RecoverAsWrittenThrowsOnDeletedSlot` | src/soundjs/htmlaudio/HTMLAudioTagPool.js:212-214 | in that state a quota error makes the handler as written throw, while the corrected one changes nothing |

## Left out

- `getDuration` (lines 183-187) is not modelled, because it reads the browser's floating-point `duration`. It returns 0 when the base slot is empty or deleted, and when the duration is 0 or `NaN`. It throws for a source that was never registered (line 184).
- Element creation is not modelled: `document.createElement`, the `autoplay` and `preload` attributes, and `appendChild` to `document.body` (lines 270, 302-304). A created element is only a new number.
- Assigning `t.src = src` (lines 113, 123) is not modelled. Handles carry no attributes.
- Listener bookkeeping is not modelled (lines 125, 142, 208, 225). This includes the one-argument `removeEventListener` calls. `Registry.Get` only reports in `watched` whether the listener was attached. `Registry.Recover` only reports in `reload` whether `load()` is called (lines 209, 226).
- The `console.log` calls are not modelled (lines 118, 223). They only print.
- `createjs.BrowserDetect.isInternetExplorer` is the input `ie`.
- The key order of the `for ... in` loop (line 202) is an input sequence. It must list every registered source once. Inherited enumerable properties are not modelled.
- `this._tags.src = null` (line 283) has no effect on the modelled state, since it writes a property of the array.
- `TagPool.toString` is not modelled. The constructor that throws (line 47) is not modelled either.
- `Registry.Release`: the `TypeError` that `set` raises for an unknown source is modelled as the error `UnknownSource`. The tag argument is always an element. The one call that passes `undefined` appears only in `AsWritten`.
- `Registry.RecoverKeepsBusy` is stated only when no list holds a tag twice. The code does not maintain that condition: a tag pooled by `remove` while busy can be pooled again by `set`, then handed out twice. When a list holds a duplicate, `set` lowers every copy's flag, so a busy duplicate below the reclaimed slot can become reclaimable and be lost.
- `Registry.SweepKeepsBusy` is stated only for sources whose lists hold no tag twice, for the same reason.
- `SlotList.ScanKeepsBusy` is stated only for a list that holds no tag twice. For example, scanning `[tag 0, tag 0]` with flags `[busy, idle]` reclaims slot 1, and the `set` call also lowers slot 0's flag, so no busy tag is left (`SlotList.DuplicateLosesBusy`).
- `SlotList.ScanMatchesSurvivors` is stated only for a list that holds no tag twice, for the same reason.
- `Registry.Recover` states "newest slot first" only per source, through `SlotList.ScanMatchesSurvivors`. How the budget is split across sources depends on the key order and is left as computed.
- `Registry.Lookup` treats every source name as absent until `get` registers it. In the code, `_tags` is a plain object, so a name such as `"constructor"` reads an inherited function of length 1. `get` then takes the overflow path and throws at the `push` on line 121. Inherited property names are not modelled.
- An error event whose `target.error` is `null` makes the handler throw at line 198. The model takes the error code as an input.
- The model does not track how many elements have been created. `_audioTagCount` counts tags handed to sources minus tags returned unknown, so it does not equal the number of live elements. The model tracks the counter exactly as the code changes it.

## Findings

| source | as written | input that shows it | evidently intended | confidence | as-written member | corrected member |
|---|---|---|---|---|---|---|
| src/soundjs/htmlaudio/HTMLAudioTagPool.js:166-170 | `remove` passes every slot value to `TagPool.set`. A slot deleted by an earlier `remove` passes `undefined`, which is pushed onto the free list once. | `get("a")`, `remove("a")`, `remove("a")`: the free list becomes [tag 0, `undefined`], and the next `TagPool.get` returns `undefined`, whose `parentNode` (line 270) cannot be read | only tags go back to the free list; removing a source twice pools nothing the second time | medium, not executed; it assumes `createjs.indexOf` compares with `===`, and that helper is not part of this model | `AsWritten.RemoveAsWritten`, exhibited by `AsWritten.RemoveTwicePoolsUndefined` | `Registry.Remove`, with `Registry.RemoveTwice` and `Registry.RemovePreservesValid` |
| src/soundjs/htmlaudio/HTMLAudioTagPool.js:212-214 | A deleted overflow slot's flag reads `undefined`, so `!flag` holds. The handler then calls `set(src, undefined)`, which throws when it reads `removeEventListener` of `undefined` (line 142). | `get("a")` three times, `remove("a")`, then a media error with code 4 on a watched tag (Internet Explorer) | deleted slots hold no tag and are passed over | medium, not executed | `AsWritten.RecoverAsWritten`, exhibited by `AsWritten.RecoverAsWrittenThrowsOnDeletedSlot` and `AsWritten.DeletedSlotsReachable` | `Registry.Recover`, with `Registry.RecoverPreservesValid` and `AsWritten.RecoverAsWrittenAgrees` |
