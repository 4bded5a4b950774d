/** The free list of audio tags that are not bound to any source
    (the `TagPool` class of src/soundjs/htmlaudio/HTMLAudioTagPool.js). */
module TagPool {

  /** An HTML audio element, identified by the order in which it was created. */
  type Handle = nat

  /** No value occurs twice in `s`. */
  predicate Distinct<T(==)>(s: seq<T>) {
    forall i, j :: 0 <= i < j < |s| ==> s[i] != s[j]
  }

  /** Pushes `x` onto `free` unless an equal value is already there: the
      `indexOf` test of `TagPool.set`, on any kind of value. */
  function Put<T(==,!new)>(free: seq<T>, x: T): (r: seq<T>)
    ensures x in r
    ensures free <= r && |r| <= |free| + 1
    ensures forall y :: y in r <==> y in free || y == x
  {
    if x in free then free else free + [x]
  }

  /** `Put` keeps a duplicate-free list duplicate-free. */
  lemma PutKeepsDistinct<T(!new)>(free: seq<T>, x: T)
    requires Distinct(free)
    ensures Distinct(Put(free, x))
  {
  }

  /** The pool: the free list, and the id the next created element gets
      (the `document.createElement` of `_createTag`, abstracted). */
  datatype Pool = Pool(free: seq<Handle>, next: Handle)

  /** The pool a page starts with. */
  const Empty: Pool := Pool([], 0)

  /** The free list has no duplicates, and every element in it was created before. */
  predicate Valid(p: Pool) {
    Distinct(p.free) && forall h :: h in p.free ==> h < p.next
  }

  /** An element taken out of the pool, with the pool that remains. */
  datatype Taken = Taken(pool: Pool, tag: Handle)

  /** `_createTag`: a brand-new element, different from every element created before. */
  function Create(p: Pool): (r: Taken)
    ensures r.pool.free == p.free
    ensures p.next <= r.tag < r.pool.next
    ensures Valid(p) ==> r.tag !in p.free && Valid(r.pool)
  {
    Taken(p.(next := p.next + 1), p.next)
  }

  /** `TagPool.get`: the most recently returned element when there is one,
      otherwise a newly created one. */
  function Get(p: Pool): (r: Taken)
    ensures |p.free| > 0 ==> p.free == r.pool.free + [r.tag] && r.pool.next == p.next
    ensures |p.free| == 0 ==> r.pool.free == [] && p.next <= r.tag < r.pool.next
    ensures |r.pool.free| == if |p.free| > 0 then |p.free| - 1 else 0
  {
    if |p.free| == 0 then
      Create(p)
    else
      Taken(p.(free := p.free[..|p.free| - 1]), p.free[|p.free| - 1])
  }

  /** `TagPool.set`: `h` goes back on the free list unless it is already there. */
  function Set(p: Pool, h: Handle): (r: Pool)
    ensures h in r.free && r.next == p.next
    ensures p.free <= r.free
    ensures forall x :: x in r.free <==> x in p.free || x == h
    ensures h in p.free ==> r == p
  {
    p.(free := Put(p.free, h))
  }

  /** Returning an element twice has the same effect as returning it once. */
  lemma SetIdempotent(p: Pool, h: Handle)
    ensures Set(Set(p, h), h) == Set(p, h)
  {
  }

  /** The pool is last in, first out: an element just returned is the next one handed out. */
  lemma GetAfterSet(p: Pool, h: Handle)
    requires h !in p.free
    ensures Get(Set(p, h)) == Taken(p, h)
  {
    assert Set(p, h).free == p.free + [h];
    assert (p.free + [h])[..|p.free|] == p.free;
  }

  /** Returning an element that was created before keeps the pool valid. */
  lemma SetPreservesValid(p: Pool, h: Handle)
    requires Valid(p) && h < p.next
    ensures Valid(Set(p, h))
  {
    PutKeepsDistinct(p.free, h);
  }

  /** Taking an element out keeps the pool valid, and the element was not left behind. */
  lemma GetPreservesValid(p: Pool)
    requires Valid(p)
    ensures Valid(Get(p).pool)
    ensures Get(p).tag < Get(p).pool.next && Get(p).tag !in Get(p).pool.free
  {
    if |p.free| > 0 {
      var r := Get(p);
      assert p.free == r.pool.free + [r.tag];
      forall i, j | 0 <= i < j < |r.pool.free|
        ensures r.pool.free[i] != r.pool.free[j]
      {
        assert r.pool.free[i] == p.free[i] && r.pool.free[j] == p.free[j];
      }
      forall h | h in r.pool.free
        ensures h < r.pool.next
      {
        assert h in p.free;
      }
      assert r.tag in p.free;
    }
  }
}
