/** Ownership of physical frames, as the frame allocator's bitmaps record it. */
module Frames {
  import opened Arithmetic
  import opened Bytes

  const BLOCK_SIZE: nat := 0x1000
  const MAX_BLOCKS: nat := 0x10_0000
  const LOW_MEMORY_BLOCKS: nat := 0x100
  const USER_MIN_BLOCK: nat := 0x400
  const USER_MAX_BLOCKS: nat := 0x1_0000

  /**
   * `used` frames are not to be handed out, `usable` ones are managed, `owned` ones were handed out for user
   * pages and `mapped` ones have been claimed by a user page-table entry. Frames from `detected` on do not exist.
   */
  datatype Frames = Frames(used: set<nat>, usable: set<nat>, owned: set<nat>, mapped: set<nat>, detected: nat)

  /** Managed frames are detected ones above low memory, and every other frame is marked used. */
  predicate Managed(f: Frames) {
    && f.detected <= MAX_BLOCKS
    && (forall b :: b in f.usable ==> LOW_MEMORY_BLOCKS <= b < f.detected)
    && (forall b :: 0 <= b < MAX_BLOCKS ==> b in f.used || b in f.usable)
  }

  predicate Valid(f: Frames) {
    && Managed(f)
    && f.owned <= f.used * f.usable
    && (forall b :: b in f.owned ==> USER_MIN_BLOCK <= b < USER_MAX_BLOCKS)
    && f.mapped <= f.owned
  }

  predicate Available(f: Frames, b: nat, managedOnly: bool) {
    b !in f.used && (managedOnly ==> b in f.usable)
  }

  /** The lowest frame in [lo, hi) that is not in use. */
  function FirstFree(f: Frames, lo: nat, hi: nat, managedOnly: bool): (r: Option<nat>)
    ensures r.Some? ==> lo <= r.value < hi && Available(f, r.value, managedOnly)
    ensures forall b :: lo <= b < (if r.Some? then r.value else hi) ==> !Available(f, b, managedOnly)
    decreases hi - lo
  {
    if lo >= hi then None else if Available(f, lo, managedOnly) then Some(lo) else FirstFree(f, lo + 1, hi, managedOnly)
  }

  function AllocBelow(f: Frames, limit: u32): (Frames, Option<nat>) {
    match FirstFree(f, LOW_MEMORY_BLOCKS, Min(limit / BLOCK_SIZE, f.detected), false)
    case None => (f, None)
    case Some(b) => (f.(used := f.used + {b}, owned := f.owned - {b}), Some(b))
  }

  function AllocUser(f: Frames): (Frames, Option<nat>) {
    match FirstFree(f, USER_MIN_BLOCK, Min(f.detected, USER_MAX_BLOCKS), true)
    case None => (f, None)
    case Some(b) => (f.(used := f.used + {b}, owned := f.owned + {b}), Some(b))
  }

  predicate UserOwned(f: Frames, b: nat) {
    b < f.detected && b < USER_MAX_BLOCKS && b in f.usable && b in f.used && b in f.owned
  }

  function Claim(f: Frames, b: nat): (Frames, bool) {
    if !UserOwned(f, b) || b in f.mapped then (f, false) else (f.(mapped := f.mapped + {b}), true)
  }

  function Release(f: Frames, b: nat): Frames {
    f.(mapped := f.mapped - {b})
  }

  function Free(f: Frames, b: nat): Frames {
    if b < LOW_MEMORY_BLOCKS || b >= f.detected || b !in f.usable || b !in f.used || b in f.mapped then f
    else f.(used := f.used - {b}, owned := f.owned - {b})
  }

  /** A frame above low memory, below a limit and in no use. */
  predicate FreeBelow(f: Frames, limit: u32, b: nat) {
    0x100 <= b < f.detected && b < limit / 0x1000 && b !in f.used
  }

  /** A managed frame in no use, from 4 MiB up to 256 MiB. */
  predicate FreeForUser(f: Frames, b: nat) {
    0x400 <= b < f.detected && b < 0x1_0000 && b in f.usable && b !in f.used
  }

  /** An allocation hands out the lowest frame there is for it, and fails exactly when there is none. */
  lemma AllocsLowest(f: Frames, limit: u32)
    ensures AllocBelow(f, limit).1.None? <==> forall b: nat :: !FreeBelow(f, limit, b)
    ensures AllocBelow(f, limit).1.Some? ==>
              var a := AllocBelow(f, limit).1.value; FreeBelow(f, limit, a) && forall b: nat :: FreeBelow(f, limit, b) ==> a <= b
    ensures AllocUser(f).1.None? <==> forall b: nat :: !FreeForUser(f, b)
    ensures AllocUser(f).1.Some? ==> var a := AllocUser(f).1.value; FreeForUser(f, a) && forall b: nat :: FreeForUser(f, b) ==> a <= b
  {
    forall b: nat | FreeBelow(f, limit, b) ensures Available(f, b, false) {
    }
    forall b: nat | FreeForUser(f, b) ensures Available(f, b, true) {
    }
    var low, user := AllocBelow(f, limit).1, AllocUser(f).1;
    assert low.Some? ==> Available(f, low.value, false) && FreeBelow(f, limit, low.value);
    assert user.Some? ==> Available(f, user.value, true) && FreeForUser(f, user.value);
  }

  /** A frame can be claimed exactly when it is owned and not claimed yet, and freed when it is managed, used and unclaimed. */
  lemma ClaimsAndFrees(f: Frames, b: nat)
    requires Valid(f)
    ensures Claim(f, b) == if b in f.owned && b !in f.mapped then (f.(mapped := f.mapped + {b}), true) else (f, false)
    ensures Free(f, b) == if b in f.usable * f.used - f.mapped then f.(used := f.used - {b}, owned := f.owned - {b}) else f
  {
  }

  /** What is handed out was managed, free and unclaimed, and the bitmaps stay consistent. */
  lemma AllocBelowValid(f: Frames, limit: u32)
    requires Valid(f)
    ensures Valid(AllocBelow(f, limit).0)
    ensures AllocBelow(f, limit).1.Some? ==> var a := AllocBelow(f, limit).1.value; a in f.usable && a !in f.used && a !in f.mapped
  {
  }

  lemma AllocUserValid(f: Frames)
    requires Valid(f)
    ensures Valid(AllocUser(f).0)
    ensures AllocUser(f).1.Some? ==>
              var a := AllocUser(f).1.value;
              a in f.usable && a !in f.used && a !in f.mapped && UserOwned(AllocUser(f).0, a)
  {
  }

  lemma ClaimValid(f: Frames, b: nat)
    requires Valid(f)
    ensures Valid(Claim(f, b).0) && Valid(Release(f, b))
  {
  }

  lemma FreeValid(f: Frames, b: nat)
    requires Valid(f)
    ensures Valid(Free(f, b))
  {
  }

  /** Freeing a frame just handed out gives back the same bitmaps. */
  lemma AllocThenFree(f: Frames, limit: u32)
    requires Valid(f)
    ensures AllocBelow(f, limit).1.Some? ==> Free(AllocBelow(f, limit).0, AllocBelow(f, limit).1.value) == f
    ensures AllocUser(f).1.Some? ==> Free(AllocUser(f).0, AllocUser(f).1.value) == f
  {
    var (g, r) := AllocBelow(f, limit);
    if r.Some? {
      assert f.used + {r.value} - {r.value} == f.used && f.owned - {r.value} == f.owned;
    }
    var (h, u) := AllocUser(f);
    if u.Some? {
      assert f.used + {u.value} - {u.value} == f.used && f.owned + {u.value} - {u.value} == f.owned;
    }
  }
}
