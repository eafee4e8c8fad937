/*
 * MemPool: a byte pool with a first-fit free list.  Addresses handed out
 * are offsets into the pool's data block; NULL is None.
 */
module MemoryPool {
  import opened FontTypes

  /** A free range: offset into the pool and size (Chunk = Vec2<size_t>). */
  datatype Chunk = Chunk(off: nat, size: nat)

  /** The first chunk big enough for `s` units, if any. */
  function FirstFit(free: seq<Chunk>, s: nat): (k: Option<nat>)
    ensures k.Some? ==> k.value < |free| && free[k.value].size >= s
    ensures k.Some? ==> forall j :: 0 <= j < k.value ==> free[j].size < s
    ensures k.None? ==> forall j :: 0 <= j < |free| ==> free[j].size < s
    decreases |free|
  {
    if free == [] then None
    else if free[0].size >= s then Some(0)
    else match FirstFit(free[1..], s)
      case None => None
      case Some(k) => Some(k + 1)
  }

  /** FirstFit names the one chunk that fits and has no fitting chunk before it. */
  lemma {:induction false} FirstFitIsFirst(free: seq<Chunk>, s: nat, k: nat)
    requires k < |free| && free[k].size >= s
    requires forall j :: 0 <= j < k ==> free[j].size < s
    ensures FirstFit(free, s) == Some(k)
    decreases k
  {
    if k > 0 {
      FirstFitIsFirst(free[1..], s, k - 1);
    }
  }

  /** The free list after `s` units are taken from the front of chunk k:
      a larger chunk shrinks, an exactly fitting one is removed. */
  function Carve(free: seq<Chunk>, k: nat, s: nat): seq<Chunk>
    requires k < |free| && free[k].size >= s
  {
    if free[k].size > s then free[k := Chunk(free[k].off + s, free[k].size - s)]
    else free[..k] + free[k + 1..]
  }

  /** Units of free space the list describes. */
  function Total(free: seq<Chunk>): nat
  {
    if free == [] then 0 else Total(free[..|free| - 1]) + free[|free| - 1].size
  }

  predicate Apart(a: Chunk, b: Chunk)
  {
    a.off + a.size <= b.off || b.off + b.size <= a.off
  }

  /** No two free chunks overlap. */
  predicate Disjoint(free: seq<Chunk>)
  {
    forall i, j :: 0 <= i < j < |free| ==> Apart(free[i], free[j])
  }

  /** Every free chunk lies inside a pool of `n` units. */
  predicate InPool(free: seq<Chunk>, n: nat)
  {
    forall i :: 0 <= i < |free| ==> free[i].off + free[i].size <= n
  }

  lemma {:induction false} TotalConcat(a: seq<Chunk>, b: seq<Chunk>)
    ensures Total(a + b) == Total(a) + Total(b)
    decreases |b|
  {
    if b == [] {
      assert a + b == a;
    } else {
      var b' := b[..|b| - 1];
      assert (a + b)[..|a + b| - 1] == a + b';
      TotalConcat(a, b');
    }
  }

  lemma {:induction false} TotalSplit(free: seq<Chunk>, k: nat)
    requires k < |free|
    ensures Total(free) == Total(free[..k]) + free[k].size + Total(free[k + 1..])
  {
    assert free == free[..k] + [free[k]] + free[k + 1..];
    TotalConcat(free[..k] + [free[k]], free[k + 1..]);
    TotalConcat(free[..k], [free[k]]);
    assert Total([free[k]]) == free[k].size by {
      assert [free[k]][..0] == [];
    }
  }

  /** An allocation removes exactly `s` units from the free space. */
  lemma {:induction false} CarveReleasesExactly(free: seq<Chunk>, k: nat, s: nat)
    requires k < |free| && free[k].size >= s
    ensures Total(Carve(free, k, s)) + s == Total(free)
  {
    var c := Carve(free, k, s);
    TotalSplit(free, k);
    if free[k].size > s {
      TotalSplit(c, k);
      assert c[..k] == free[..k] && c[k + 1..] == free[k + 1..];
    } else {
      TotalConcat(free[..k], free[k + 1..]);
    }
  }

  /** An allocation keeps the free list disjoint and inside the pool, and the
      range it hands out overlaps no chunk that is still free. */
  lemma {:induction false} CarveKeepsLayout(free: seq<Chunk>, k: nat, s: nat, n: nat)
    requires k < |free| && free[k].size >= s
    requires Disjoint(free) && InPool(free, n)
    ensures Disjoint(Carve(free, k, s)) && InPool(Carve(free, k, s), n)
    ensures free[k].off + s <= n
    ensures forall i :: 0 <= i < |Carve(free, k, s)| ==>
              Apart(Chunk(free[k].off, s), Carve(free, k, s)[i])
  {
    var c := Carve(free, k, s);
    if free[k].size > s {
      forall i | 0 <= i < |c| ensures Apart(Chunk(free[k].off, s), c[i]) {
        if i != k {
          assert Apart(free[k], free[i]) by {
            if i < k { assert Apart(free[i], free[k]); }
          }
        }
      }
      forall i, j | 0 <= i < j < |c| ensures Apart(c[i], c[j]) {
        assert Apart(free[i], free[j]);
      }
    } else {
      assert forall i :: 0 <= i < |c| ==> c[i] == (if i < k then free[i] else free[i + 1]);
      forall i | 0 <= i < |c| ensures Apart(Chunk(free[k].off, s), c[i]) {
        if i < k {
          assert Apart(free[i], free[k]);
        } else {
          assert Apart(free[k], free[i + 1]);
        }
      }
      forall i, j | 0 <= i < j < |c| ensures Apart(c[i], c[j]) {
        var i' := if i < k then i else i + 1;
        var j' := if j < k then j else j + 1;
        assert Apart(free[i'], free[j']);
      }
    }
  }

  /** The single chunk init leaves describes the whole pool. */
  lemma {:induction false} InitialFreeList(n: nat)
    ensures Disjoint([Chunk(0, n)]) && InPool([Chunk(0, n)], n)
    ensures Total([Chunk(0, n)]) == n
  {
    assert [Chunk(0, n)][..0] == [];
  }

  class MemPool {
    /** m_data != NULL */
    var hasData: bool
    var size: nat
    var available: nat
    var free: seq<Chunk>

    constructor ()
      ensures !hasData && size == 0 && available == 0 && free == []
    {
      hasData, size, available, free := false, 0, 0, [];
    }

    /** init(n): allocates the block and appends one free chunk (0, n);
        a chunk list left by an earlier init is not cleared. */
    method Init(n: nat)
      modifies this
      ensures hasData && size == n && available == n
      ensures free == old(free) + [Chunk(0, n)]
    {
      hasData := true;
      size, available := n, n;
      free := free + [Chunk(0, n)];
    }

    /** clear(): releases the block, but only if there is one. */
    method Clear()
      modifies this
      ensures old(hasData) ==> !hasData && size == 0 && available == 0 && free == []
      ensures !old(hasData) ==> unchanged(this)
    {
      if hasData {
        hasData := false;
        size, available := 0, 0;
        free := [];
      }
    }

    /** alloc(s): first fit.  None is the NULL return. */
    method Alloc(s: nat) returns (addr: Option<nat>)
      modifies this
      ensures hasData == old(hasData) && size == old(size) && available == old(available)
      ensures !old(hasData) ==> addr.None? && free == old(free)
      ensures old(hasData) && FirstFit(old(free), s).None? ==> addr.None? && free == old(free)
      ensures old(hasData) && FirstFit(old(free), s).Some? ==>
                var k := FirstFit(old(free), s).value;
                addr == Some(old(free)[k].off) && free == Carve(old(free), k, s)
    {
      if !hasData {
        return None;
      }
      var k := 0;
      while k < |free| && free[k].size < s
        invariant k <= |free|
        invariant forall j :: 0 <= j < k ==> free[j].size < s
      {
        k := k + 1;
      }
      if k == |free| {
        return None;
      }
      FirstFitIsFirst(free, s, k);
      addr := Some(free[k].off);
      if free[k].size > s {
        free := free[k := Chunk(free[k].off + s, free[k].size - s)];
      } else {
        free := free[..k] + free[k + 1..];
      }
    }
  }

  /** A pool that has been initialised once hands out ranges that lie inside
      it and stay clear of whatever is still free. */
  method AllocFromFreshPool(n: nat, s: nat) returns (addr: Option<nat>, pool: MemPool)
    ensures pool.free == (if s <= n then Carve([Chunk(0, n)], 0, s) else [Chunk(0, n)])
    ensures addr.Some? <==> s <= n
    ensures addr.Some? ==> addr.value == 0 && addr.value + s <= n
    ensures Total(pool.free) == if s <= n then n - s else n
  {
    pool := new MemPool();
    pool.Init(n);
    addr := pool.Alloc(s);
    InitialFreeList(n);
    if s <= n {
      CarveReleasesExactly([Chunk(0, n)], 0, s);
    }
  }
}
