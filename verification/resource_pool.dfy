/** The index allocator of service/cpplib/system/resourcepool.cpp. Its free list is threaded through
    the array that also marks the applied slots. */
module ResourcePool {
  const NPOS: nat := 0xffff_ffff_ffff_ffff
  const APPLIED: nat := 0xffff_ffff_ffff_ffff
  const ENDING: nat := 0xffff_ffff_ffff_fffe

  // ---- The free list ----

  function First(chain: seq<nat>): nat {
    if chain == [] then ENDING else chain[0]
  }

  function After(chain: seq<nat>, k: nat): nat {
    if k + 1 < |chain| then chain[k + 1] else ENDING
  }

  predicate Distinct(s: seq<nat>) {
    forall j, k :: 0 <= j < k < |s| ==> s[j] != s[k]
  }

  predicate Linked(cells: seq<nat>, chain: seq<nat>, k: nat)
    requires k < |chain|
  {
    chain[k] < |cells| && cells[chain[k]] == After(chain, k)
  }

  /** `chain` is threaded through `cells` from `next`, and every other cell is marked applied. */
  predicate Threaded(cells: seq<nat>, next: nat, chain: seq<nat>) {
    && |cells| < ENDING
    && next == First(chain)
    && Distinct(chain)
    && (forall k :: 0 <= k < |chain| ==> Linked(cells, chain, k))
    && (forall i :: 0 <= i < |cells| ==> (cells[i] == APPLIED <==> i !in chain))
  }

  /** The indices met by following the cells from `at`. */
  function Walk(cells: seq<nat>, at: nat, steps: nat): seq<nat>
    decreases steps
  {
    if steps == 0 || at >= |cells| then [] else [at] + Walk(cells, cells[at], steps - 1)
  }

  /** Following the cells from `next` ends, and gives the chain: it is determined by the array. */
  lemma WalkIsChain(cells: seq<nat>, next: nat, chain: seq<nat>, steps: nat)
    requires Threaded(cells, next, chain) && steps >= |chain|
    ensures Walk(cells, next, steps) == chain
  {
    if chain == [] {
      assert next >= |cells|;
    } else {
      WalkFrom(cells, next, chain, 0, steps);
    }
  }

  lemma ThreadedAt(cells: seq<nat>, next: nat, chain: seq<nat>, k: nat)
    requires Threaded(cells, next, chain) && k < |chain|
    ensures chain[k] < |cells| < ENDING && cells[chain[k]] == After(chain, k)
  {
    assert Linked(cells, chain, k);
  }

  lemma InRange(cells: seq<nat>, next: nat, chain: seq<nat>)
    requires Threaded(cells, next, chain)
    ensures forall k :: 0 <= k < |chain| ==> chain[k] < |cells|
    ensures next == ENDING <==> chain == []
  {
    forall k | 0 <= k < |chain|
      ensures chain[k] < |cells|
    {
      ThreadedAt(cells, next, chain, k);
    }
  }

  lemma {:induction false} WalkFrom(cells: seq<nat>, next: nat, chain: seq<nat>, k: nat, steps: nat)
    requires Threaded(cells, next, chain) && k < |chain| <= k + steps
    ensures Walk(cells, chain[k], steps) == chain[k..]
    decreases |chain| - k
  {
    hide Threaded;
    ThreadedAt(cells, next, chain, k);
    var rest := Walk(cells, cells[chain[k]], steps - 1);
    assert Walk(cells, chain[k], steps) == [chain[k]] + rest;
    if k + 1 < |chain| {
      assert cells[chain[k]] == chain[k + 1];
      WalkFrom(cells, next, chain, k + 1, steps - 1);
    } else {
      assert cells[chain[k]] >= |cells|;
    }
  }

  lemma {:induction false} DistinctBelow(s: seq<nat>, n: nat)
    requires Distinct(s) && forall k :: 0 <= k < |s| ==> s[k] < n
    ensures |s| <= n
    ensures |s| == n ==> forall i :: 0 <= i < n ==> i in s
    decreases n
  {
    assert s != [] ==> s[0] < n;
    if n == 0 {
      assert s == [];
    } else if n - 1 in s {
      var k :| 0 <= k < |s| && s[k] == n - 1;
      var r := s[..k] + s[k + 1..];
      DistinctBelow(r, n - 1);
      assert forall i :: i in r ==> i in s;
    } else {
      DistinctBelow(s, n - 1);
    }
  }

  lemma DistinctRest(s: seq<nat>)
    requires s != [] && Distinct(s)
    ensures Distinct(s[1..]) && s[0] !in s[1..]
  {
    assert forall k :: 0 <= k < |s[1..]| ==> s[1..][k] == s[k + 1];
  }

  lemma DistinctMore(i: nat, s: seq<nat>)
    requires Distinct(s) && i !in s
    ensures Distinct([i] + s)
  {
    assert forall k :: 1 <= k < |[i] + s| ==> ([i] + s)[k] == s[k - 1];
  }

  lemma TakeKeeps(cells: seq<nat>, next: nat, chain: seq<nat>)
    requires Threaded(cells, next, chain) && chain != []
    ensures next < |cells| && Threaded(cells[next := APPLIED], cells[next], chain[1..])
  {
    hide Distinct;
    ThreadedAt(cells, next, chain, 0);
    var rest, cells' := chain[1..], cells[next := APPLIED];
    DistinctRest(chain);
    forall k | 0 <= k < |rest|
      ensures Linked(cells', rest, k)
    {
      ThreadedAt(cells, next, chain, k + 1);
      assert rest[k] == chain[k + 1] && rest[k] in rest;
    }
    forall j | 0 <= j < |cells'|
      ensures cells'[j] == APPLIED <==> j !in rest
    {
      assert chain == [next] + rest;
    }
  }

  lemma GiveKeeps(cells: seq<nat>, next: nat, chain: seq<nat>, i: nat)
    requires Threaded(cells, next, chain) && i < |cells| && cells[i] == APPLIED
    ensures Threaded(cells[i := next], i, [i] + chain)
  {
    hide Distinct;
    var more, cells' := [i] + chain, cells[i := next];
    assert i !in chain;
    DistinctMore(i, chain);
    assert After(more, 0) == First(chain);
    forall k | 0 <= k < |more|
      ensures Linked(cells', more, k)
    {
      if k > 0 {
        ThreadedAt(cells, next, chain, k - 1);
        assert more[k] == chain[k - 1] && chain[k - 1] in chain;
      }
    }
    if chain != [] {
      ThreadedAt(cells, next, chain, 0);
    }
    assert next != APPLIED;
    forall j | 0 <= j < |cells'|
      ensures cells'[j] == APPLIED <==> j !in more
    {
    }
  }

  lemma FreshIsThreaded(cells: seq<nat>)
    requires 0 < |cells| < ENDING
    requires forall k :: 0 <= k < |cells| ==> cells[k] == if k + 1 < |cells| then k + 1 else ENDING
    ensures Threaded(cells, 0, Upto(|cells|))
  {
    UptoIsAll(|cells|);
  }

  // ---- The pool a caller sees ----

  /** `free` lists the free indices in the order in which they will be granted. */
  datatype Pool = Pool(locked: bool, total: nat, free: seq<nat>)

  predicate Sound(p: Pool) {
    Distinct(p.free) && forall k :: 0 <= k < |p.free| ==> p.free[k] < p.total
  }

  function Upto(n: nat): (s: seq<nat>)
    ensures |s| == n
  {
    seq(n, i => i)
  }

  function Fresh(locked: bool, n: nat): Pool {
    Pool(locked, n, Upto(n))
  }

  /** getIndexWithoutLock. */
  predicate CanTake(p: Pool) {
    !p.locked && p.free != []
  }

  function Take(p: Pool): Pool
    requires CanTake(p)
  {
    p.(free := p.free[1..])
  }

  /** release. */
  function Give(p: Pool, i: nat): Pool {
    if i < p.total && i !in p.free then p.(free := [i] + p.free) else p
  }

  class IndexPool {
    var lockedAll: bool
    var cells: array?<nat>
    var freeCount: nat
    var totalCount: nat
    var nextAvailable: nat

    ghost var Chain: seq<nat>

    ghost predicate Valid()
      reads this, cells
    {
      && freeCount == |Chain|
      && if cells == null then totalCount == 0 && nextAvailable == ENDING && Chain == []
         else cells.Length == totalCount > 0 && Threaded(cells[..], nextAvailable, Chain)
    }

    ghost function View(): Pool
      reads this
    {
      Pool(lockedAll, totalCount, Chain)
    }

    constructor (size: nat)
      requires size < ENDING
      ensures Valid() && View() == Fresh(false, size)
      ensures cells != null ==> fresh(cells)
    {
      lockedAll, cells, freeCount, totalCount, nextAvailable := false, null, 0, 0, ENDING;
      Chain := [];
      new;
      if size > 0 {
        var _ := ResizeWithoutLock(lockedAll, size);
      }
    }

    method GetIndexWithoutLock() returns (index: nat)
      requires Valid()
      modifies this, cells
      ensures Valid() && cells == old(cells)
      ensures if CanTake(old(View())) then index == old(View()).free[0] && View() == Take(old(View()))
              else index == NPOS && View() == old(View())
    {
      if cells != null {
        InRange(cells[..], nextAvailable, Chain);
      }
      if lockedAll || cells == null || freeCount == 0 || nextAvailable == ENDING {
        return NPOS;
      }
      TakeKeeps(cells[..], nextAvailable, Chain);
      index := nextAvailable;
      nextAvailable := cells[index];
      cells[index] := APPLIED;
      freeCount := freeCount - 1;
      Chain := Chain[1..];
    }

    method ClearWithoutLock(lockAll: bool)
      modifies this
      ensures Valid() && cells == null && View() == Pool(lockAll, 0, [])
    {
      lockedAll := lockAll;
      cells := null;
      freeCount, totalCount := 0, 0;
      nextAvailable := ENDING;
      Chain := [];
    }

    method ResizeWithoutLock(lockAll: bool, size: nat) returns (ok: bool)
      requires size < ENDING
      modifies this
      ensures Valid() && ok && View() == Fresh(lockAll, size)
      ensures cells != null ==> fresh(cells)
    {
      hide Threaded;
      ClearWithoutLock(lockAll);
      if size > 0 {
        cells := NewCells(size);
        freeCount, totalCount := size, size;
        nextAvailable := 0;
        Chain := Upto(size);
      } else {
        assert Upto(0) == [];
      }
      return true;
    }

    /** A new array in which each cell leads to the next one. */
    static method NewCells(size: nat) returns (slots: array<nat>)
      requires 0 < size < ENDING
      ensures fresh(slots) && slots.Length == size && Threaded(slots[..], 0, Upto(size))
    {
      hide Threaded;
      slots := new nat[size];
      for i := 0 to size
        invariant forall k :: 0 <= k < i ==> slots[k] == k + 1
      {
        slots[i] := i + 1;
      }
      slots[size - 1] := ENDING;
      FreshIsThreaded(slots[..]);
    }

    /** One pass of the loop of apply: `wait` when the caller has to wait for a release. */
    method ApplyPass() returns (wait: bool, index: nat)
      requires Valid()
      modifies this, cells
      ensures Valid() && cells == old(cells)
      ensures if CanTake(old(View())) then !wait && index == old(View()).free[0] && View() == Take(old(View()))
              else index == NPOS && View() == old(View()) && (wait <==> !lockedAll && totalCount > 0)
    {
      if lockedAll || cells == null {
        return false, NPOS;
      }
      InRange(cells[..], nextAvailable, Chain);
      index := GetIndexWithoutLock();
      wait := index == NPOS;
    }

    method Release(index: nat)
      requires Valid()
      modifies this, cells
      ensures Valid() && cells == old(cells)
      ensures View() == Give(old(View()), index)
    {
      if cells != null {
        InRange(cells[..], nextAvailable, Chain);
      }
      if index < totalCount && cells[index] == APPLIED {
        GiveKeeps(cells[..], nextAvailable, Chain, index);
        cells[index] := nextAvailable;
        nextAvailable := index;
        freeCount := freeCount + 1;
        Chain := [index] + Chain;
      }
    }

    /** One pass of the loops of resize, lockAll and lockAllAndResize. */
    method AllFree() returns (b: bool)
      requires Valid()
      ensures b <==> |View().free| == View().total
    {
      b := !(freeCount < totalCount);
      if cells != null {
        InRange(cells[..], nextAvailable, Chain);
        DistinctBelow(Chain, totalCount);
      }
    }

    method ReleaseAll()
      requires Valid()
      modifies this`lockedAll
      ensures Valid() && View() == old(View()).(locked := false)
    {
      lockedAll := false;
    }
  }

  lemma UptoIsAll(n: nat)
    ensures forall i: nat :: i in Upto(n) <==> i < n
  {
    forall i: nat
      ensures i in Upto(n) <==> i < n
    {
      if i < n {
        assert Upto(n)[i] == i;
      }
    }
  }
}
