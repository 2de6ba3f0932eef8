/**
 * Multi-call properties of the frame-pool callback object: sequences of
 * addRef/release calls, the counter shared with the copies QueryInterface hands
 * out, and what happens when the last reference is released through such a copy.
 */
module FramePoolLifetime {
  import opened GoWords
  import opened FramePoolCallback

  /** `k` successive addRef calls through object `p`. */
  function AddRefTimes(m: Memory, p: Addr, k: nat): (r: Memory)
    requires WellFormed(m) && Live(m, p)
    ensures WellFormed(r) && Live(r, p)
    ensures Counter(r, p) == Counter(m, p) + k
    ensures r.objects == m.objects && r.registry == m.registry && r.next == m.next
    ensures TablesAgreeExcept(m, r, m.objects[p])
    decreases k
  {
    if k == 0 then m else AddRefTimes(AddRefStep(m, p).0, p, k - 1)
  }

  /**
   * `k` successive release calls through object `p`, which holds at least `k`
   * references. The object stays registered and alive, with its count down by
   * `k`, until the call that brings the count to 0; that call clears it and drops
   * its registry entry.
   */
  function ReleaseTimes(m: Memory, p: Addr, k: nat): (r: Memory)
    requires WellFormed(m)
    requires k > 0 ==> Live(m, p) && Counter(m, p) >= k
    ensures WellFormed(r) && r.next == m.next
    ensures k > 0 ==> TablesAgreeExcept(m, r, m.objects[p])
    ensures k > 0 && k < Counter(m, p) ==>
      r.objects == m.objects && r.registry == m.registry && LifeOf(r, p) == Alive(Counter(m, p) - k)
    ensures k > 0 && k == Counter(m, p) ==>
      r.objects == m.objects[p := Nil] && r.registry == m.registry - {p} && LifeOf(r, p) == Destroyed
      && r.vtables[m.objects[p]].counter == 0
    decreases k
  {
    if k == 0 then m else ReleaseTimes(ReleaseStep(m, p).0, p, k - 1)
  }

  /**
   * After construction and `k` addRef calls, the object is deregistered by exactly
   * the (k+1)-th release: it is registered after each of the first `k` releases and
   * not after the last one, which leaves the registry as it was before construction.
   */
  lemma BalancedReleasesDeregisterOnce(m: Memory, invoke: Callback, k: nat, j: nat)
    requires WellFormed(m)
    requires j <= k + 1
    ensures var (built, obj) := ConstructStep(m, invoke);
            var held := AddRefTimes(built, obj, k);
            var released := ReleaseTimes(held, obj, j);
            && Counter(held, obj) == k + 1
            && (obj in released.registry <==> j <= k)
            && (j <= k ==> LifeOf(released, obj) == Alive(k + 1 - j))
            && (j == k + 1 ==> LifeOf(released, obj) == Destroyed && released.registry == m.registry)
  {
    var (built, obj) := ConstructStep(m, invoke);
    assert obj !in m.registry;
    var held := AddRefTimes(built, obj, k);
    assert held.registry == m.registry[obj := built.objects[obj]];
    assert Counter(held, obj) == k + 1;
    var released := ReleaseTimes(held, obj, j);
    if j == 0 {
      assert released == held;
    } else if j <= k {
      assert released.registry == held.registry;
    } else {
      assert released.registry == held.registry - {obj};
      assert held.registry - {obj} == m.registry;
    }
  }

  /**
   * addRef followed by release through the same object restores memory exactly,
   * and release answers the count from before the pair, unless the count was 0
   * (then the pair tears the object down).
   */
  lemma AddRefThenReleaseRestores(m: Memory, p: Addr)
    requires WellFormed(m)
    requires p == Nil || (Live(m, p) && Counter(m, p) != 0)
    ensures var (raised, up) := AddRefStep(m, p);
            var (lowered, down) := ReleaseStep(raised, p);
            lowered == m && (p != Nil ==> up == Uintptr(Counter(m, p) + 1) && down == Uintptr(Counter(m, p)))
  {
  }

  /**
   * The copy QueryInterface hands out shares the original's counter: an addRef
   * through the copy is seen through the original.
   */
  lemma CopySharesCounter(m: Memory, p: Addr, iid: InterfaceId)
    requires WellFormed(m) && Live(m, p) && Accepted(iid)
    ensures var (answered, hr, out) := QueryInterfaceStep(m, p, iid);
            && hr == S_OK && out.Wrote? && out.ptr != p && Live(answered, out.ptr)
            && var raised := AddRefStep(answered, out.ptr).0;
               LifeOf(raised, p) == LifeOf(raised, out.ptr) == Alive(Counter(m, p) + 2)
  {
  }

  /**
   * A successful QueryInterface followed by release through the returned copy
   * gives back the original's count, method tables and registry; only the (now
   * unreferenced) copy remains in memory.
   */
  lemma QueryInterfaceThenReleaseCopy(m: Memory, p: Addr, iid: InterfaceId)
    requires WellFormed(m) && Live(m, p) && Accepted(iid) && Counter(m, p) != 0
    ensures var (answered, hr, out) := QueryInterfaceStep(m, p, iid);
            && out.Wrote? && Live(answered, out.ptr)
            && var (lowered, down) := ReleaseStep(answered, out.ptr);
               && lowered.registry == m.registry && lowered.vtables == m.vtables
               && LifeOf(lowered, p) == LifeOf(m, p)
               && lowered.objects == m.objects[out.ptr := m.objects[p]]
               && down == Uintptr(Counter(m, p))
  {
  }

  /**
   * As written: when the last reference is released through the copy that
   * QueryInterface returned, only the copy is cleared. Both references the object
   * ever had are released, yet the original stays registered and keeps a
   * non-nil method table whose counter is 0.
   */
  lemma LastReleaseThroughCopyKeepsEntry(m: Memory, invoke: Callback)
    requires WellFormed(m)
    ensures var (built, obj) := ConstructStep(m, invoke);
            var (answered, hr, out) := QueryInterfaceStep(built, obj, IUnknown);
            && hr == S_OK && out.Wrote? && out.ptr != obj
            && var (afterFirst, first) := ReleaseStep(answered, obj);
               && Live(afterFirst, out.ptr)
               && var (afterLast, last) := ReleaseStep(afterFirst, out.ptr);
                  && first == 1 && last == 0
                  && LifeOf(afterLast, out.ptr) == Destroyed
                  && obj in afterLast.registry
                  && LifeOf(afterLast, obj) == Alive(0)
  {
  }

  /**
   * QueryInterface as the COM identity rule has it: on success the same address
   * is written out, after one addRef through it. Error cases are as in
   * `QueryInterfaceStep`.
   */
  function QueryInterfaceSameAddress(m: Memory, p: Addr, iid: InterfaceId): (res: (Memory, HResult, OutParam))
    requires WellFormed(m)
    requires p in m.objects && Accepted(iid) ==> Live(m, p)
    ensures WellFormed(res.0)
    ensures p !in m.objects ==> res == (m, E_INVALIDARG, Untouched)
    ensures p in m.objects && !Accepted(iid) ==> res == (m, E_NOINTERFACE, Wrote(Nil))
    ensures p in m.objects && Accepted(iid) ==>
      && res.1 == S_OK && res.2 == Wrote(p)
      && res.0.objects == m.objects && res.0.registry == m.registry && res.0.next == m.next
      && TablesAgreeExcept(m, res.0, m.objects[p])
      && LifeOf(res.0, p) == Alive(Counter(m, p) + 1)
  {
    if p == Nil || p !in m.objects then (m, E_INVALIDARG, Untouched)
    else if !Accepted(iid) then (m, E_NOINTERFACE, Wrote(Nil))
    else (AddRefStep(m, p).0, S_OK, Wrote(p))
  }

  /**
   * With the same-address QueryInterface, releasing the handed-out reference and
   * then the creator's reference deregisters the object and leaves
   * the registry as it was before construction.
   */
  lemma SameAddressReleasesDeregister(m: Memory, invoke: Callback, iid: InterfaceId)
    requires WellFormed(m) && Accepted(iid)
    ensures var (built, obj) := ConstructStep(m, invoke);
            var (answered, hr, out) := QueryInterfaceSameAddress(built, obj, iid);
            && hr == S_OK && out == Wrote(obj)
            && var afterFirst := ReleaseStep(answered, out.ptr).0;
               && Live(afterFirst, obj)
               && var afterLast := ReleaseStep(afterFirst, obj).0;
                  && LifeOf(afterLast, obj) == Destroyed
                  && afterLast.registry == m.registry
  {
  }
}
