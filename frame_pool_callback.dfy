/**
 * The host-built callback object of the Windows.Graphics.Capture bindings.
 *
 * The host builds, from its own memory, an object that Windows treats as a native
 * frame-arrived handler: a frame-pool object whose first word points at a
 * host-built method table (Direct3D11CaptureFramePoolVtbl), whose
 * QueryInterface/AddRef/Release slots are host trampolines, and whose table carries
 * a pointer to the one reference counter shared by every copy of the object. A
 * process-wide registry (generatedDirect3D11CaptureFramePool) maps the address of
 * each constructed object to its method table.
 *
 * Memory is modelled explicitly: `Memory` holds the frame-pool objects (address to
 * their RawVTable word), the method tables (address to their Invoke callback and
 * counter) and the registry. The trampolines are pure step functions over `Memory`
 * whose contracts carry the properties; the class `Process` holds the same state in
 * fields and its methods are proved to perform exactly those steps.
 */
module FramePoolCallback {
  import opened GoWords

  /** A machine address; `Nil` is the null pointer. */
  type Addr = nat

  const Nil: Addr := 0

  /**
   * The status words the QueryInterface trampoline returns: S_OK (0),
   * E_NOINTERFACE (0x80004002) and E_INVALIDARG (0x80070057).
   */
  datatype HResult = S_OK | E_NOINTERFACE | E_INVALIDARG

  /**
   * An interface identifier, compared only by equality. The three the handler
   * answers to are distinguished; every other identifier is some `OtherInterface`.
   */
  datatype InterfaceId = IUnknown | ITypedEventHandler | IAgileObject | OtherInterface(guid: nat)

  /** The interface switch of the QueryInterface trampoline: exactly the three named identifiers. */
  predicate Accepted(iid: InterfaceId)
    ensures Accepted(iid) <==> !iid.OtherInterface?
  {
    iid == IUnknown || iid == ITypedEventHandler || iid == IAgileObject
  }

  /** The handle `syscall.NewCallback` gives for the application's Invoke function. */
  type Callback = nat

  /**
   * A host-built method table: the Invoke slot and the counter every object
   * pointing at this table shares. (The QueryInterface, AddRef and Release slots
   * always hold the same three trampolines and carry no state.)
   */
  datatype Vtbl = Vtbl(invoke: Callback, counter: int)

  /** What the trampoline left in the caller's `*lppvObj` slot. */
  datatype OutParam = Untouched | Wrote(ptr: Addr)

  /** The part of the process's memory the callback objects live in. */
  datatype Memory = Memory(
    objects: map<Addr, Addr>,   // frame-pool object -> its RawVTable word (Nil once torn down)
    vtables: map<Addr, Vtbl>,   // host-built method tables
    registry: map<Addr, Addr>,  // generatedDirect3D11CaptureFramePool: object -> method table
    next: Addr)                 // allocation frontier: no address at or above it is in use

  /**
   * Memory is well formed: every allocated address lies below the frontier, a
   * non-nil RawVTable points at a method table, and every registered object is
   * still in memory and points at exactly the table it was registered with.
   */
  ghost predicate WellFormed(m: Memory) {
    && m.next > Nil
    && Nil !in m.objects
    && Nil !in m.vtables
    && (forall a :: a in m.objects ==> a < m.next && (m.objects[a] == Nil || m.objects[a] in m.vtables))
    && (forall v :: v in m.vtables ==> v < m.next)
    && (forall a :: a in m.registry ==> a in m.objects && m.registry[a] != Nil && m.objects[a] == m.registry[a])
  }

  /** `p` addresses a frame-pool object whose method table has not been cleared. */
  predicate Live(m: Memory, p: Addr) {
    p in m.objects && m.objects[p] != Nil
  }

  /** The shared counter seen through object `p`. */
  function Counter(m: Memory, p: Addr): int
    requires WellFormed(m) && Live(m, p)
  {
    m.vtables[m.objects[p]].counter
  }

  /** The lifetime state of one object: alive with its counter, or torn down. */
  datatype Life = Alive(count: int) | Destroyed

  function LifeOf(m: Memory, p: Addr): Life
    requires WellFormed(m) && p in m.objects
  {
    if m.objects[p] == Nil then Destroyed else Alive(Counter(m, p))
  }

  /** `m2` has the same method tables as `m1` except, possibly, the counter of table `vt`. */
  ghost predicate TablesAgreeExcept(m1: Memory, m2: Memory, vt: Addr) {
    && m2.vtables.Keys == m1.vtables.Keys
    && forall v :: v in m1.vtables ==>
         m2.vtables[v].invoke == m1.vtables[v].invoke && (v != vt ==> m2.vtables[v] == m1.vtables[v])
  }

  /**
   * NewDirect3D11CaptureFramePool: allocate a method table with its counter at 1 and
   * a new object pointing at it, and register the object under its own address.
   */
  function ConstructStep(m: Memory, invoke: Callback): (res: (Memory, Addr))
    requires WellFormed(m)
    ensures WellFormed(res.0)
    ensures res.1 != Nil && res.1 !in m.objects && res.1 in res.0.objects
    ensures LifeOf(res.0, res.1) == Alive(1)
    ensures res.0.objects[res.1] !in m.vtables
    ensures res.0.vtables[res.0.objects[res.1]].invoke == invoke
    ensures res.0.registry.Keys == m.registry.Keys + {res.1}
    ensures forall a :: a in m.registry ==> res.0.registry[a] == m.registry[a]
    ensures forall a :: a in m.objects ==> a in res.0.objects && res.0.objects[a] == m.objects[a]
    ensures forall v :: v in m.vtables ==> v in res.0.vtables && res.0.vtables[v] == m.vtables[v]
    ensures res.0.objects == m.objects[res.1 := res.0.objects[res.1]]
    ensures res.0.vtables == m.vtables[res.0.objects[res.1] := Vtbl(invoke, 1)]
    ensures res.0.registry == m.registry[res.1 := res.0.objects[res.1]]
  {
    var obj, vt := m.next, m.next + 1;
    (Memory(m.objects[obj := vt], m.vtables[vt := Vtbl(invoke, 1)], m.registry[obj := vt], m.next + 2), obj)
  }

  /**
   * The addRef trampoline. A null object is answered with 0; otherwise the counter
   * shared through the object's method table goes up by one and its new value is
   * returned as a uintptr.
   */
  function AddRefStep(m: Memory, p: Addr): (res: (Memory, nat))
    requires WellFormed(m)
    requires p == Nil || Live(m, p)
    ensures WellFormed(res.0)
    ensures p == Nil ==> res == (m, 0)
    ensures p != Nil ==>
      && res.0.objects == m.objects && res.0.registry == m.registry && res.0.next == m.next
      && TablesAgreeExcept(m, res.0, m.objects[p])
      && LifeOf(res.0, p) == Alive(Counter(m, p) + 1)
      && res.1 == Uintptr(Counter(m, p) + 1)
  {
    if p == Nil then (m, 0)
    else
      var vt := m.objects[p];
      var count := m.vtables[vt].counter + 1;
      (m.(vtables := m.vtables[vt := m.vtables[vt].(counter := count)]), Uintptr(count))
  }

  /**
   * The release trampoline. A null object is answered with 0. Otherwise the shared
   * counter goes down by one; if it does not reach 0 its new value is returned and
   * nothing else changes. If it reaches 0 the object's RawVTable is cleared, the
   * registry entry under the object's own address is deleted if there is one, and
   * 0 is returned.
   */
  function ReleaseStep(m: Memory, p: Addr): (res: (Memory, nat))
    requires WellFormed(m)
    requires p == Nil || Live(m, p)
    ensures WellFormed(res.0)
    ensures p == Nil ==> res == (m, 0)
    ensures p != Nil && Counter(m, p) != 1 ==>
      && res.0.objects == m.objects && res.0.registry == m.registry && res.0.next == m.next
      && TablesAgreeExcept(m, res.0, m.objects[p])
      && LifeOf(res.0, p) == Alive(Counter(m, p) - 1)
      && res.1 == Uintptr(Counter(m, p) - 1)
    ensures p != Nil && Counter(m, p) == 1 ==>
      && res.0.objects == m.objects[p := Nil] && res.0.registry == m.registry - {p} && res.0.next == m.next
      && TablesAgreeExcept(m, res.0, m.objects[p])
      && res.0.vtables[m.objects[p]].counter == 0
      && LifeOf(res.0, p) == Destroyed
      && res.1 == 0
  {
    if p == Nil then (m, 0)
    else
      var vt := m.objects[p];
      var count := m.vtables[vt].counter - 1;
      var decremented := m.(vtables := m.vtables[vt := m.vtables[vt].(counter := count)]);
      if count == 0 then
        var registry := if p in decremented.registry then decremented.registry - {p} else decremented.registry;
        (decremented.(objects := decremented.objects[p := Nil], registry := registry), 0)
      else
        (decremented, Uintptr(count))
  }

  /**
   * The queryInterface trampoline. A null or non-dereferenceable object is refused
   * with E_INVALIDARG and the out-parameter is not written. Otherwise nil is written
   * to the out-parameter; for the three accepted interfaces a copy of the object is
   * made at a new address, AddRef is called through the copy, the copy's address is
   * written out and S_OK returned; any other interface gives E_NOINTERFACE.
   *
   * The Go trampoline calls AddRef through the copied method-table pointer without a
   * guard, so for an accepted interface the object must not have been torn down.
   */
  function QueryInterfaceStep(m: Memory, p: Addr, iid: InterfaceId): (res: (Memory, HResult, OutParam))
    requires WellFormed(m)
    requires p in m.objects && Accepted(iid) ==> Live(m, p)
    ensures WellFormed(res.0)
    ensures p !in m.objects ==> res == (m, E_INVALIDARG, Untouched)
    ensures p in m.objects && !Accepted(iid) ==> res == (m, E_NOINTERFACE, Wrote(Nil))
    ensures p in m.objects && Accepted(iid) ==>
      && res.1 == S_OK
      && res.2.Wrote? && res.2.ptr != Nil && res.2.ptr !in m.objects
      && res.0.objects == m.objects[res.2.ptr := m.objects[p]]
      && res.0.registry == m.registry
      && TablesAgreeExcept(m, res.0, m.objects[p])
      && LifeOf(res.0, p) == Alive(Counter(m, p) + 1)
      && LifeOf(res.0, res.2.ptr) == LifeOf(res.0, p)
  {
    if p == Nil then (m, E_INVALIDARG, Untouched)
    else if p !in m.objects then (m, E_INVALIDARG, Untouched)
    else if !Accepted(iid) then (m, E_NOINTERFACE, Wrote(Nil))
    else
      var copy := m.next;
      var withCopy := m.(objects := m.objects[copy := m.objects[p]], next := m.next + 1);
      (AddRefStep(withCopy, copy).0, S_OK, Wrote(copy))
  }

  /**
   * The process: its frame-pool objects, method tables and the registry, updated
   * in place by the constructor function and the three trampolines.
   */
  class Process {
    var objects: map<Addr, Addr>
    var vtables: map<Addr, Vtbl>
    var registry: map<Addr, Addr>
    var next: Addr

    function State(): Memory
      reads this
    {
      Memory(objects, vtables, registry, next)
    }

    ghost predicate Valid()
      reads this
    {
      WellFormed(State())
    }

    /** Process start: the registry is the empty package-level map. */
    constructor ()
      ensures Valid()
      ensures objects == map[] && vtables == map[] && registry == map[]
    {
      objects, vtables, registry, next := map[], map[], map[], 1;
    }

    method NewFramePool(invoke: Callback) returns (obj: Addr)
      requires Valid()
      modifies this
      ensures Valid()
      ensures (State(), obj) == ConstructStep(old(State()), invoke)
    {
      var vt := next + 1;
      obj := next;
      vtables := vtables[vt := Vtbl(invoke, 1)];
      objects := objects[obj := vt];
      registry := registry[obj := vt];
      next := next + 2;
    }

    method AddRef(p: Addr) returns (r: nat)
      requires Valid()
      requires p == Nil || Live(State(), p)
      modifies this
      ensures Valid()
      ensures (State(), r) == AddRefStep(old(State()), p)
    {
      if p == Nil {
        return 0;
      }
      var vt := objects[p];
      vtables := vtables[vt := vtables[vt].(counter := vtables[vt].counter + 1)];
      r := Uintptr(vtables[vt].counter);
    }

    method Release(p: Addr) returns (r: nat)
      requires Valid()
      requires p == Nil || Live(State(), p)
      modifies this
      ensures Valid()
      ensures (State(), r) == ReleaseStep(old(State()), p)
    {
      if p == Nil {
        return 0;
      }
      var vt := objects[p];
      vtables := vtables[vt := vtables[vt].(counter := vtables[vt].counter - 1)];
      if vtables[vt].counter == 0 {
        objects := objects[p := Nil];
        if p in registry {
          registry := registry - {p};
        }
        return 0;
      }
      r := Uintptr(vtables[vt].counter);
    }

    method QueryInterface(p: Addr, iid: InterfaceId) returns (hr: HResult, out: OutParam)
      requires Valid()
      requires p in objects && Accepted(iid) ==> Live(State(), p)
      modifies this
      ensures Valid()
      ensures (State(), hr, out) == QueryInterfaceStep(old(State()), p, iid)
    {
      if p == Nil {
        return E_INVALIDARG, Untouched;
      }
      if p !in objects {
        return E_INVALIDARG, Untouched;
      }
      out := Wrote(Nil);
      if !Accepted(iid) {
        return E_NOINTERFACE, out;
      }
      var copy := next;
      objects, next := objects[copy := objects[p]], next + 1;
      var count := AddRef(copy);
      hr, out := S_OK, Wrote(copy);
    }
  }
}
