# Frame-pool callback object of the Windows.Graphics.Capture bindings

The Go bindings in `winrt/Windows.Graphics.Capture.go` build one object that Windows
calls back into: the frame-arrived handler made by `NewDirect3D11CaptureFramePool`. It
is host memory that looks like a native COM/WinRT object. The object's first word points
at a method table (`Direct3D11CaptureFramePoolVtbl`). Slots 0 to 2 of that table hold
the host trampolines `queryInterface`, `addRef` and `release`. The table also holds a
pointer to the one reference counter that every copy of the object shares. The
package-level map `generatedDirect3D11CaptureFramePool` registers each constructed object
under its address.

This project models that object and its lifetime protocol. It also models how `Create`
and `CreateFreeThreaded` pass a `SizeInt32` as one machine word.

- `go_words.dfy`, module `GoWords`. It holds Go's `uintptr(x)` conversion, shared by the
  trampolines' return values and the size packing.
- `frame_pool_callback.dfy`, module `FramePoolCallback`. It models memory explicitly as
  a `Memory` value:
  - frame-pool objects, mapped to their RawVTable word (`Nil` after teardown);
  - method tables, each with its Invoke callback and shared counter;
  - the registry;
  - an allocation frontier.

  The constructor function and the three trampolines are pure step functions over
  `Memory`, and their contracts state the protocol. The class `Process` holds the same
  state in fields. Its methods update those fields in place and are proved to perform
  exactly those steps. `WellFormed` is the invariant every step keeps: a registered
  object is always still in memory and points at its registered method table.
- `frame_pool_lifetime.dfy`, module `FramePoolLifetime`. It covers sequences of calls:
  - repeated addRef and release;
  - the exact release that deregisters an object;
  - addRef/release pairs;
  - the counter shared with the copies that QueryInterface hands out;
  - the two halves of the first finding below.
- `size_packing.dfy`, module `SizePacking`. It models the width/height word with Go's
  64-bit wrap-around and sign extension, and holds the two halves of the second finding.

How the code behaves, measured against COM's published rules:
- `addRef` and `release` never consult the registry before they dereference the address
  they receive. They go straight through the object to its method table and counter.
  `release` reads the registry only after the count has reached 0 (line 283), to decide
  whether there is an entry under that address to delete.
- COM requires QueryInterface for IUnknown to return the same pointer every time. This
  code returns a copy of the object at a new address. The copy shares the method table,
  and with it the counter (see Findings).
- COM destroys an object when its count reaches 0. Here only the object the last
  `release` went through is cleared and deregistered. When that object is a copy, the
  original keeps its method table with count 0 (see Findings).

## Model

| member | source | states |
|---|---|---|
| FramePoolCallback.Process.constructor | winrt/Windows.Graphics.Capture.go:126 | the process starts with an empty registry and no callback objects |
| FramePoolCallback.ConstructStep | winrt/Windows.Graphics.Capture.go:181-198 | construction returns a new non-nil address whose object is Alive(1), with a new method table of its own that holds the given Invoke callback; objects, tables and registry each gain exactly that one entry and nothing else; every other object, table and registry entry is unchanged |
| FramePoolCallback.Process.NewFramePool | winrt/Windows.Graphics.Capture.go:181-198 | the in-place constructor performs exactly `ConstructStep` and keeps memory well formed |
| FramePoolCallback.AddRefStep | winrt/Windows.Graphics.Capture.go:260-270 | a nil object gives 0 and no change; otherwise the shared counter goes from n to n+1, the result is n+1 as a uintptr, and objects, registry and every other table are unchanged |
| FramePoolCallback.Process.AddRef | winrt/Windows.Graphics.Capture.go:260-270 | the in-place addRef performs exactly `AddRefStep` and keeps memory well formed |
| FramePoolCallback.ReleaseStep | winrt/Windows.Graphics.Capture.go:272-292 | a nil object gives 0 and no change. A count n other than 1 becomes n-1 and is returned, with the table pointer and the registry entry left in place. A count of 1 becomes 0: the object's RawVTable is cleared (Destroyed), the registry entry under its own address is removed if present, nothing else changes, and 0 is returned |
| FramePoolCallback.Process.Release | winrt/Windows.Graphics.Capture.go:272-292 | the in-place release performs exactly `ReleaseStep` and keeps memory well formed |
| FramePoolCallback.QueryInterfaceStep | winrt/Windows.Graphics.Capture.go:220-258 | a nil or non-dereferenceable object gives E_INVALIDARG, leaves the out-parameter unwritten and changes nothing. An interface other than IUnknown, ITypedEventHandler or IAgileObject writes nil, changes nothing and gives E_NOINTERFACE. An accepted interface gives S_OK and writes a new non-nil address. That address holds a copy of the object that points at the same method table, so it sees the same counter, which has risen by exactly one. The registry is unchanged |
| FramePoolCallback.Process.QueryInterface | winrt/Windows.Graphics.Capture.go:220-258 | the in-place trampoline, which calls AddRef through the copy, performs exactly `QueryInterfaceStep` and keeps memory well formed |
| GoWords.Uintptr | winrt/Windows.Graphics.Capture.go:269 | Go's `uintptr(x)`: a value in range is unchanged, and a negative value from -2^64 up becomes x + 2^64 (two's complement); the result is always below 2^64 |
| FramePoolCallback.Accepted | winrt/Windows.Graphics.Capture.go:249-250 | the interface switch accepts exactly IUnknown, ITypedEventHandler and IAgileObject, and no other identifier |
| FramePoolLifetime.AddRefTimes | winrt/Windows.Graphics.Capture.go:266-269 | k addRef calls raise the shared count by exactly k; objects, registry and every other method table (and so every other counter) are unchanged |
| FramePoolLifetime.ReleaseTimes | winrt/Windows.Graphics.Capture.go:278-291 | k release calls on an object holding at least k references leave it alive and registered with its count down by k; when k equals its count, the object is cleared, only its registry entry is removed and the counter in its shared method table (which any copy also reads) is 0; every other method table (and so every other counter) is unchanged |
| FramePoolLifetime.BalancedReleasesDeregisterOnce | winrt/Windows.Graphics.Capture.go:281-288 | after construction and k addRefs, the object stays registered through the first k releases and is deregistered by the (k+1)-th. That release restores the registry to its state before construction, so the object is deregistered exactly once |
| FramePoolLifetime.AddRefThenReleaseRestores | winrt/Windows.Graphics.Capture.go:260-291 | addRef followed by release leaves memory, and with it the count and the registry, exactly as before (for a non-zero count); the two calls return n+1 and n |
| FramePoolLifetime.CopySharesCounter | winrt/Windows.Graphics.Capture.go:237-252 | the copy that QueryInterface hands out is live and distinct from the original, and an addRef through the copy is seen through the original |
| FramePoolLifetime.QueryInterfaceThenReleaseCopy | winrt/Windows.Graphics.Capture.go:249-254 | a successful QueryInterface followed by release of the returned copy gives back the original count, tables and registry; release returns the count from before |
| FramePoolLifetime.LastReleaseThroughCopyKeepsEntry | winrt/Windows.Graphics.Capture.go:220-292 | as written: after construct, QueryInterface(IUnknown), release through the original and release through the copy, the copy is cleared, but the original is still registered and live with count 0 |
| FramePoolLifetime.QueryInterfaceSameAddress | winrt/Windows.Graphics.Capture.go:249-254 | corrected QueryInterface: on success it writes the object's own address after one addRef, and objects, registry and every other method table are unchanged; error cases are as in the Go code |
| FramePoolLifetime.SameAddressReleasesDeregister | winrt/Windows.Graphics.Capture.go:278-288 | with the corrected QueryInterface, releasing both references deregisters the object and restores the registry |
| SizePacking.PackSize | winrt/Windows.Graphics.Capture.go:315 | the argument word `uintptr(Width)<<32 + uintptr(Height)` is a 64-bit value whose low 32 bits are always Height's low 32 bits, whatever the signs |
| SizePacking.PackSizeHighLow | winrt/Windows.Graphics.Capture.go:345 | with a negative Height the word is (Width - 1)·2^32 plus Height's low 32 bits: the sign extension borrows one from the Width half |
| SizePacking.PackSizeNonNegative | winrt/Windows.Graphics.Capture.go:315 | for non-negative dimensions the packed word is exactly Width·2^32 + Height (no wrap-around) |
| SizePacking.PackSizeRoundTrip | winrt/Windows.Graphics.Capture.go:315 | for non-negative Width and Height, both are recovered from the packed word (Width from the high half, Height from the low half) |
| SizePacking.PackSizeNegativeHeight | winrt/Windows.Graphics.Capture.go:345 | for every negative Height (and Width above -2^31), the word reads back with Height intact but Width one less than was packed |
| SizePacking.PackSizeTransposes | winrt/Windows.Graphics.Capture.go:311-321 | read as the memory image of a by-value SizeInt32 (Width at offset 0, the low half), the packed word carries Width and Height exchanged |
| SizePacking.PackSizeTransposesFullHd | winrt/Windows.Graphics.Capture.go:341-351 | a 1920x1080 pool size arrives as 1080x1920 |
| SizePacking.AsInt32 | winrt/Windows.Graphics.Capture.go:315 | reading 32 bits as a signed value inverts taking a value's low 32 bits |
| SizePacking.PackSizeStruct | winrt/Windows.Graphics.Capture.go:315 | corrected packing: the structure's memory image, Width in the low half, a 64-bit word |
| SizePacking.PackSizeStructRoundTrip | winrt/Windows.Graphics.Capture.go:341-351 | with the corrected packing every SizeInt32, negative dimensions included, reaches the callee unchanged |

## Findings

| source | as written | input that shows it | evidently intended | confidence | as-written member | corrected member |
|---|---|---|---|---|---|---|
| winrt/Windows.Graphics.Capture.go:226-252 | QueryInterface copies the object to a new address and hands out the copy; release clears and deregisters only the address it is called through | construct, QueryInterface(IUnknown), release through the original, release through the copy: the original stays registered with a non-nil method table and count 0 | the object's own address is handed out (COM identity), so the last release, whichever reference it ends, clears the object and drops its entry | medium, not executed | FramePoolLifetime.LastReleaseThroughCopyKeepsEntry | FramePoolLifetime.QueryInterfaceSameAddress |
| winrt/Windows.Graphics.Capture.go:315 | the size word is `uintptr(Width)<<32 + uintptr(Height)`, with Width in the high half and Height sign-extended; the same expression is at line 345 | Width 1920, Height 1080: a callee reading the by-value SizeInt32 (Width at offset 0, as `Size()` at line 60 also assumes) sees 1080x1920; Height -1 also changes the high half | Width in the low 32 bits and Height in the high 32 bits, each truncated to 32 bits | medium, not executed | SizePacking.PackSizeTransposes | SizePacking.PackSizeStruct |

## Left out

- Crashing calls are preconditions, not modelled outcomes. In each case below the Go code dereferences a nil or invalid pointer:
  - addRef or release on an object whose method table was cleared, or at an address that holds no frame-pool object;
  - an accepted QueryInterface on a cleared object.
- Concurrency. The counter updates at lines 267 and 279 are not atomic. The model runs one trampoline call at a time and makes no thread-safety claim.
- FramePoolCallback.AddRefStep: the Go `int` counter is unbounded here. Its wrap at 2^63 is not modelled, because no realistic reference count gets there. Only the uintptr conversion of the result is explicit.
- FramePoolCallback.ReleaseStep: the counter is unbounded here, as in `AddRefStep`.
- QueryInterface treats an address as dereferenceable exactly when it holds a frame-pool object, and answers every other non-nil address with E_INVALIDARG. Two cases of the `recover()` probe (lines 230-235) are not modelled:
  - Other mapped memory, which the probe reads without a fault as if it were an object.
  - Unmapped addresses that Go's runtime does not turn into a recoverable panic. On Windows that is any address outside the lowest page, and the fault ends the process.
- The copy that QueryInterface allocates (line 226) is reachable afterwards only through the foreign out-pointer (line 252), so Go's collector may free it. The model keeps every copy allocated for good. `CopySharesCounter`, `QueryInterfaceThenReleaseCopy` and `LastReleaseThroughCopyKeepsEntry` rely on the copy still being there when it is next called through.
- `SizeInt32` is not declared in the file, so the model assumes its layout: Width then Height, both signed 32-bit, as in Windows.Graphics.SizeInt32. The same file declares the integer fields of `IDirect3DSurfaceDescription` (lines 457-462) as Go `int`. If `SizeInt32` were declared that way too, the conversions at lines 315 and 345 would start from 64-bit values.
- The model is for a 64-bit Windows target (amd64 or arm64), where `uintptr` has 64 bits. `GoWords.Uintptr`, the trampoline results (lines 269 and 291), `SizePacking.PackSize` and the second finding all assume this word size. A 32-bit (386) build, where `uintptr` has 32 bits, is not modelled. There the results wrap at 2^32, and `uintptr(size.Width)<<32` is 0, so the word at lines 315 and 345 carries only Height.
- QueryInterface: the `riid` and `lppvObj` pointers are taken as valid, since the Go trampoline dereferences them without a check. The out-slot is the returned `OutParam`.
- QueryInterface allocates its copy before it checks the interface (line 226). On the failure paths that copy is never used, so the model allocates it only on success.
- Interface identifiers are opaque values compared by equality. GUID string formatting is not modelled. `ITypedEventHandlerID` and `IAgileObjectID` are defined outside the file and are not part of this model.
- The Invoke forward (lines 214-217), `syscall.NewCallback`, `runtime.GC()` and the console output are foreign or runtime facilities, so they are left out. The registry's role in keeping the method table reachable for Go's collector is left out too.
- The per-interface `VTable()` casts and the HRESULT-to-error wrappers are foreign calls through `unsafe.Pointer` with no logic of their own. Examples are `DisplayName`, `Size`, `TryGetNextFrame`, `CreateCaptureSession`, `StartCapture` and the `Get_*` getters.
- dx11/d3d11.go (Direct3D 11 method tables and forwards) and Mmdevapi.go (a single cast-and-forward to `ActivateAudioInterfaceAsync`) are foreign calls and are not part of this model. No asynchronous completion bridge appears in the code, so none is modelled.
