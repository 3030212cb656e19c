# Compilation cache for fused kernels (CINN, PIR framework)

This project models the cache that CINN uses so that each fused group of
operators is compiled only once per worker thread. It covers the three
classes of `paddle/cinn/hlir/framework/pir/compilation_cache.h`:

- `BackendResource` (module `Pir`): the compiled artifact. It holds the host
  and infer function names, the symbol-argument map, the temp-space sizes and
  a backend compiler handle. All of its fields are `const`, so no member can
  change them after construction.
- `CompilationResult` (module `Pir`): one cache slot. It is built with no
  resource, `SetBackendResource` fills it later, and `GetHostFuncName` and
  `GetKernelInfo` fail with `PreconditionNotMet` until that happens. The
  nullable `shared_ptr<BackendResource>` is an `Option<BackendResource>` of a
  Dafny object reference. The `PADDLE_ENFORCE_NOT_NULL` checks become a
  `Result` whose error carries the source's message.
- `CompilationCache` (module `Framework`): a class whose real state is a
  `map<FusionInfo, CompilationResult>`. The map's values are object
  references, so a result stays usable by whoever holds it after `Insert`
  replaces it or `Clear` drops it. A ghost field `history` records every
  `Insert` and `Clear`. `Valid()` says the map is what replaying that history
  builds (module `CacheHistory`).

The contracts of `Has`, `Get` and `Size` tie the map to declarative
definitions over the history:
- a key is present exactly when it was inserted after the last `Clear`;
- `Get` returns the value of that key's last such insert;
- `Size` is the number of distinct keys inserted after the last `Clear`.

The lemmas in `CacheHistory` prove these facts. The `Scenarios` module is a
client. It shows what a caller can conclude from the contracts alone: a miss,
reserving a slot, filling it, re-inserting, sharing a result, and clearing.

The external collaborators are opaque types: `Target`, `FusionInfo`
(equality only), `SymbolArgBindInfo`, `BackendCompiler` and `KernelInfo`. Two
foreign calls are parameters:
- `backends::Compiler::Create` is `create: Target -> BackendCompiler`;
- `BackendResource::GenerateKernelInfo`, whose body is not in the header, is
  `gen: (BackendResource, bool) -> KernelInfo`.

Two behaviours of the code are worth knowing:
- `SetBackendResource` has no guard. A later call overwrites an earlier one,
  and `None` (a null resource) may be stored.
- `Insert` does not stop two keys from sharing one result.
  `Scenarios.CompileOnMiss` inserts one result under two keys and shows
  `Get(a) == Get(b)`.

## Model

| member | source | states |
|---|---|---|
| Pir.BackendResource.constructor | paddle/cinn/hlir/framework/pir/compilation_cache.h:32-43 | the getters return exactly the host function name, symbol-argument map and temp-space sizes passed in; the infer function name is stored unchanged; the backend handle is the one `Compiler::Create(target)` gives; every field is immutable |
| Pir.CompilationResult.constructor | paddle/cinn/hlir/framework/pir/compilation_cache.h:72-73 | a new result has no backend resource; its x86-kernel flag equals the argument, which defaults to false; the target is stored |
| Pir.CompilationResult.SetBackendResource | paddle/cinn/hlir/framework/pir/compilation_cache.h:74-80 | afterwards `GetBackendResource()` is exactly the argument; a later call overwrites an earlier one; null is accepted |
| Pir.CompilationResult.GetHostFuncName | paddle/cinn/hlir/framework/pir/compilation_cache.h:82-88 | fails with `PreconditionNotMet` and the source's message if and only if no resource is set; otherwise returns that resource's host function name |
| Pir.CompilationResult.GetKernelInfo | paddle/cinn/hlir/framework/pir/compilation_cache.h:90-96 | fails with `PreconditionNotMet` if and only if no resource is set; otherwise returns the resource's `GenerateKernelInfo` applied to the stored x86-kernel flag |
| Framework.CompilationCache.constructor | paddle/cinn/hlir/framework/pir/compilation_cache.h:124-128 | a new cache holds no entries and has seen no call |
| Framework.CompilationCache.Has | paddle/cinn/hlir/framework/pir/compilation_cache.h:116 | true if and only if the key was inserted after the last `Clear` (false before any insert, true after one, until the next `Clear`) |
| Framework.CompilationCache.Get | paddle/cinn/hlir/framework/pir/compilation_cache.h:117 | needs a present key; returns a stored value, the one given by the last insert of that key after the last `Clear`, and that insert is unique (last insert wins) |
| Framework.CompilationCache.Insert | paddle/cinn/hlir/framework/pir/compilation_cache.h:118 | afterwards `Has(key)` and `Get(key) == value`; every other key keeps its presence and its value; `Size()` grows by one only if the key was absent; results already stored are not modified |
| Framework.CompilationCache.Clear | paddle/cinn/hlir/framework/pir/compilation_cache.h:119 | afterwards `Size() == 0` and `Has(k)` is false for every key; results that were stored, and may be held elsewhere, are not modified |
| Framework.CompilationCache.Size | paddle/cinn/hlir/framework/pir/compilation_cache.h:120 | the number of distinct keys inserted after the last `Clear`, which is at most the number of inserts after that `Clear` |
| Framework.CompilationCache.GetKernelInfo | paddle/cinn/hlir/framework/pir/compilation_cache.h:122 | needs a present key and equals `Get(key).GetKernelInfo()`; fails exactly when that result has no resource; otherwise applies `GenerateKernelInfo` to that result's resource and flag |
| CacheHistory.ReplayKeys | paddle/cinn/hlir/framework/pir/compilation_cache.h:116-120 | the keys of the table built by any sequence of `Insert` and `Clear` calls are exactly the keys inserted after the last `Clear` |
| CacheHistory.ReplayLast | paddle/cinn/hlir/framework/pir/compilation_cache.h:117-118 | every key in the built table maps to the value of its last insert after the last `Clear` |
| CacheHistory.LastInsertUnique | paddle/cinn/hlir/framework/pir/compilation_cache.h:117-118 | a key has at most one such last insert, so the value `Get` returns is determined; `Get`'s contract uses it |
| CacheHistory.LiveKeysAfterInsert | paddle/cinn/hlir/framework/pir/compilation_cache.h:118-120 | an insert adds its key to the present keys and changes nothing else, so re-inserting a present key leaves the count unchanged |
| CacheHistory.LiveKeysAfterClear | paddle/cinn/hlir/framework/pir/compilation_cache.h:119 | no key is present after a `Clear` |
| CacheHistory.LiveKeysBound | paddle/cinn/hlir/framework/pir/compilation_cache.h:118-120 | the number of present keys is at most the number of inserts after the last `Clear`; `Size`'s contract uses it |

`BackendResource`'s getters (`GetHostFuncName`, `GetSymbolArgsMap`,
`GetTempSpaceSizes`, `GetBackendCompiler`, lines 48-59) and
`CompilationResult.GetBackendResource` (lines 74-76) are plain field reads.
What they return is stated by the constructor and `SetBackendResource` rows
above.

## Left out

- `CompilationCache::Instance()` (lines 111-114): the thread-local singleton is concurrency plumbing. The model uses an explicit cache object, one per worker.
- `GetHostFuncPtr`, `GetInferFuncPtr`, `GetCX86HostFuncPtr` (lines 45-47): they resolve symbols in compiled machine code, and their bodies are not in the header.
- `GenerateKernelInfo` (line 58): its body is not in the header. It is an uninterpreted parameter `gen`, so nothing is proved about which function pointers the record holds.
- `backends::Compiler::Create` (line 42): a foreign code-generation call. It is the parameter `create`, and the handle it returns is opaque. Because `create` is a function of the target alone, two resources built for one target get equal handles; the model does not distinguish the separate `shared_ptr<Compiler>` each source call creates.
- Hashing and equality of `FusionInfo`, and the contents of `Target`: these are external types. The key is an opaque type with equality.
- Reference counting and destruction through `shared_ptr`: Dafny references give the aliasing, but deallocation cannot be expressed.
- Logging and `CINN_DISALLOW_COPY_AND_ASSIGN`: neither has behaviour to verify.
- Framework.CompilationCache.Has: the body is not in the header (line 116 only declares it). The model reads presence from the map.
- Framework.CompilationCache.Insert: the body is not in the header (line 118 only declares it). The model follows the documented contract, insert or replace with the last insert winning. If the real body used `std::unordered_map::insert`, an existing key would keep its first value instead.
- Framework.CompilationCache.Clear: the body is not in the header (line 119 only declares it). The model follows the documented contract: every entry is removed.
- Framework.CompilationCache.GetKernelInfo: the body is not in the header (line 122 only declares it). The model follows the documented contract: `Get(key)`'s own `GetKernelInfo()`.
- Framework.CompilationCache.Get: the body is not in the header. A missing key is the caller's fault, so the model has `requires Has(key)` and no error result.
- Framework.CompilationCache.Size: the result is an unbounded `nat`, not a 64-bit `size_t`. A table with 2^64 entries is out of reach.
- Pir.BackendResource.constructor: the `std::map` keys are modelled as `int32` in a Dafny `map`, which does not keep the key order of `std::map`. The temp-space sizes are `int64` in a `seq`.
- Failure of backend compilation while a resource is built: this is not handled in the header, and the model does not represent it.
