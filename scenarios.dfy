/** A client of the cache: what a caller can conclude from the contracts
    alone, for the usual compile-on-miss sequence and for Clear. */
module Scenarios {
  import opened Wrappers
  import opened Pir
  import opened Framework

  /** Miss, reserve a slot, fill it, re-insert, share, clear. */
  method CompileOnMiss(a: FusionInfo, b: FusionInfo, c: FusionInfo, target: Target,
                       bindings: map<int32, SymbolArgBindInfo>, sizes: seq<int64>,
                       create: CompilerFactory, gen: KernelInfoGenerator)
    requires a != b && b != c && a != c
  {
    var cache := new CompilationCache();
    assert !cache.Has(a) && !cache.Has(b);

    // A slot inserted before its resource is set reports the precondition failure.
    var first := new CompilationResult(target);
    cache.Insert(a, first);
    assert cache.GetKernelInfo(a, gen) == Err(PreconditionNotMet(ResourceNotSetMessage));

    // Once filled, the cached slot yields the resource's kernel info, with the
    // default (false) x86-kernel flag.
    var resource := new BackendResource(target, "kernel_0", "infer_kernel_0", bindings, sizes, create);
    first.SetBackendResource(Some(resource));
    assert cache.GetKernelInfo(a, gen) == Ok(gen(resource, false));
    assert first.GetHostFuncName() == Ok("kernel_0");

    // A second set overwrites the first.
    var other := new BackendResource(target, "kernel_1", "infer_kernel_1", bindings, sizes, create);
    first.SetBackendResource(Some(other));
    assert first.GetHostFuncName() == Ok("kernel_1");

    // Re-inserting a key replaces its value without changing the size; the
    // replaced result is still usable by whoever holds it.
    var second := new CompilationResult(target, true);
    cache.Insert(a, second);
    assert cache.Get(a) == second && cache.Size() == 1;
    assert first.GetHostFuncName() == Ok("kernel_1");

    // Nothing stops two keys from sharing one result.
    cache.Insert(b, second);
    assert cache.Get(a) == cache.Get(b);

    cache.Insert(c, first);
    assert cache.Size() == 3;
    cache.Clear();
    assert cache.Size() == 0 && !cache.Has(a) && !cache.Has(b) && !cache.Has(c);
    assert first.GetHostFuncName() == Ok("kernel_1");
  }
}
