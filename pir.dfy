/** The two value classes of the compilation cache (namespace pir):
    BackendResource, the immutable compiled artifact, and CompilationResult,
    the cache slot that receives its artifact after construction. */
module Pir {
  import opened Wrappers

  /** Hardware/runtime descriptor; its contents are not modelled. */
  type Target

  /** Identity of a fused operator group, the cache key; only its equality is used. */
  type FusionInfo(==)

  /** Per-argument-slot binding description (CINNKernelInfo::SymbolArgBindInfo). */
  type SymbolArgBindInfo

  /** Handle to the code-generation backend (backends::Compiler). */
  type BackendCompiler

  /** The kernel-info record handed to the execution layer (pir::CINNKernelInfo). */
  type KernelInfo

  newtype int32 = x: int | -0x8000_0000 <= x < 0x8000_0000

  newtype int64 = x: int | -0x8000_0000_0000_0000 <= x < 0x8000_0000_0000_0000

  /** backends::Compiler::Create: a foreign call, supplied by the caller. */
  type CompilerFactory = Target -> BackendCompiler

  /** BackendResource::GenerateKernelInfo: its body is defined outside this
      header, so the model takes it as an uninterpreted function of the
      resource and the x86-kernel flag. */
  type KernelInfoGenerator = (BackendResource, bool) -> KernelInfo

  /** The error PADDLE_ENFORCE_NOT_NULL raises. */
  datatype Error = PreconditionNotMet(message: string)

  const ResourceNotSetMessage: string :=
    "Found backend_resource_ is nullptr, please call SetBackendResource first."

  /** A compiled module for one fusion group. Every field is `const`: no
      member can change it once the constructor has run. */
  class BackendResource {
    const hostFnName: string
    const inferFnName: string
    const symbolArgsMap: map<int32, SymbolArgBindInfo>
    const tempSpaceSizes: seq<int64>
    const backendCompiler: BackendCompiler

    /** Stores the four descriptions unchanged and creates the backend
        handle for `target` eagerly. */
    constructor (target: Target, hostFnName: string, inferFnName: string,
                 symbolArgsMap: map<int32, SymbolArgBindInfo>,
                 tempSpaceSizes: seq<int64>, create: CompilerFactory)
      ensures GetHostFuncName() == hostFnName
      ensures this.inferFnName == inferFnName
      ensures GetSymbolArgsMap() == symbolArgsMap
      ensures GetTempSpaceSizes() == tempSpaceSizes
      ensures GetBackendCompiler() == create(target)
    {
      this.hostFnName := hostFnName;
      this.inferFnName := inferFnName;
      this.symbolArgsMap := symbolArgsMap;
      this.tempSpaceSizes := tempSpaceSizes;
      backendCompiler := create(target);
    }

    function GetSymbolArgsMap(): map<int32, SymbolArgBindInfo> { symbolArgsMap }

    function GetTempSpaceSizes(): seq<int64> { tempSpaceSizes }

    function GetBackendCompiler(): BackendCompiler { backendCompiler }

    function GetHostFuncName(): string { hostFnName }

    function GenerateKernelInfo(gen: KernelInfoGenerator, needX86Kernel: bool := false): KernelInfo
    {
      gen(this, needX86Kernel)
    }
  }

  /** A cache slot: built without an artifact, filled later by
      SetBackendResource. */
  class CompilationResult {
    const target: Target
    var backendResource: Option<BackendResource>
    // Private in the source and assigned only by the constructor.
    const haveCx86Kernel: bool

    constructor (target: Target, needX86Kernel: bool := false)
      ensures this.target == target
      ensures GetBackendResource() == None
      ensures haveCx86Kernel == needX86Kernel
    {
      this.target := target;
      haveCx86Kernel := needX86Kernel;
      backendResource := None;
    }

    function GetBackendResource(): Option<BackendResource>
      reads this
    {
      backendResource
    }

    /** Last write wins: there is no guard against a second call, and a
        null (None) resource may be stored. */
    method SetBackendResource(other: Option<BackendResource>)
      modifies this
      ensures GetBackendResource() == other
    {
      backendResource := other;
    }

    /** Fails, rather than returning a default, until a resource is set. */
    function GetHostFuncName(): (r: Result<string, Error>)
      reads this
      ensures r.Err? <==> GetBackendResource() == None
      ensures r.Err? ==> r.error == PreconditionNotMet(ResourceNotSetMessage)
      ensures r.Ok? ==> r.value == GetBackendResource().value.hostFnName
    {
      match backendResource
      case None => Err(PreconditionNotMet(ResourceNotSetMessage))
      case Some(resource) => Ok(resource.GetHostFuncName())
    }

    /** Fails until a resource is set; then asks the resource for its kernel
        info, passing the stored x86-kernel flag through. */
    function GetKernelInfo(gen: KernelInfoGenerator): (r: Result<KernelInfo, Error>)
      reads this
      ensures r.Err? <==> GetBackendResource() == None
      ensures r.Err? ==> r.error == PreconditionNotMet(ResourceNotSetMessage)
      ensures r.Ok? ==> r.value == gen(GetBackendResource().value, haveCx86Kernel)
    {
      match backendResource
      case None => Err(PreconditionNotMet(ResourceNotSetMessage))
      case Some(resource) => Ok(resource.GenerateKernelInfo(gen, haveCx86Kernel))
    }
  }
}
