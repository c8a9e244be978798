/** Classification of instructions and calls by what they call: debug intrinsics and lifetime
    markers are not actual code, and calls of the body-less library functions malloc, calloc,
    realloc and free allocate or release memory. */
module Utils {
  import opened Wrappers

  /** Identity of an LLVM value (the call itself, or one of its arguments). */
  type ValueId = nat

  /** The function a call names directly, by name and by whether it has a body in the module
      (a body-less function is a declaration, such as a library function). */
  datatype Callee = Callee(name: string, hasBody: bool)

  /** A call or invoke: its own value, whether it is a lifetime start or end marker, the
      function it calls directly (None for an indirect call) and its argument operands. */
  datatype CallBase = CallBase(id: ValueId, isLifetimeStartOrEnd: bool, callee: Option<Callee>, args: seq<ValueId>)

  /** An instruction: a call, or any other instruction. */
  datatype Instruction = Call(call: CallBase) | NonCall(id: ValueId)

  const DebugPrefix: string := "llvm.dbg."

  predicate StartsWith(s: string, prefix: string)
  {
    |prefix| <= |s| && s[..|prefix|] == prefix
  }

  /** Utils::isActualCode: every instruction except lifetime markers and direct calls of
      "llvm.dbg." intrinsics. */
  function IsActualCode(inst: Instruction): (r: bool)
    ensures inst.NonCall? ==> r
    ensures inst.Call? && inst.call.callee.None? ==> (r <==> !inst.call.isLifetimeStartOrEnd)
    ensures !r <==> inst.Call? && (inst.call.isLifetimeStartOrEnd || IsDebugCall(inst.call))
  {
    match inst
    case NonCall(_) => true
    case Call(call) =>
      if call.isLifetimeStartOrEnd then false
      else if call.callee.Some? && StartsWith(call.callee.value.name, DebugPrefix) then false
      else true
  }

  /** A direct call of a function whose name starts with "llvm.dbg.". */
  predicate IsDebugCall(call: CallBase)
  {
    call.callee.Some? && StartsWith(call.callee.value.name, DebugPrefix)
  }

  /** The guards the three recognisers share: a call, with a direct callee, that has no body. */
  predicate CallsLibrary(call: Option<CallBase>)
  {
    call.Some? && call.value.callee.Some? && !call.value.callee.value.hasBody
  }

  /** Utils::isAllocator, with its chain of early returns. */
  function IsAllocator(call: Option<CallBase>): (r: bool)
    ensures r <==> CallsLibrary(call) && call.value.callee.value.name in {"malloc", "calloc", "realloc"}
  {
    if call.None? then false
    else if call.value.callee.None? then false
    else if call.value.callee.value.hasBody then false
    else
      var name := call.value.callee.value.name;
      name == "malloc" || name == "calloc" || name == "realloc"
  }

  /** Utils::isReallocator. */
  function IsReallocator(call: Option<CallBase>): (r: bool)
    ensures r <==> CallsLibrary(call) && call.value.callee.value.name == "realloc"
  {
    if call.None? then false
    else if call.value.callee.None? then false
    else if call.value.callee.value.hasBody then false
    else call.value.callee.value.name == "realloc"
  }

  /** Utils::isDeallocator. */
  function IsDeallocator(call: Option<CallBase>): (r: bool)
    ensures r <==> CallsLibrary(call) && call.value.callee.value.name == "free"
  {
    if call.None? then false
    else if call.value.callee.None? then false
    else if call.value.callee.value.hasBody then false
    else call.value.callee.value.name == "free"
  }

  /** Utils::getAllocatedObject: the call itself for an allocator, null otherwise.  The
      abort after the name test is never reached, because an allocator's callee has one of
      the names tested there. */
  function GetAllocatedObject(call: Option<CallBase>): (r: Option<ValueId>)
    ensures r.Some? <==> IsAllocator(call)
    ensures r.Some? ==> r.value == call.value.id
  {
    if !IsAllocator(call) then None
    else if call.value.callee.None? then None
    else
      var name := call.value.callee.value.name;
      if name == "malloc" || name == "calloc" || name == "realloc" then Some(call.value.id)
      else assert false; None
  }

  /** Utils::getFreedObject: the first argument of a call of free, null for any other call.
      LLVM's getArgOperand(0) demands that a call of free has an argument.  The abort after
      the name test is never reached. */
  function GetFreedObject(call: Option<CallBase>): (r: Option<ValueId>)
    requires IsDeallocator(call) ==> |call.value.args| > 0
    ensures r.Some? <==> IsDeallocator(call)
    ensures r.Some? ==> r.value == call.value.args[0]
  {
    if !IsDeallocator(call) then None
    else if call.value.callee.None? then None
    else if call.value.callee.value.name == "free" then Some(call.value.args[0])
    else assert false; None
  }

  // ---------------------------------------------------------------------------------------
  // Relations between the recognisers
  // ---------------------------------------------------------------------------------------

  /** Every reallocator is an allocator. */
  lemma ReallocatorIsAllocator(call: Option<CallBase>)
    ensures IsReallocator(call) ==> IsAllocator(call)
  {
  }

  /** No call both allocates and releases memory. */
  lemma AllocatorNotDeallocator(call: Option<CallBase>)
    ensures !(IsAllocator(call) && IsDeallocator(call))
  {
  }

  /** A function with a body is never recognised, whatever its name. */
  lemma DefinedFunctionsAreNotLibraryCalls(call: CallBase)
    requires call.callee.Some? && call.callee.value.hasBody
    ensures !IsAllocator(Some(call)) && !IsReallocator(Some(call)) && !IsDeallocator(Some(call))
    ensures GetAllocatedObject(Some(call)).None? && GetFreedObject(Some(call)).None?
  {
  }
}
