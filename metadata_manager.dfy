/** The source-code annotations the metadata manager keeps for functions, stack variables
    (allocas) and global variables, and the three lookups that read them. */
module MetadataManager {

  /** Identities of a function, an alloca instruction and a global variable. */
  type FunctionId = nat
  type AllocaId = nat
  type GlobalId = nat

  /** The manager's three maps from program entities to their annotations. */
  datatype Manager = Manager(
    functionMetadata: map<FunctionId, set<string>>,
    varMetadata: map<AllocaId, set<string>>,
    globalMetadata: map<GlobalId, set<string>>)

  /** A lookup with an empty default: the stored set when there is an entry, the empty set
      otherwise. */
  function Lookup<K>(m: map<K, set<string>>, k: K): (r: set<string>)
    ensures k in m ==> r == m[k]
    ensures k !in m ==> r == {}
    ensures r != {} ==> k in m
  {
    if k !in m then {} else m[k]
  }

  /** MetadataManager::getSourceCodeAnnotations(Function *). */
  function GetFunctionAnnotations(mm: Manager, f: FunctionId): (r: set<string>)
    ensures f in mm.functionMetadata ==> r == mm.functionMetadata[f]
    ensures f !in mm.functionMetadata ==> r == {}
  {
    Lookup(mm.functionMetadata, f)
  }

  /** MetadataManager::getSourceCodeAnnotations(AllocaInst *). */
  function GetVarAnnotations(mm: Manager, v: AllocaId): (r: set<string>)
    ensures v in mm.varMetadata ==> r == mm.varMetadata[v]
    ensures v !in mm.varMetadata ==> r == {}
  {
    Lookup(mm.varMetadata, v)
  }

  /** MetadataManager::getSourceCodeAnnotations(GlobalVariable *). */
  function GetGlobalAnnotations(mm: Manager, g: GlobalId): (r: set<string>)
    ensures g in mm.globalMetadata ==> r == mm.globalMetadata[g]
    ensures g !in mm.globalMetadata ==> r == {}
  {
    Lookup(mm.globalMetadata, g)
  }

  /** Each lookup reads its own map only: managers that agree on that map agree on the lookup,
      whatever the other two maps hold. */
  lemma EachLookupReadsOwnMap(mm1: Manager, mm2: Manager, f: FunctionId, v: AllocaId, g: GlobalId)
    ensures mm1.functionMetadata == mm2.functionMetadata ==> GetFunctionAnnotations(mm1, f) == GetFunctionAnnotations(mm2, f)
    ensures mm1.varMetadata == mm2.varMetadata ==> GetVarAnnotations(mm1, v) == GetVarAnnotations(mm2, v)
    ensures mm1.globalMetadata == mm2.globalMetadata ==> GetGlobalAnnotations(mm1, g) == GetGlobalAnnotations(mm2, g)
  {
  }

  /** Annotations stored for a function are what its lookup gives back, and storing them
      changes no other lookup. */
  lemma StoredFunctionAnnotations(mm: Manager, f: FunctionId, notes: set<string>, f': FunctionId, v: AllocaId, g: GlobalId)
    ensures GetFunctionAnnotations(mm.(functionMetadata := mm.functionMetadata[f := notes]), f) == notes
    ensures f' != f ==> GetFunctionAnnotations(mm.(functionMetadata := mm.functionMetadata[f := notes]), f') == GetFunctionAnnotations(mm, f')
    ensures GetVarAnnotations(mm.(functionMetadata := mm.functionMetadata[f := notes]), v) == GetVarAnnotations(mm, v)
    ensures GetGlobalAnnotations(mm.(functionMetadata := mm.functionMetadata[f := notes]), g) == GetGlobalAnnotations(mm, g)
  {
  }

  /** The empty default cannot be told apart from an entry holding the empty set: a lookup is
      empty exactly when there is no entry or the entry is empty. */
  lemma EmptyLookup(mm: Manager, f: FunctionId, v: AllocaId, g: GlobalId)
    ensures GetFunctionAnnotations(mm, f) == {} <==> f !in mm.functionMetadata || mm.functionMetadata[f] == {}
    ensures GetVarAnnotations(mm, v) == {} <==> v !in mm.varMetadata || mm.varMetadata[v] == {}
    ensures GetGlobalAnnotations(mm, g) == {} <==> g !in mm.globalMetadata || mm.globalMetadata[g] == {}
  {
  }
}
