/**
 `MediatorOptionsBuilder`: collects candidate handler types in a set.
 The builder's `HashSet<Type>` is a value here; each registration returns
 the builder with its new set, and `Build` returns the set itself.
 */
module MediatorOptionsBuilder {
  import opened TypeModel

  /** The builder and its set of registered types. */
  datatype Builder = Builder(types: set<TypeDesc>)

  /** A freshly constructed builder: its set starts empty. */
  function NewBuilder(): (r: Builder)
    ensures Build(r) == {}
    ensures IdsUnique(r.types)
  {
    Builder({})
  }

  /** The filter of `RegisterHandler(Type)`, exactly as the source writes
      it: a type is kept when it is a class, or not abstract, or not a
      generic type definition. */
  predicate Accepts(t: TypeDesc)
  {
    t.isClass || !t.isAbstract || !t.isGenericTypeDefinition
  }

  /** `RegisterHandler(Type)`, and `RegisterHandler<T>()` applied to
      `typeof(T)`: adds an accepted type, silently ignores any other. */
  function RegisterHandler(b: Builder, t: TypeDesc): (r: Builder)
    ensures t in r.types <==> t in b.types || Accepts(t)
    ensures b.types <= r.types
    ensures forall u :: u in r.types && u != t ==> u in b.types
  {
    if Accepts(t) then Builder(b.types + {t}) else b
  }

  /** `RegisterHandlersFromAssembly(Assembly)` over the list `GetTypes()`
      returns: the old members plus every accepted type of the list. */
  function RegisterHandlersFromAssembly(b: Builder, types: seq<TypeDesc>): (r: Builder)
    ensures r.types == b.types + (set t | t in types && Accepts(t))
    decreases |types|
  {
    if types == [] then b
    else
      var r := RegisterHandlersFromAssembly(RegisterHandler(b, types[0]), types[1..]);
      assert forall t :: t in types <==> t == types[0] || t in types[1..];
      r
  }

  /** `RegisterHandlersFromAssembly<T>()`: scans the assembly that defines
      `typeof(T)`. */
  function RegisterHandlersFromAssemblyOf(b: Builder, t: TypeDesc, loaded: Assemblies): (r: Builder)
    requires t.assembly in loaded
    ensures r.types == b.types + (set u | u in loaded[t.assembly] && Accepts(u))
  {
    RegisterHandlersFromAssembly(b, loaded[t.assembly])
  }

  /** `Build()`: the types registered so far, as a value that later
      registrations cannot change. */
  function Build(b: Builder): (r: set<TypeDesc>)
    ensures r == b.types
  {
    b.types
  }

  // ---------------------------------------------------------------------
  // Properties
  // ---------------------------------------------------------------------

  /** A builder that starts empty and scans a list ends with exactly the
      accepted types of that list. */
  lemma BuildAfterScan(types: seq<TypeDesc>)
    ensures Build(RegisterHandlersFromAssembly(NewBuilder(), types)) == set t | t in types && Accepts(t)
  {
  }

  /** `HashSet<Type>` deduplicates by type identity. A descriptor is a
      value, so the set keeps one descriptor per identity as long as each
      registered descriptor agrees with the members of the same identity. */
  lemma RegisterHandlerKeepsIdsUnique(b: Builder, t: TypeDesc)
    requires IdsUnique(b.types) && AgreesWith(b.types, t)
    ensures IdsUnique(RegisterHandler(b, t).types)
  {
  }

  /** Registration has set semantics: registering a type again changes
      nothing, and no member is ever removed. */
  lemma RegisterHandlerIdempotent(b: Builder, t: TypeDesc)
    ensures RegisterHandler(RegisterHandler(b, t), t) == RegisterHandler(b, t)
    ensures Build(b) <= Build(RegisterHandler(b, t))
  {
  }

  /** Scanning the same assembly twice adds nothing the first scan did not. */
  lemma AssemblyScanIdempotent(b: Builder, types: seq<TypeDesc>)
    ensures RegisterHandlersFromAssembly(RegisterHandlersFromAssembly(b, types), types)
         == RegisterHandlersFromAssembly(b, types)
  {
  }

  /** Scanning the assembly of `T` registers `T` itself when it passes
      the filter, and registers every accepted type that the assembly
      defines. */
  lemma AssemblyOfTypeIncludesType(b: Builder, t: TypeDesc, loaded: Assemblies)
    requires t.assembly in loaded && t in loaded[t.assembly]
    ensures t in Build(RegisterHandlersFromAssemblyOf(b, t, loaded)) <==> t in b.types || Accepts(t)
  {
  }

  /** A list taken from `Build()` before a registration does not see the
      type registered later; one taken afterwards does. */
  lemma SnapshotIsolation(b: Builder, t: TypeDesc)
    requires Accepts(t) && t !in Build(b)
    ensures var before := Build(b);
      var after := Build(RegisterHandler(b, t));
      t !in before && t in after && after == before + {t}
  {
  }

  /** The types `SignalRegistrationBuilderTests` uses: a concrete class and a
      closed generic class are kept, the open generic interface `IList<>`
      is dropped without an error. */
  lemma TestedTypes(concrete: TypeDesc, closedGeneric: TypeDesc, openInterface: TypeDesc)
    requires concrete.isClass && !concrete.isAbstract && !concrete.isGenericTypeDefinition
    requires closedGeneric.isClass && !closedGeneric.isAbstract && !closedGeneric.isGenericTypeDefinition
    requires !openInterface.isClass && openInterface.isAbstract && openInterface.isGenericTypeDefinition
    ensures concrete in Build(RegisterHandler(NewBuilder(), concrete))
    ensures closedGeneric in Build(RegisterHandler(NewBuilder(), closedGeneric))
    ensures Build(RegisterHandler(NewBuilder(), openInterface)) == {}
  {
  }

  /** The filter as written keeps abstract classes, open generic classes
      and non-generic interfaces: it drops only abstract, non-class generic
      type definitions. */
  lemma AcceptsAbstractAndOpenGenericTypes(t: TypeDesc)
    ensures !Accepts(t) <==> !t.isClass && t.isAbstract && t.isGenericTypeDefinition
    ensures t.isClass && t.isAbstract ==> t in Build(RegisterHandler(NewBuilder(), t))
    ensures t.isClass && t.isGenericTypeDefinition ==> t in Build(RegisterHandler(NewBuilder(), t))
    ensures !t.isClass && t.isAbstract && !t.isGenericTypeDefinition ==> t in Build(RegisterHandler(NewBuilder(), t))
  {
  }

  // ---------------------------------------------------------------------
  // The filter read as the negation of the usual skip test
  // ---------------------------------------------------------------------

  /** The usual handler-scan skip test is `!IsClass || IsAbstract ||
      IsGenericTypeDefinition`. Its negation keeps exactly the concrete,
      non-generic-definition classes. The source flips each operand but
      keeps `||`. */
  predicate IsConcreteClass(t: TypeDesc)
  {
    t.isClass && !t.isAbstract && !t.isGenericTypeDefinition
  }

  /** `RegisterHandler` with the negated skip test as its filter. */
  function RegisterConcreteHandler(b: Builder, t: TypeDesc): (r: Builder)
    ensures t in r.types <==> t in b.types || (t.isClass && !t.isAbstract && !t.isGenericTypeDefinition)
    ensures b.types <= r.types
    ensures forall u :: u in r.types && u != t ==> u in b.types
  {
    if IsConcreteClass(t) then Builder(b.types + {t}) else b
  }

  /** The corrected filter drops abstract classes, interfaces, value types
      and open generic definitions. It keeps every type that
      `SignalRegistrationBuilderTests` expects to be kept, and it is never
      more permissive than the filter as written. */
  lemma ConcreteFilterRejectsAbstractAndOpenGeneric(b: Builder, t: TypeDesc)
    ensures !t.isClass || t.isAbstract || t.isGenericTypeDefinition ==> RegisterConcreteHandler(b, t) == b
    ensures Build(RegisterConcreteHandler(b, t)) <= Build(RegisterHandler(b, t))
    ensures t.isClass && !t.isAbstract && !t.isGenericTypeDefinition ==>
      RegisterConcreteHandler(b, t) == RegisterHandler(b, t)
  {
  }
}
