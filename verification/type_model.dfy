/**
 The part of .NET reflection the handler registration reads, as plain data.
 A `Type` object becomes a `TypeDesc` record carrying the flags the builder
 tests and the interfaces `GetInterfaces()` would list; an assembly is known
 by its identity and the types `GetTypes()` would list.
 */
module TypeModel {

  /** The identity of a runtime type, by its full name. */
  datatype TypeId = TypeId(fullName: string)

  /** The identity of an assembly. */
  datatype AssemblyId = AssemblyId(name: string)

  /** An interface a type implements. `genericDefinition` is what
      `GetGenericTypeDefinition()` returns and is only read when
      `isGenericType` holds. */
  datatype InterfaceRef = InterfaceRef(id: TypeId, isGenericType: bool, genericDefinition: TypeId)

  /** A runtime type: its identity, the assembly defining it, the three
      reflection flags and the interfaces it implements. */
  datatype TypeDesc = TypeDesc(
    id: TypeId,
    assembly: AssemblyId,
    isClass: bool,
    isAbstract: bool,
    isGenericTypeDefinition: bool,
    interfaces: seq<InterfaceRef>)

  /** The runtime has one `Type` object per identity, and `HashSet<Type>`
      compares types by identity. A set of descriptors models such a set
      only when no two of its descriptors share an identity. */
  predicate IdsUnique(types: set<TypeDesc>)
  {
    forall t, u :: t in types && u in types && t.id == u.id ==> t == u
  }

  /** `t` is the same descriptor as every member with its identity. */
  predicate AgreesWith(types: set<TypeDesc>, t: TypeDesc)
  {
    forall u :: u in types && u.id == t.id ==> u == t
  }

  /** `typeof(ISignalHandler<>)`, the open generic handler interface. */
  const SignalHandlerDefinition: TypeId := TypeId("Pandora.Extensions.Mediator.ISignalHandler`1")

  /** The loaded assemblies, each with the list `GetTypes()` returns. */
  type Assemblies = map<AssemblyId, seq<TypeDesc>>
}
