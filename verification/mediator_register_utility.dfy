/**
 `MediatorRegisterUtility.RegisterHandlers`: turns candidate types into
 service registrations. Every interface of a type whose generic definition
 is `ISignalHandler<>` gives a (service, implementation) pair, and each pair
 goes through `TryAddTransient`, which adds it only when the service type
 has no registration yet. The service collection is a sequence of
 descriptors in registration order.
 */
module MediatorRegisterUtility {
  import opened TypeModel

  datatype Lifetime = Singleton | Scoped | Transient

  /** One entry of an `IServiceCollection`. */
  datatype ServiceDescriptor = ServiceDescriptor(service: TypeId, implementation: TypeId, lifetime: Lifetime)

  /** A (service type, implementation type) pair from the LINQ query. */
  datatype HandlerPair = HandlerPair(service: TypeId, implementation: TypeId)

  /** The `Where` filter of the query. */
  predicate IsSignalHandler(i: InterfaceRef)
  {
    i.isGenericType && i.genericDefinition == SignalHandlerDefinition
  }

  /** Whether the collection has an entry for `service`. */
  predicate IsRegistered(sc: seq<ServiceDescriptor>, service: TypeId)
  {
    exists k :: 0 <= k < |sc| && sc[k].service == service
  }

  /** `p` is the first pair for its service type in `pairs`. */
  predicate IsFirstFor(pairs: seq<HandlerPair>, p: HandlerPair)
  {
    exists j :: 0 <= j < |pairs| && pairs[j] == p &&
      forall j' :: 0 <= j' < j ==> pairs[j'].service != p.service
  }

  // ---------------------------------------------------------------------
  // The pairs
  // ---------------------------------------------------------------------

  /** The inner `from serviceType in ...` for one type `t`, over the
      interfaces `ifaces` still to visit. */
  function InterfacePairs(t: TypeDesc, ifaces: seq<InterfaceRef>): (r: seq<HandlerPair>)
    ensures forall p :: p in r <==> exists i :: i in ifaces && IsSignalHandler(i) && p == HandlerPair(i.id, t.id)
    decreases |ifaces|
  {
    if ifaces == [] then []
    else
      var rest := InterfacePairs(t, ifaces[1..]);
      assert forall i :: i in ifaces <==> i == ifaces[0] || i in ifaces[1..];
      if IsSignalHandler(ifaces[0]) then [HandlerPair(ifaces[0].id, t.id)] + rest else rest
  }

  /** The whole query: types in order, and for each its handler
      interfaces in order. */
  function HandlerPairs(types: seq<TypeDesc>): (r: seq<HandlerPair>)
    ensures forall p :: p in r <==>
      exists t, i :: t in types && i in t.interfaces && IsSignalHandler(i) && p == HandlerPair(i.id, t.id)
    decreases |types|
  {
    if types == [] then []
    else
      var rest := HandlerPairs(types[1..]);
      assert forall t :: t in types <==> t == types[0] || t in types[1..];
      InterfacePairs(types[0], types[0].interfaces) + rest
  }

  // ---------------------------------------------------------------------
  // Registration
  // ---------------------------------------------------------------------

  /** `TryAddTransient(service, implementation)`. */
  function TryAddTransient(sc: seq<ServiceDescriptor>, p: HandlerPair): (r: seq<ServiceDescriptor>)
    ensures sc <= r && |r| <= |sc| + 1
    ensures IsRegistered(r, p.service)
    ensures r == sc <==> IsRegistered(sc, p.service)
    ensures forall k :: |sc| <= k < |r| ==> r[k] == ServiceDescriptor(p.service, p.implementation, Transient)
  {
    if IsRegistered(sc, p.service) then sc
    else
      var r := sc + [ServiceDescriptor(p.service, p.implementation, Transient)];
      assert r[|sc|].service == p.service;
      r
  }

  /** The `foreach` over the pairs. */
  function AddAll(sc: seq<ServiceDescriptor>, pairs: seq<HandlerPair>): seq<ServiceDescriptor>
    decreases |pairs|
  {
    if pairs == [] then sc else AddAll(TryAddTransient(sc, pairs[0]), pairs[1..])
  }

  /** `RegisterHandlers(services, types)`: existing entries stay as they
      are; every handler service of the pairs is registered afterwards;
      each new entry is a transient registration of the first pair for a
      service type that had no entry before, and no two new entries share
      a service type. */
  function RegisterHandlers(sc: seq<ServiceDescriptor>, types: seq<TypeDesc>): (r: seq<ServiceDescriptor>)
    ensures sc <= r
    ensures forall p :: p in HandlerPairs(types) ==> IsRegistered(r, p.service)
    ensures forall k :: |sc| <= k < |r| ==>
      && r[k].lifetime == Transient
      && !IsRegistered(sc, r[k].service)
      && IsFirstFor(HandlerPairs(types), HandlerPair(r[k].service, r[k].implementation))
    ensures forall k, k' :: |sc| <= k < k' < |r| ==> r[k].service != r[k'].service
  {
    AddAllMeaning(sc, HandlerPairs(types));
    AddAll(sc, HandlerPairs(types))
  }

  // ---------------------------------------------------------------------
  // Proofs about the fold
  // ---------------------------------------------------------------------

  lemma RegisteredInPrefix(sc: seq<ServiceDescriptor>, r: seq<ServiceDescriptor>, s: TypeId)
    requires sc <= r && IsRegistered(sc, s)
    ensures IsRegistered(r, s)
  {
    var k :| 0 <= k < |sc| && sc[k].service == s;
    assert r[k] == sc[k];
  }

  lemma {:induction false} AddAllMeaning(sc: seq<ServiceDescriptor>, pairs: seq<HandlerPair>)
    ensures var r := AddAll(sc, pairs);
      && sc <= r
      && (forall p :: p in pairs ==> IsRegistered(r, p.service))
      && (forall k :: |sc| <= k < |r| ==>
            && r[k].lifetime == Transient
            && !IsRegistered(sc, r[k].service)
            && IsFirstFor(pairs, HandlerPair(r[k].service, r[k].implementation)))
      && (forall k, k' :: |sc| <= k < k' < |r| ==> r[k].service != r[k'].service)
    decreases |pairs|
  {
    if pairs != [] {
      var p := pairs[0];
      var sc1 := TryAddTransient(sc, p);
      var r := AddAll(sc1, pairs[1..]);
      AddAllMeaning(sc1, pairs[1..]);
      assert r == AddAll(sc, pairs);
      // Every pair's service is registered.
      forall q | q in pairs
        ensures IsRegistered(r, q.service)
      {
        if q == p {
          RegisteredInPrefix(sc1, r, p.service);
        } else {
          assert q in pairs[1..];
        }
      }
      // What the new entries are.
      forall k | |sc| <= k < |r|
        ensures r[k].lifetime == Transient
        ensures !IsRegistered(sc, r[k].service)
        ensures IsFirstFor(pairs, HandlerPair(r[k].service, r[k].implementation))
      {
        if k < |sc1| {
          assert r[k] == sc1[k];
          assert sc1[k] == ServiceDescriptor(p.service, p.implementation, Transient);
          assert !IsRegistered(sc, p.service);
          assert pairs[0] == HandlerPair(r[k].service, r[k].implementation);
        } else {
          var q := HandlerPair(r[k].service, r[k].implementation);
          assert !IsRegistered(sc1, q.service);
          if IsRegistered(sc, q.service) {
            RegisteredInPrefix(sc, sc1, q.service);
          }
          assert q.service != p.service;
          var j :| 0 <= j < |pairs[1..]| && pairs[1..][j] == q &&
            forall j' :: 0 <= j' < j ==> pairs[1..][j'].service != q.service;
          assert pairs[j + 1] == q;
          assert forall j' :: 0 <= j' < j + 1 ==> pairs[j'].service != q.service by {
            forall j' | 0 <= j' < j + 1
              ensures pairs[j'].service != q.service
            {
              if j' > 0 {
                assert pairs[j'] == pairs[1..][j' - 1];
              }
            }
          }
        }
      }
      // New entries have distinct service types.
      forall k, k' | |sc| <= k < k' < |r|
        ensures r[k].service != r[k'].service
      {
        if k < |sc1| {
          assert r[k] == sc1[k];
          assert k' >= |sc1|;
          assert r[k].service == p.service;
          if r[k'].service == p.service {
            assert IsRegistered(sc1, p.service);
          }
        }
      }
    }
  }

  /** A fold whose pairs all have a registered service adds nothing. */
  lemma {:induction false} AddAllOfRegistered(sc: seq<ServiceDescriptor>, pairs: seq<HandlerPair>)
    requires forall p :: p in pairs ==> IsRegistered(sc, p.service)
    ensures AddAll(sc, pairs) == sc
    decreases |pairs|
  {
    if pairs != [] {
      assert pairs[0] in pairs;
      assert forall p :: p in pairs[1..] ==> p in pairs;
      AddAllOfRegistered(sc, pairs[1..]);
    }
  }

  // ---------------------------------------------------------------------
  // Properties
  // ---------------------------------------------------------------------

  /** Calling `RegisterHandlers` again with the same types adds nothing. */
  lemma RegisterHandlersIdempotent(sc: seq<ServiceDescriptor>, types: seq<TypeDesc>)
    ensures RegisterHandlers(RegisterHandlers(sc, types), types) == RegisterHandlers(sc, types)
  {
    AddAllOfRegistered(RegisterHandlers(sc, types), HandlerPairs(types));
  }

  /** First implementation wins: when the collection had no entry for a
      handler service, afterwards it has exactly one, and that entry is the
      first pair for the service in types-by-interfaces order. So at most
      one handler per notification type is registered; later ones are
      dropped without an error. */
  lemma FirstImplementationWins(sc: seq<ServiceDescriptor>, types: seq<TypeDesc>, s: TypeId)
    requires !IsRegistered(sc, s)
    requires exists p :: p in HandlerPairs(types) && p.service == s
    ensures var r := RegisterHandlers(sc, types);
      exists k ::
        && |sc| <= k < |r| && r[k].service == s
        && IsFirstFor(HandlerPairs(types), HandlerPair(s, r[k].implementation))
        && forall k' :: 0 <= k' < |r| && r[k'].service == s ==> k' == k
  {
    var r := RegisterHandlers(sc, types);
    var p :| p in HandlerPairs(types) && p.service == s;
    assert IsRegistered(r, s);
    var k :| 0 <= k < |r| && r[k].service == s;
  }

  /** Two handler types for the same notification type, `first` before
      `second`: only `first` is registered. */
  lemma LaterHandlerForSameNotificationDropped(first: TypeDesc, second: TypeDesc, handlerOf: InterfaceRef)
    requires IsSignalHandler(handlerOf)
    requires first.interfaces == [handlerOf] && second.interfaces == [handlerOf]
    ensures RegisterHandlers([], [first, second]) == [ServiceDescriptor(handlerOf.id, first.id, Transient)]
  {
    var pairs := HandlerPairs([first, second]);
    assert [handlerOf][1..] == [];
    assert InterfacePairs(first, [handlerOf]) == [HandlerPair(handlerOf.id, first.id)];
    assert InterfacePairs(second, [handlerOf]) == [HandlerPair(handlerOf.id, second.id)];
    assert [first, second][1..] == [second] && [second][1..] == [];
    assert HandlerPairs([second]) == [HandlerPair(handlerOf.id, second.id)];
    assert pairs == [HandlerPair(handlerOf.id, first.id), HandlerPair(handlerOf.id, second.id)];
    var sc1 := TryAddTransient([], pairs[0]);
    assert sc1 == [ServiceDescriptor(handlerOf.id, first.id, Transient)];
    assert TryAddTransient(sc1, pairs[1]) == sc1;
    assert pairs[1..][1..] == [];
    assert AddAll(sc1, pairs[1..][1..]) == sc1;
    assert AddAll(sc1, pairs[1..]) == sc1;
    assert AddAll([], pairs) == sc1;
  }

  /** A type that handles two notification types gives one pair per
      handler interface, itself the implementation of both; a type without
      a handler interface gives none. */
  lemma OnePairPerHandlerInterface(t: TypeDesc, a: InterfaceRef, b: InterfaceRef, other: InterfaceRef)
    requires IsSignalHandler(a) && IsSignalHandler(b) && !IsSignalHandler(other)
    ensures t.interfaces == [a, other, b] ==>
      HandlerPairs([t]) == [HandlerPair(a.id, t.id), HandlerPair(b.id, t.id)]
    ensures (forall i :: i in t.interfaces ==> !IsSignalHandler(i)) ==> HandlerPairs([t]) == []
  {
    if t.interfaces == [a, other, b] {
      assert t.interfaces[1..][1..][1..] == [];
      assert InterfacePairs(t, [b]) == [HandlerPair(b.id, t.id)];
      assert InterfacePairs(t, [other, b]) == [HandlerPair(b.id, t.id)];
      assert [t][1..] == [];
    }
    if forall i :: i in t.interfaces ==> !IsSignalHandler(i) {
      assert [t][1..] == [];
      var own := InterfacePairs(t, t.interfaces);
      if own != [] {
        assert own[0] in own;
      }
    }
  }
}
