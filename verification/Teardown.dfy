/** Deleting a service and deleting its bindings: the service controller's cascade, and
    the theorem that the order of the deletions does not matter. */
module Teardown {
  import opened Model
  import opened PortChecks
  import opened Entries
  import opened Lifecycle

  // ---------------------------------------------------------------------------
  // reconcileDelete of the service controller
  // ---------------------------------------------------------------------------

  function DropFromGroups(s: State, service: Key, groups: seq<ObjectRef>): Step<State>
    decreases groups
  {
    if groups == [] then Step(s, true)
    else
      var dropped := DropService(s, groups[0].Resolve(service.namespace), service);
      if dropped.ok then DropFromGroups(dropped.state, service, groups[1..]) else dropped
  }

  /** The bindings of the service's namespace that name the service are marked deleted. */
  function CascadeBindings(bindings: map<Key, Binding>, service: Key): map<Key, Binding>
  {
    map k | k in bindings ::
      if k.namespace == service.namespace && bindings[k].serviceName == service.name
      then bindings[k].(deleting := true) else bindings[k]
  }

  /** The whole deletion, ending with the removal of the service's last finalizer. */
  function DeleteService(s: State, service: Service): Step<State>
  {
    var dropped := DropFromGroups(s.(bindings := CascadeBindings(s.bindings, service.key)), service.key,
        service.addressGroups);
    if dropped.ok then Step(dropped.state.(services := dropped.state.services - {service.key}), true) else dropped
  }

  // ---------------------------------------------------------------------------
  // Runs of deletions
  // ---------------------------------------------------------------------------

  /** One reconcile of an object being deleted; an object already gone is skipped. */
  datatype Deletion = OfService(service: Key) | OfBinding(binding: Key)

  function Delete(s: State, d: Deletion): Step<State>
  {
    match d
    case OfService(k) => if k in s.services then DeleteService(s, s.services[k]) else Step(s, true)
    case OfBinding(k) => if k in s.bindings then Unbind(s, s.bindings[k]) else Step(s, true)
  }

  function DeleteAll(s: State, ds: seq<Deletion>): Step<State>
    decreases ds
  {
    if ds == [] then Step(s, true)
    else
      var first := Delete(s, ds[0]);
      if first.ok then DeleteAll(first.state, ds[1..]) else first
  }

  /** The service is taken out of the mappings under some keys. */
  function RemovedAt(m: Mappings, service: Key, keys: set<Key>): Mappings
  {
    map k | k in m :: if k in keys then m[k].(items := Remove(m[k].items, service)) else m[k]
  }

  predicate AllUnique(m: Mappings)
  {
    forall k :: k in m ==> UniqueKeys(m[k].items)
  }

  lemma {:induction false} RemoveTwice(items: seq<ServicePortsRef>, service: Key)
    requires UniqueKeys(items)
    ensures Remove(Remove(items, service), service) == Remove(items, service)
  {
    RemoveKeepsUnique(items, service);
  }

  lemma {:induction false} DropIsRemoval(s: State, key: Key, service: Key)
    requires AllHealthy(s.mappings) && AllUnique(s.mappings)
    ensures DropService(s, key, service) == Step(s.(mappings := RemovedAt(s.mappings, service, {key})), true)
    ensures AllHealthy(RemovedAt(s.mappings, service, {key})) && AllUnique(RemovedAt(s.mappings, service, {key}))
  {
    var m' := RemovedAt(s.mappings, service, {key});
    if key in s.mappings {
      var mapping := s.mappings[key];
      RemoveKeepsUnique(mapping.items, service);
      if !mapping.deleting { RemoveKeepsInternalOK(mapping.items, service); }
      assert m' == s.mappings[key := mapping.(items := Remove(mapping.items, service))];
      if Remove(mapping.items, service) == mapping.items { assert m' == s.mappings; }
    } else {
      assert m' == s.mappings;
    }
  }

  lemma {:induction false} RemovedAtUnion(m: Mappings, service: Key, a: set<Key>, b: set<Key>)
    requires AllUnique(m)
    ensures RemovedAt(RemovedAt(m, service, a), service, b) == RemovedAt(m, service, a + b)
  {
    forall k | k in m && k in a && k in b { RemoveTwice(m[k].items, service); }
  }

  lemma {:induction false} DropFromGroupsIsRemoval(s: State, service: Key, groups: seq<ObjectRef>)
    requires AllHealthy(s.mappings) && AllUnique(s.mappings)
    ensures var m' := RemovedAt(s.mappings, service, Named(groups, service.namespace));
            && DropFromGroups(s, service, groups) == Step(s.(mappings := m'), true)
            && AllHealthy(m') && AllUnique(m')
    decreases groups
  {
    if groups == [] {
      assert Named(groups, service.namespace) == {};
      assert RemovedAt(s.mappings, service, {}) == s.mappings;
    } else {
      var key := groups[0].Resolve(service.namespace);
      DropIsRemoval(s, key, service);
      var s1 := s.(mappings := RemovedAt(s.mappings, service, {key}));
      DropFromGroupsIsRemoval(s1, service, groups[1..]);
      RemovedAtUnion(s.mappings, service, {key}, Named(groups[1..], service.namespace));
      NamedCons(groups, service.namespace);
    }
  }

  // ---------------------------------------------------------------------------
  // Confluence
  // ---------------------------------------------------------------------------

  predicate BindsService(b: Binding, service: Key)
  {
    b.key.namespace == service.namespace && b.serviceName == service.name
  }

  /** The mappings the service or one of its bindings names. */
  ghost function Targets(s: State, service: Key): set<Key>
    requires service in s.services
  {
    Named(s.services[service].addressGroups, service.namespace)
    + set k | k in s.bindings && BindsService(s.bindings[k], service) :: s.bindings[k].MappingKey()
  }

  /** What a run of deletions from s0 has reached: exactly the mappings under done have
      been cleaned, and whatever a deletion still to come would clean is still in s. */
  ghost predicate Reached(s0: State, s: State, service: Key, done: set<Key>)
    requires service in s0.services
  {
    && WellKeyed(s)
    && s.mappings == RemovedAt(s0.mappings, service, done) && AllHealthy(s.mappings) && AllUnique(s.mappings)
    && done <= Targets(s0, service)
    && ServiceLeft(s0.services[service], s, done)
    && BindingsLeft(s0, s, service, done)
    && Elsewhere(s0, s, service)
  }

  /** Nothing has happened to other services, their bindings and the address groups. */
  ghost predicate Elsewhere(s0: State, s: State, service: Key)
  {
    && s.groups == s0.groups
    && (forall k :: k in s0.services && k != service ==> k in s.services && s.services[k] == s0.services[k])
    && (forall k :: k in s0.bindings && !BindsService(s0.bindings[k], service)
                    ==> k in s.bindings && s.bindings[k] == s0.bindings[k])
  }

  ghost predicate ServiceLeft(original: Service, s: State, done: set<Key>)
  {
    var before := Named(original.addressGroups, original.key.namespace);
    if original.key !in s.services then before <= done
    else
      var now := s.services[original.key];
      && now.ingressPorts == original.ingressPorts
      && Named(now.addressGroups, original.key.namespace) <= before
      && before <= Named(now.addressGroups, original.key.namespace) + done
  }

  ghost predicate BindingsLeft(s0: State, s: State, service: Key, done: set<Key>)
  {
    && (forall k :: k in s.bindings ==>
          k in s0.bindings && s.bindings[k] == s0.bindings[k].(deleting := s.bindings[k].deleting))
    && (forall k :: k in s0.bindings && BindsService(s0.bindings[k], service) && k !in s.bindings
                    ==> s0.bindings[k].MappingKey() in done)
  }

  predicate AboutService(s0: State, d: Deletion, service: Key)
  {
    match d
    case OfService(k) => k == service
    case OfBinding(k) => k in s0.bindings && BindsService(s0.bindings[k], service)
  }

  predicate Gone(s: State, d: Deletion)
  {
    match d
    case OfService(k) => k !in s.services
    case OfBinding(k) => k !in s.bindings
  }

  lemma {:induction false} ServiceDeletionEffect(s: State, service: Key)
    requires AllHealthy(s.mappings) && AllUnique(s.mappings) && WellKeyed(s) && service in s.services
    ensures var keys := Named(s.services[service].addressGroups, service.namespace);
            Delete(s, OfService(service)) == Step(
              State(s.services - {service}, s.groups, RemovedAt(s.mappings, service, keys),
                    CascadeBindings(s.bindings, service)), true)
  {
    DropFromGroupsIsRemoval(s.(bindings := CascadeBindings(s.bindings, service)), service,
        s.services[service].addressGroups);
  }

  /** The same by the fields: the service is gone, and the bindings of its namespace that
      name it, and no others, are marked deleted; each mapping one of its groups names has
      lost the service's entry. */
  lemma {:induction false} ServiceDeletionExactly(s: State, service: Key)
    requires AllHealthy(s.mappings) && AllUnique(s.mappings) && WellKeyed(s) && service in s.services
    ensures var r := Delete(s, OfService(service)); var s' := r.state;
            && r.ok && s'.services == s.services - {service} && s'.groups == s.groups
            && s'.bindings.Keys == s.bindings.Keys && s'.mappings.Keys == s.mappings.Keys
            && (forall k :: k in s.bindings ==>
                  s'.bindings[k] ==
                  if BindsService(s.bindings[k], service) then s.bindings[k].(deleting := true) else s.bindings[k])
            && (forall k :: k in s.mappings ==>
                  s'.mappings[k] ==
                  if NamesKey(s.services[service].addressGroups, service.namespace, k)
                  then s.mappings[k].(items := Remove(s.mappings[k].items, service)) else s.mappings[k])
  {
    ServiceDeletionEffect(s, service);
    forall k ensures k in Named(s.services[service].addressGroups, service.namespace)
                     <==> NamesKey(s.services[service].addressGroups, service.namespace, k)
    {
      NamedMeans(s.services[service].addressGroups, service.namespace, k);
    }
  }

  function WithoutRef(services: map<Key, Service>, service: Key, r: ObjectRef): map<Key, Service>
  {
    if service in services
    then services[service := services[service].(addressGroups := RemoveRef(services[service].addressGroups, r))]
    else services
  }

  lemma {:induction false} BindingDeletionEffect(s: State, k: Key)
    requires AllHealthy(s.mappings) && AllUnique(s.mappings) && WellKeyed(s) && k in s.bindings
    requires s.bindings[k].ServiceKey() in s.services
             ==> NoDuplicates(s.services[s.bindings[k].ServiceKey()].ingressPorts)
    ensures var b := s.bindings[k];
            Delete(s, OfBinding(k)) == Step(
              State(WithoutRef(s.services, b.ServiceKey(), b.addressGroup), s.groups,
                    RemovedAt(s.mappings, b.ServiceKey(), {b.MappingKey()}), s.bindings - {k}), true)
  {
    var b := s.bindings[k];
    var svcKey := b.ServiceKey();
    var s1 := s;
    if svcKey in s.services {
      var refs := RemoveRef(s.services[svcKey].addressGroups, b.addressGroup);
      GroupsWriteAdmitted(s, s.services[svcKey], refs);
      s1 := WriteGroups(s, s.services[svcKey], refs).state;
      if refs == s.services[svcKey].addressGroups { assert s.services[svcKey := s.services[svcKey]] == s.services; }
    }
    assert s1 == s.(services := WithoutRef(s.services, svcKey, b.addressGroup));
    DropIsRemoval(s1, b.MappingKey(), svcKey);
  }

  lemma {:induction false} RemoveRefNames(refs: seq<ObjectRef>, r: ObjectRef, namespace: string)
    ensures Named(RemoveRef(refs, r), namespace) <= Named(refs, namespace)
    ensures Named(refs, namespace) <= Named(RemoveRef(refs, r), namespace) + {r.Resolve(namespace)}
  {
    var i, refs' := FindRef(refs, r), RemoveRef(refs, r);
    if i < |refs| {
      forall k | k in Named(refs', namespace) ensures k in Named(refs, namespace) {
        var j :| 0 <= j < |refs'| && refs'[j].Resolve(namespace) == k;
        assert refs[if j < i then j else j + 1].Resolve(namespace) == k;
      }
      forall k | k in Named(refs, namespace) ensures k in Named(refs', namespace) + {r.Resolve(namespace)} {
        var j :| 0 <= j < |refs| && refs[j].Resolve(namespace) == k;
        if j != i { assert refs'[if j < i then j else j - 1].Resolve(namespace) == k; }
      }
    }
  }

  lemma {:induction false} ServiceStep(s0: State, s: State, service: Key, done: set<Key>) returns (done': set<Key>)
    requires service in s0.services && s0.services[service].key == service && AllUnique(s0.mappings)
    requires Reached(s0, s, service, done) && service in s.services
    ensures Delete(s, OfService(service)).ok && Reached(s0, Delete(s, OfService(service)).state, service, done')
  {
    var keys := Named(s.services[service].addressGroups, service.namespace);
    ServiceDeletionEffect(s, service);
    DropFromGroupsIsRemoval(s, service, s.services[service].addressGroups);
    RemovedAtUnion(s0.mappings, service, done, keys);
    done' := done + keys;
    assert Elsewhere(s0, Delete(s, OfService(service)).state, service);
  }

  lemma {:induction false} BindingStep(s0: State, s: State, service: Key, done: set<Key>, k: Key)
    returns (done': set<Key>)
    requires service in s0.services && s0.services[service].key == service && AllUnique(s0.mappings)
    requires NoDuplicates(s0.services[service].ingressPorts)
    requires Reached(s0, s, service, done)
    requires k in s.bindings && BindsService(s0.bindings[k], service)
    ensures Delete(s, OfBinding(k)).ok && Reached(s0, Delete(s, OfBinding(k)).state, service, done')
  {
    var b := s.bindings[k];
    assert b.ServiceKey() == service;
    BindingDeletionEffect(s, k);
    DropIsRemoval(s, b.MappingKey(), service);
    RemovedAtUnion(s0.mappings, service, done, {b.MappingKey()});
    done' := done + {b.MappingKey()};
    var s' := Delete(s, OfBinding(k)).state;
    assert b.MappingKey() == s0.bindings[k].MappingKey();
    assert BindingsLeft(s0, s', service, done');
    if service in s.services {
      RemoveRefNames(s.services[service].addressGroups, b.addressGroup, service.namespace);
    }
    assert ServiceLeft(s0.services[service], s', done');
    assert Elsewhere(s0, s', service);
  }

  lemma {:induction false} DeletionStep(s0: State, s: State, service: Key, done: set<Key>, d: Deletion)
    returns (done': set<Key>)
    requires service in s0.services && s0.services[service].key == service && AllUnique(s0.mappings)
    requires NoDuplicates(s0.services[service].ingressPorts)
    requires Reached(s0, s, service, done) && AboutService(s0, d, service)
    ensures var s' := Delete(s, d).state;
            && Delete(s, d).ok && Reached(s0, s', service, done') && Gone(s', d)
            && s'.services.Keys <= s.services.Keys && s'.bindings.Keys <= s.bindings.Keys
  {
    done' := done;
    match d {
      case OfService(k) =>
        if k in s.services { ServiceDeletionEffect(s, k); done' := ServiceStep(s0, s, service, done); }
      case OfBinding(k) =>
        if k in s.bindings {
          assert s.bindings[k].ServiceKey() == service;
          BindingDeletionEffect(s, k);
          done' := BindingStep(s0, s, service, done, k);
        }
    }
  }

  lemma {:induction false} DeletionRun(s0: State, s: State, service: Key, done: set<Key>, ds: seq<Deletion>)
    returns (done': set<Key>)
    requires service in s0.services && s0.services[service].key == service && AllUnique(s0.mappings)
    requires NoDuplicates(s0.services[service].ingressPorts)
    requires Reached(s0, s, service, done) && forall i :: 0 <= i < |ds| ==> AboutService(s0, ds[i], service)
    ensures var s' := DeleteAll(s, ds).state;
            && DeleteAll(s, ds).ok && Reached(s0, s', service, done')
            && (forall i :: 0 <= i < |ds| ==> Gone(s', ds[i]))
            && s'.services.Keys <= s.services.Keys && s'.bindings.Keys <= s.bindings.Keys
    decreases ds
  {
    if ds == [] {
      done' := done;
    } else {
      var done1 := DeletionStep(s0, s, service, done, ds[0]);
      done' := DeletionRun(s0, Delete(s, ds[0]).state, service, done1, ds[1..]);
      var s1, s' := Delete(s, ds[0]).state, DeleteAll(s, ds).state;
      forall i | 0 <= i < |ds| ensures Gone(s', ds[i]) {
        if i == 0 { assert Gone(s1, ds[0]); } else { assert ds[i] == ds[1..][i - 1]; }
      }
    }
  }

  /** Every order of reconciling a deleted service and its deleted bindings, with any
      repetitions, succeeds and ends in the same port mappings: each mapping the service or
      a binding named has lost exactly the service's entry, the others are untouched. The
      service and its bindings are gone, other services and their bindings are untouched. */
  lemma {:induction false} TeardownConfluence(s: State, service: Key, ds: seq<Deletion>)
    requires WellKeyed(s) && AllHealthy(s.mappings) && AllUnique(s.mappings)
    requires service in s.services && NoDuplicates(s.services[service].ingressPorts)
    requires forall i :: 0 <= i < |ds| ==> AboutService(s, ds[i], service)
    requires OfService(service) in ds
    requires forall k :: k in s.bindings && BindsService(s.bindings[k], service) ==> OfBinding(k) in ds
    ensures DeleteAll(s, ds).ok
    ensures DeleteAll(s, ds).state.mappings == RemovedAt(s.mappings, service, Targets(s, service))
    ensures forall k :: k in Targets(s, service) && k in s.mappings
                        ==> !HasEntry(DeleteAll(s, ds).state.mappings[k].items, service)
    ensures forall k :: k in s.mappings ==>
              DeleteAll(s, ds).state.mappings[k] ==
              if k in Targets(s, service) then s.mappings[k].(items := Remove(s.mappings[k].items, service))
                  else s.mappings[k]
    ensures service !in DeleteAll(s, ds).state.services && Elsewhere(s, DeleteAll(s, ds).state, service)
    ensures forall k ::
            k in s.bindings && BindsService(s.bindings[k], service)
            ==> k !in DeleteAll(s, ds).state.bindings
  {
    assert RemovedAt(s.mappings, service, {}) == s.mappings;
    var done := DeletionRun(s, s, service, {}, ds);
    var s' := DeleteAll(s, ds).state;
    assert Gone(s', OfService(service));
    forall k | k in s.bindings && BindsService(s.bindings[k], service) ensures s.bindings[k].MappingKey() in done {
      assert Gone(s', OfBinding(k));
    }
    assert done == Targets(s, service);
    forall k | k in Targets(s, service) && k in s.mappings ensures !HasEntry(s'.mappings[k].items, service) {
      RemoveKeepsUnique(s.mappings[k].items, service);
    }
  }
}
