/** The watches that requeue bindings and services: they walk the references backwards, and
    must not miss a binding whose reconcile would now write something else. */
module BindingWatch {
  import opened Wrappers
  import opened Model
  import opened Entries
  import opened Lifecycle
  import RuleWatch

  predicate RequestedForService(bindings: map<Key, Binding>, service: Key, k: Key)
  {
    k in bindings && bindings[k].ServiceKey() == service
  }

  /** A reference without a namespace matches the group of that name in every namespace. */
  predicate RequestedForGroup(bindings: map<Key, Binding>, group: Key, k: Key)
  {
    && k in bindings && bindings[k].addressGroup.name == group.name
    && bindings[k].addressGroup.namespace in {group.namespace, ""}
  }

  /** findBindingsForService. */
  method FindBindingsForService(service: Key, bindings: map<Key, Binding>) returns (requests: seq<Key>)
    requires forall k :: k in bindings ==> bindings[k].key == k
    ensures forall k :: k in requests <==> RequestedForService(bindings, service, k)
    ensures forall k :: k in requests <==>
              k in bindings && k.namespace == service.namespace && bindings[k].serviceName == service.name
  {
    requests := [];
    var todo := set k | k in bindings && k.namespace == service.namespace;
    while todo != {}
      invariant forall k :: k in todo ==> k in bindings && k.namespace == service.namespace
      invariant forall k :: k in requests ==> RequestedForService(bindings, service, k)
      invariant forall k :: RequestedForService(bindings, service, k) ==> k in requests || k in todo
      decreases todo
    {
      var k :| k in todo;
      todo := todo - {k};
      if bindings[k].serviceName == service.name {
        requests := requests + [k];
      }
    }
  }

  /** findBindingsForAddressGroup and findBindingsForPortMapping: a mapping has its group's key. */
  method FindBindingsForGroup(group: Key, bindings: map<Key, Binding>) returns (requests: seq<Key>)
    ensures forall k :: k in requests <==> RequestedForGroup(bindings, group, k)
    ensures forall k :: k in requests <==>
              && k in bindings && bindings[k].addressGroup.name == group.name
              && (bindings[k].addressGroup.namespace == group.namespace || bindings[k].addressGroup.namespace == "")
  {
    requests := [];
    var todo := bindings.Keys;
    while todo != {}
      invariant todo <= bindings.Keys
      invariant forall k :: k in requests <==> k !in todo && RequestedForGroup(bindings, group, k)
      decreases todo
    {
      var k :| k in todo;
      todo := todo - {k};
      var ref := bindings[k].addressGroup;
      if ref.name == group.name && (ref.namespace == group.namespace || ref.namespace == "") {
        requests := requests + [k];
      }
    }
  }

  /** findServicesForPortMapping: the services that have an entry. */
  method FindServicesForPortMapping(items: seq<ServicePortsRef>) returns (requests: seq<Key>)
    ensures forall k :: k in requests <==> HasEntry(items, k)
  {
    requests := [];
    for i := 0 to |items|
      invariant forall k :: k in requests <==> exists j :: 0 <= j < i && items[j].IsFor(k)
    {
      requests := requests + [Key(items[i].ref.namespace, items[i].ref.name)];
    }
    forall k ensures k in requests <==> HasEntry(items, k) { EntryIsSomewhere(items, k); }
  }

  lemma {:induction false} EntryIsSomewhere(items: seq<ServicePortsRef>, service: Key)
    ensures HasEntry(items, service) <==> exists j :: 0 <= j < |items| && items[j].IsFor(service)
  {
    var i := FindEntry(items, service);
  }

  // ---------------------------------------------------------------------------
  // What a binding wants
  // ---------------------------------------------------------------------------

  /** The two lists a reconcile of a binding works towards, when its objects exist. */
  datatype Lists = Lists(refs: seq<ObjectRef>, items: seq<ServicePortsRef>)

  function Wanted(s: State, b: Binding): Option<Lists>
    requires WellKeyed(s)
  {
    var svc, key := b.ServiceKey(), b.MappingKey();
    if svc !in s.services || key !in s.groups then None
    else Some(Lists(AddRef(s.services[svc].addressGroups, b.addressGroup),
                    Upsert(if key in s.mappings then s.mappings[key].items else [], s.services[svc])))
  }

  lemma {:induction false} AddRefAgain(refs: seq<ObjectRef>, r: ObjectRef)
    ensures AddRef(AddRef(refs, r), r) == AddRef(refs, r)
  {
    if FindRef(refs, r) == |refs| {
      assert (refs + [r])[|refs|].SameAs(r);
      assert FindRef(refs + [r], r) < |refs + [r]|;
    }
  }

  /** A binding pass that ends without an error has written both wanted lists, a new
      mapping included, and nothing else in any other object. */
  lemma {:induction false} BindReachesWanted(s: State, b: Binding)
    requires WellKeyed(s) && Bind(s, b).ok && b.ServiceKey() in s.services && b.MappingKey() in s.groups
    ensures Wanted(s, b).Some? && var s' := Bind(s, b).state;
            && Resolved(s', b)
            && GroupsOf(s', b) == Wanted(s, b).value.refs && ItemsOf(s', b) == Wanted(s, b).value.items
            && s' == WithLists(EnsureMapping(s, b.MappingKey()), b, Wanted(s, b).value.refs, Wanted(s, b).value.items)
  {
    var s1 := EnsureMapping(s, b.MappingKey());
    assert Bind(s1, b) == Bind(s, b);
    BindEffect(s1, b);
  }

  /** A second pass of the same binding changes nothing. */
  lemma {:induction false} BindIdempotent(s: State, b: Binding)
    requires WellKeyed(s) && Bind(s, b).ok
    ensures Bind(Bind(s, b).state, b) == Bind(s, b)
  {
    if Wanted(s, b).Some? {
      var s' := Bind(s, b).state;
      var service := s.services[b.ServiceKey()];
      var items := EnsureMapping(s, b.MappingKey()).mappings[b.MappingKey()].items;
      BindReachesWanted(s, b);
      AddRefAgain(service.addressGroups, b.addressGroup);
      UpsertExact(items, service);
      assert s'.services[b.ServiceKey()].ingressPorts == service.ingressPorts;
      SameEntries(ItemsOf(s', b), service, s'.services[b.ServiceKey()]);
      UpdateChanges(s'.mappings, b.MappingKey(), s'.mappings[b.MappingKey()]);
    }
  }

  /** An upsert depends on the service's key and ports alone. */
  lemma {:induction false} SameEntries(items: seq<ServicePortsRef>, a: Service, b: Service)
    requires a.key == b.key && a.ingressPorts == b.ingressPorts
    ensures Upsert(items, a) == Upsert(items, b)
  {
  }

  // ---------------------------------------------------------------------------
  // Completeness
  // ---------------------------------------------------------------------------

  /** Two states that may differ in one service, one group and one mapping. */
  ghost predicate DifferOnlyAt(s: State, s': State, service: Key, group: Key, mapping: Key)
  {
    && RuleWatch.SameExcept(s.services, s'.services, service)
    && s.groups - {group} == s'.groups - {group}
    && RuleWatch.SameExcept(s.mappings, s'.mappings, mapping)
  }

  /** The object under a key appears, goes or gets another value. */
  predicate Changed<V(==)>(m: map<Key, V>, m': map<Key, V>, k: Key)
  {
    (k in m <==> k !in m') || (k in m && k in m' && m[k] != m'[k])
  }

  /** Whatever changes what a binding wants, a watch on something that changed requests it. */
  lemma {:induction false} BindingWatchesComplete(s: State, s': State, service: Key, group: Key, mapping: Key,
                                                  bindings: map<Key, Binding>, k: Key)
    requires WellKeyed(s) && WellKeyed(s') && DifferOnlyAt(s, s', service, group, mapping)
    requires k in bindings && bindings[k].key == k
    requires Wanted(s, bindings[k]) != Wanted(s', bindings[k])
    ensures || (RequestedForService(bindings, service, k) && Changed(s.services, s'.services, service))
            || (RequestedForGroup(bindings, group, k) && (group in s.groups <==> group !in s'.groups))
            || (RequestedForGroup(bindings, mapping, k) && Changed(s.mappings, s'.mappings, mapping))
  {
    var b := bindings[k];
    if b.ServiceKey() != service { RuleWatch.SameElsewhere(s.services, s'.services, service, b.ServiceKey()); }
    if b.MappingKey() != mapping { RuleWatch.SameElsewhere(s.mappings, s'.mappings, mapping, b.MappingKey()); }
    if b.MappingKey() != group {
      assert b.MappingKey() in s.groups <==> b.MappingKey() in s.groups - {group};
      assert b.MappingKey() in s'.groups <==> b.MappingKey() in s'.groups - {group};
    }
  }

  /** A mapping without the current entry of a bound service wakes the binding, whose pass
      restores the entry for good. Remark: the mapping's own watch on services requests the
      services that have an entry in it, so it does not notice a lost one. */
  lemma {:induction false} StaleMappingIsRepaired(s: State, bindings: map<Key, Binding>, k: Key)
    requires k in bindings && Resolved(s, bindings[k])
    ensures var b := bindings[k];
            && RequestedForGroup(bindings, b.MappingKey(), k)
            && (Bind(s, b).ok ==>
                  var items, service := ItemsOf(Bind(s, b).state, b), s.services[b.ServiceKey()];
                  items == Upsert(ItemsOf(s, b), service) && Upsert(items, service) == items)
  {
    var b := bindings[k];
    UpsertExact(ItemsOf(s, b), s.services[b.ServiceKey()]);
    if Bind(s, b).ok { BindReachesWanted(s, b); }
  }
}
