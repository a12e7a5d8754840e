/** What the Service and AddressGroupBinding controllers do to services and port mappings,
    as functions of the stored state, and the theorems about them. The mapping webhook and
    the service webhook stand between the controllers and the store: a write they reject
    leaves the state as it was and ends the reconcile with an error. */
module Lifecycle {
  import opened PortGrammar
  import opened Model
  import opened PortChecks
  import opened MappingChecks
  import opened Entries

  type Mappings = map<Key, PortMapping>

  datatype State = State(
    services: map<Key, Service>,
    groups: set<Key>,
    mappings: Mappings,
    bindings: map<Key, Binding>)

  /** A state after a reconcile, and whether the reconcile ended without an error. */
  datatype Step<S> = Step(state: S, ok: bool)

  // ---------------------------------------------------------------------------
  // Admission of writes
  // ---------------------------------------------------------------------------

  /** ValidateUpdate of the port-mapping webhook (its spec has no fields to compare). */
  predicate MappingUpdateAdmitted(updated: PortMapping)
  {
    updated.deleting || InternalOK(updated.items)
  }

  predicate AllPortsValid(ports: seq<IngressPort>)
  {
    forall i :: 0 <= i < |ports| ==> ValidatePort(ports[i].port)
  }

  predicate PortsChanged(before: Service, after: Service)
  {
    |after.ingressPorts| > |before.ingressPorts| || before.ingressPorts != after.ingressPorts
  }

  /** The ports of a service fit a mapping that must exist. */
  predicate FitsMapping(service: Service, key: Key, mappings: Mappings)
  {
    key in mappings && OverlapFree(service, mappings[key].items)
  }

  predicate FitsGroups(service: Service, groups: seq<ObjectRef>, mappings: Mappings)
  {
    forall i :: 0 <= i < |groups| ==> FitsMapping(service, groups[i].Resolve(service.key.namespace), mappings)
  }

  /** ValidateUpdate of the service webhook. */
  predicate ServiceUpdateAdmitted(before: Service, after: Service, mappings: Mappings)
  {
    || after.deleting
    || (&& NoDuplicates(after.ingressPorts) && AllPortsValid(after.ingressPorts)
        && (PortsChanged(before, after) ==> FitsGroups(after, after.addressGroups, mappings)))
  }

  /** ValidateCreate of the service webhook: the groups of a new service are not looked at. */
  predicate ServiceCreateAdmitted(service: Service)
  {
    NoDuplicates(service.ingressPorts) && AllPortsValid(service.ingressPorts)
  }

  /** A mapping write: nothing is sent when nothing changes. */
  function PatchItems(m: Mappings, key: Key, items: seq<ServicePortsRef>): Step<Mappings>
    requires key in m
  {
    var updated := m[key].(items := items);
    if items == m[key].items then Step(m, true)
    else if MappingUpdateAdmitted(updated) then Step(m[key := updated], true)
    else Step(m, false)
  }

  // ---------------------------------------------------------------------------
  // Service controller, normal reconcile
  // ---------------------------------------------------------------------------

  function ReconcileGroups(m: Mappings, service: Service, groups: seq<ObjectRef>): Step<Mappings>
  {
    if groups == [] then Step(m, true)
    else
      var key := groups[0].Resolve(service.key.namespace);
      if key !in m then ReconcileGroups(m, service, groups[1..])
      else
        var patched := PatchItems(m, key, Upsert(m[key].items, service));
        if patched.ok then ReconcileGroups(patched.state, service, groups[1..]) else patched
  }

  function ServiceReconcile(m: Mappings, service: Service): Step<Mappings>
  {
    if service.ingressPorts == [] then Step(m, true) else ReconcileGroups(m, service, service.addressGroups)
  }

  /** The mapping keys a list of references names, seen from a namespace. */
  function Named(groups: seq<ObjectRef>, namespace: string): set<Key>
  {
    set i | 0 <= i < |groups| :: groups[i].Resolve(namespace)
  }

  function UpsertAt(m: Mappings, service: Service, keys: set<Key>): Mappings
  {
    map k | k in m :: if k in keys then m[k].(items := Upsert(m[k].items, service)) else m[k]
  }

  predicate AcceptsUpsert(mapping: PortMapping, service: Service)
  {
    || Upsert(mapping.items, service) == mapping.items
    || MappingUpdateAdmitted(mapping.(items := Upsert(mapping.items, service)))
  }

  lemma {:induction false} UpdateChanges<V>(m: map<Key, V>, k: Key, v: V)
    requires k in m
    ensures m[k := v] == m <==> m[k] == v
  {
  }

  lemma {:induction false} NamedCons(groups: seq<ObjectRef>, namespace: string)
    requires groups != []
    ensures Named(groups, namespace) == {groups[0].Resolve(namespace)} + Named(groups[1..], namespace)
  {
    var rest := groups[1..];
    forall k ensures k in Named(groups, namespace) <==> k in {groups[0].Resolve(namespace)} + Named(rest, namespace) {
      if k in Named(rest, namespace) {
        var i :| 0 <= i < |rest| && rest[i].Resolve(namespace) == k;
        assert groups[i + 1].Resolve(namespace) == k;
      }
      if k in Named(groups, namespace) {
        var i :| 0 <= i < |groups| && groups[i].Resolve(namespace) == k;
        assert i > 0 ==> rest[i - 1].Resolve(namespace) == k;
      }
    }
  }

  ghost predicate UpsertsExactly(m: Mappings, service: Service, keys: set<Key>, r: Step<Mappings>)
  {
    && (r.ok <==> forall k :: k in keys && k in m ==> AcceptsUpsert(m[k], service))
    && (r.ok ==> r.state == UpsertAt(m, service, keys))
  }

  lemma {:induction false} UpsertAtCons(m: Mappings, service: Service, key: Key, rest: set<Key>)
    requires key in m
    ensures UpsertAt(m[key := m[key].(items := Upsert(m[key].items, service))], service, rest)
            == UpsertAt(m, service, {key} + rest)
  {
    UpsertExact(m[key].items, service);
  }

  lemma {:induction false} AcceptsAgain(mapping: PortMapping, service: Service)
    ensures AcceptsUpsert(mapping.(items := Upsert(mapping.items, service)), service)
  {
    UpsertExact(mapping.items, service);
  }

  lemma {:induction false} UpsertsExactlyCons(m: Mappings, service: Service, key: Key, rest: set<Key>,
                                              r: Step<Mappings>)
    requires key in m && AcceptsUpsert(m[key], service)
    requires UpsertsExactly(m[key := m[key].(items := Upsert(m[key].items, service))], service, rest, r)
    ensures UpsertsExactly(m, service, {key} + rest, r)
  {
    UpsertAtCons(m, service, key, rest);
    AcceptsAgain(m[key], service);
    var m' := m[key := m[key].(items := Upsert(m[key].items, service))];
    assert forall k :: k in m && k != key ==> m'[k] == m[k];
  }

  /** The reconcile succeeds exactly when every named mapping accepts its upsert, and then
      it has upserted exactly the existing named mappings, each once. */
  lemma {:induction false} ReconcileGroupsExact(m: Mappings, service: Service, groups: seq<ObjectRef>)
    ensures UpsertsExactly(m, service, Named(groups, service.key.namespace), ReconcileGroups(m, service, groups))
  {
    if groups == [] {
      assert UpsertAt(m, service, {}) == m;
    } else {
      NamedCons(groups, service.key.namespace);
      var key := groups[0].Resolve(service.key.namespace);
      var rest := Named(groups[1..], service.key.namespace);
      if key !in m {
        ReconcileGroupsExact(m, service, groups[1..]);
        assert UpsertAt(m, service, rest) == UpsertAt(m, service, {key} + rest);
      } else {
        var patched := PatchItems(m, key, Upsert(m[key].items, service));
        if AcceptsUpsert(m[key], service) {
          UpdateChanges(m, key, m[key]);
          assert patched == Step(m[key := m[key].(items := Upsert(m[key].items, service))], true);
          ReconcileGroupsExact(patched.state, service, groups[1..]);
          UpsertsExactlyCons(m, service, key, rest, ReconcileGroups(patched.state, service, groups[1..]));
        }
      }
    }
  }

  /** A second service reconcile changes nothing. */
  lemma {:induction false} ServiceReconcileIdempotent(m: Mappings, service: Service)
    requires ServiceReconcile(m, service).ok
    ensures ServiceReconcile(ServiceReconcile(m, service).state, service) == ServiceReconcile(m, service)
  {
    var groups, keys := service.addressGroups, Named(service.addressGroups, service.key.namespace);
    if service.ingressPorts != [] {
      ReconcileGroupsExact(m, service, groups);
      var m' := UpsertAt(m, service, keys);
      ReconcileGroupsExact(m', service, groups);
      forall k | k in keys && k in m' ensures Upsert(m'[k].items, service) == m'[k].items {
        UpsertExact(m[k].items, service);
      }
      assert UpsertAt(m', service, keys) == m';
    }
  }

  /** A mapping the webhook would accept as it stands. */
  predicate Healthy(mapping: PortMapping)
  {
    mapping.deleting || InternalOK(mapping.items)
  }

  predicate AllHealthy(m: Mappings)
  {
    forall k :: k in m ==> Healthy(m[k])
  }

  /** The service would pass the overlap check of every existing mapping its groups name,
      save those being deleted, whose writes are not checked. */
  predicate FitsNamed(m: Mappings, service: Service)
  {
    forall k :: k in Named(service.addressGroups, service.key.namespace) && k in m
                ==> m[k].deleting || OverlapFree(service, m[k].items)
  }

  lemma {:induction false} AcceptsUpsertExactly(mapping: PortMapping, service: Service)
    requires Healthy(mapping) && NoDuplicates(service.ingressPorts)
    ensures AcceptsUpsert(mapping, service) <==> mapping.deleting || OverlapFree(service, mapping.items)
  {
    if !mapping.deleting {
      AdmissionComposes(mapping.items, service);
      OverlapFreeIsDisjoint(mapping.items, service);
      if InternalOK(Upsert(mapping.items, service)) { UpsertNeedsOK(mapping.items, service); }
    }
  }

  lemma {:induction false} ReconcileGroupsHealthy(m: Mappings, service: Service, groups: seq<ObjectRef>)
    requires AllHealthy(m)
    ensures AllHealthy(ReconcileGroups(m, service, groups).state)
  {
    if groups != [] {
      var key := groups[0].Resolve(service.key.namespace);
      var next := if key in m then PatchItems(m, key, Upsert(m[key].items, service)) else Step(m, true);
      assert AllHealthy(next.state);
      if next.ok { ReconcileGroupsHealthy(next.state, service, groups[1..]); }
    }
  }

  /** Over healthy mappings, the pass of a service that passed its duplicate check ends
      without an error exactly when it has no ports or fits every mapping it is put in;
      either way every mapping stays healthy. */
  lemma {:induction false} ServiceReconcilesExactly(m: Mappings, service: Service)
    requires AllHealthy(m) && NoDuplicates(service.ingressPorts)
    ensures ServiceReconcile(m, service).ok <==> service.ingressPorts == [] || FitsNamed(m, service)
    ensures AllHealthy(ServiceReconcile(m, service).state)
  {
    ReconcileGroupsExact(m, service, service.addressGroups);
    ReconcileGroupsHealthy(m, service, service.addressGroups);
    forall k | k in m
      ensures AcceptsUpsert(m[k], service) <==> m[k].deleting || OverlapFree(service, m[k].items)
    {
      AcceptsUpsertExactly(m[k], service);
    }
  }

  /** An admitted service update can be reconciled whenever it changes ports, and otherwise
      exactly when the service fits the mappings its groups name: admission does not look at
      the groups of an update that leaves the ports alone. */
  lemma {:induction false} AdmittedServiceReconciles(m: Mappings, before: Service, after: Service)
    requires AllHealthy(m) && !after.deleting && ServiceUpdateAdmitted(before, after, m)
    ensures before.ingressPorts != after.ingressPorts ==> ServiceReconcile(m, after).ok
    ensures ServiceReconcile(m, after).ok <==> after.ingressPorts == [] || FitsNamed(m, after)
    ensures AllHealthy(ServiceReconcile(m, after).state)
  {
    ServiceReconcilesExactly(m, after);
    if PortsChanged(before, after) {
      var groups := after.addressGroups;
      forall k | k in Named(groups, after.key.namespace) && k in m ensures OverlapFree(after, m[k].items) {
        var i :| 0 <= i < |groups| && groups[i].Resolve(after.key.namespace) == k;
        assert FitsMapping(after, groups[i].Resolve(after.key.namespace), m);
      }
    }
  }

  /** What the service webhook decides on an update, by the fields it compares: an update to
      different ports is admitted exactly when the new ports pass the duplicate check and fit
      every bound group's mapping, which must exist; one that keeps the ports, exactly when
      they pass the duplicate check. Nothing is checked while the service is being deleted. */
  lemma {:induction false} ServiceUpdateDecision(before: Service, after: Service, m: Mappings)
    ensures after.deleting ==> ServiceUpdateAdmitted(before, after, m)
    ensures !after.deleting && before.ingressPorts != after.ingressPorts ==>
              (ServiceUpdateAdmitted(before, after, m) <==>
                 && NoDuplicates(after.ingressPorts)
                 && forall i :: 0 <= i < |after.addressGroups| ==>
                      var ref := after.addressGroups[i];
                      var key := Key(if ref.namespace == "" then after.key.namespace else ref.namespace, ref.name);
                      key in m && OverlapFree(after, m[key].items))
    ensures !after.deleting && before.ingressPorts == after.ingressPorts ==>
              (ServiceUpdateAdmitted(before, after, m) <==> NoDuplicates(after.ingressPorts))
    ensures ServiceCreateAdmitted(after) <==> NoDuplicates(after.ingressPorts)
  {
    if NoDuplicates(after.ingressPorts) {
      forall i | 0 <= i < |after.ingressPorts| ensures ValidatePort(after.ingressPorts[i].port) {
        ValidatePortAgrees(after.ingressPorts[i].port);
      }
    }
    forall i | 0 <= i < |after.addressGroups|
      ensures var ref := after.addressGroups[i];
              ref.Resolve(after.key.namespace)
              == Key(if ref.namespace == "" then after.key.namespace else ref.namespace, ref.name)
    {
    }
  }

  /** What a service pass without an error leaves, field by field: without ports, everything
      as it was; with ports, each existing mapping that a group names has the service's entry
      put in, and every other mapping is as it was. */
  lemma {:induction false} ServiceReconcileExactly(m: Mappings, service: Service)
    requires ServiceReconcile(m, service).ok
    ensures var m' := ServiceReconcile(m, service).state;
            && m'.Keys == m.Keys
            && (service.ingressPorts == [] ==> m' == m)
            && (service.ingressPorts != [] ==> forall k :: k in m ==>
                  m'[k] == if NamesKey(service.addressGroups, service.key.namespace, k)
                           then m[k].(items := Upsert(m[k].items, service)) else m[k])
  {
    if service.ingressPorts != [] {
      ReconcileGroupsExact(m, service, service.addressGroups);
      forall k ensures k in Named(service.addressGroups, service.key.namespace)
                       <==> NamesKey(service.addressGroups, service.key.namespace, k)
      {
        NamedMeans(service.addressGroups, service.key.namespace, k);
      }
    }
  }

  /** A refused pass stops at the first named mapping that refuses its upsert, with exactly the
      mappings named before it done. */
  lemma {:induction false} ReconcileGroupsStops(m: Mappings, service: Service, groups: seq<ObjectRef>) returns (n: nat)
    requires !ReconcileGroups(m, service, groups).ok
    ensures n < |groups|
    ensures ReconcileGroups(m, service, groups).state == UpsertAt(m, service, Named(groups[..n], service.key.namespace))
    ensures ReconcileGroups(m, service, groups[..n]).ok
    ensures var key := groups[n].Resolve(service.key.namespace); key in m && !AcceptsUpsert(m[key], service)
  {
    n := StopAt(m, service, groups);
    ReconcileGroupsExact(m, service, groups[..n]);
  }

  lemma {:induction false} StopAt(m: Mappings, service: Service, groups: seq<ObjectRef>) returns (n: nat)
    requires !ReconcileGroups(m, service, groups).ok
    ensures n < |groups| && ReconcileGroups(m, service, groups[..n]).ok
    ensures ReconcileGroups(m, service, groups).state == ReconcileGroups(m, service, groups[..n]).state
    ensures var key := groups[n].Resolve(service.key.namespace); key in m && !AcceptsUpsert(m[key], service)
  {
    var key := groups[0].Resolve(service.key.namespace);
    var next := if key in m then PatchItems(m, key, Upsert(m[key].items, service)) else Step(m, true);
    if !next.ok {
      n := 0;
      assert groups[..0] == [];
    } else {
      var rest := StopAt(next.state, service, groups[1..]);
      n := rest + 1;
      assert groups[..n][1..] == groups[1..][..rest] && groups[..n][0] == groups[0];
      if key in m { AcceptsAgain(m[key], service); }
    }
  }

  /** Some reference has the key's name and its namespace, or none and is in that namespace. */
  ghost predicate NamesKey(groups: seq<ObjectRef>, namespace: string, k: Key)
  {
    exists i :: 0 <= i < |groups| && groups[i].name == k.name
                && (if groups[i].namespace == "" then namespace else groups[i].namespace) == k.namespace
  }

  lemma {:induction false} NamedMeans(groups: seq<ObjectRef>, namespace: string, k: Key)
    ensures k in Named(groups, namespace) <==> NamesKey(groups, namespace, k)
  {
    if i :| 0 <= i < |groups| && groups[i].name == k.name
            && (if groups[i].namespace == "" then namespace else groups[i].namespace) == k.namespace {
      assert groups[i].Resolve(namespace) == k;
    }
  }

  /** The gap is real: a service on port 80 that is given, at creation or by an update that
      leaves its ports alone, a group whose mapping holds another service on port 80 is
      admitted, and the mapping webhook then refuses its controller. */
  lemma {:induction false} AddedGroupRefused(a: Service, b: Service, group: ObjectRef, m: Mappings)
    requires a.key.name != b.key.name && !b.deleting && b.addressGroups == []
    requires a.ingressPorts == b.ingressPorts == [IngressPort(PROTOCOL_TCP, "80", "")]
    requires m == map[group.Resolve(b.key.namespace) := PortMapping([EntryFor(a)], false)]
    ensures var after := b.(addressGroups := [group]);
            && AllHealthy(m) && ServiceCreateAdmitted(after) && ServiceUpdateAdmitted(b, after, m)
            && !ServiceReconcile(m, after).ok
  {
    var after, key := b.(addressGroups := [group]), group.Resolve(b.key.namespace);
    PortEighty();
    EntryOKIsNoDuplicates(a);
    ValidatePortAgrees("80");
    SelectMembers(a.ingressPorts, PROTOCOL_TCP);
    var item := EntryFor(a);
    assert ConfigOf(a.ingressPorts[0]) in item.ports.tcp;
    var i :| 0 <= i < |item.ports.tcp| && item.ports.tcp[i] == ConfigOf(a.ingressPorts[0]);
    assert Clash(item.ports.tcp[i].port, after.ingressPorts[0].port);
    assert !EntryClear(after, item) && [item][0] == item;
    assert !OverlapFree(after, m[key].items);
    assert after.addressGroups[0].Resolve(after.key.namespace) in Named(after.addressGroups, after.key.namespace);
    ServiceReconcilesExactly(m, after);
  }

  // ---------------------------------------------------------------------------
  // Binding controller
  // ---------------------------------------------------------------------------

  /** Index of the first reference with the same name and namespace, or the length. */
  function FindRef(refs: seq<ObjectRef>, r: ObjectRef): (i: nat)
    ensures i <= |refs|
    ensures forall k :: 0 <= k < i ==> !refs[k].SameAs(r)
    ensures i < |refs| ==> refs[i].SameAs(r)
  {
    if refs == [] || refs[0].SameAs(r) then 0 else 1 + FindRef(refs[1..], r)
  }

  function AddRef(refs: seq<ObjectRef>, r: ObjectRef): seq<ObjectRef>
  {
    if FindRef(refs, r) < |refs| then refs else refs + [r]
  }

  function RemoveRef(refs: seq<ObjectRef>, r: ObjectRef): seq<ObjectRef>
  {
    var i := FindRef(refs, r);
    if i < |refs| then refs[..i] + refs[i + 1..] else refs
  }

  function WriteGroups(s: State, service: Service, refs: seq<ObjectRef>): Step<State>
  {
    var updated := service.(addressGroups := refs);
    if refs == service.addressGroups then Step(s, true)
    else if ServiceUpdateAdmitted(service, updated, s.mappings) then
      Step(s.(services := s.services[service.key := updated]), true)
    else Step(s, false)
  }

  function WriteItems(s: State, key: Key, items: seq<ServicePortsRef>): Step<State>
    requires key in s.mappings
  {
    var patched := PatchItems(s.mappings, key, items);
    Step(s.(mappings := patched.state), patched.ok)
  }

  /** The mapping of an address group, created empty when there is none. */
  function EnsureMapping(s: State, key: Key): (s': State)
    ensures key in s'.mappings
  {
    if key in s.mappings then s else s.(mappings := s.mappings[key := PortMapping([], false)])
  }

  /** reconcileNormal of the binding controller, for a service and a group that exist;
      without them it only reports a condition and tries again later. */
  function Bind(s: State, b: Binding): Step<State>
  {
    var svcKey, key := b.ServiceKey(), b.MappingKey();
    if svcKey !in s.services || key !in s.groups then Step(s, true)
    else
      var service := s.services[svcKey];
      var s1 := EnsureMapping(s, key);
      var grouped := WriteGroups(s1, service, AddRef(service.addressGroups, b.addressGroup));
      if !grouped.ok then grouped
      else WriteItems(grouped.state, key, Upsert(s1.mappings[key].items, service))
  }

  /** reconcileDelete of the binding controller up to the removal of its finalizer. */
  function DropService(s: State, key: Key, service: Key): Step<State>
  {
    if key !in s.mappings then Step(s, true)
    else WriteItems(s, key, Remove(s.mappings[key].items, service))
  }

  function Unlink(s: State, b: Binding): Step<State>
  {
    var svcKey := b.ServiceKey();
    var ungrouped :=
      if svcKey in s.services then
        WriteGroups(s, s.services[svcKey], RemoveRef(s.services[svcKey].addressGroups, b.addressGroup))
      else Step(s, true);
    if !ungrouped.ok then ungrouped
    else DropService(ungrouped.state, b.MappingKey(), svcKey)
  }

  function Unbind(s: State, b: Binding): Step<State>
  {
    var unlinked := Unlink(s, b);
    if unlinked.ok then Step(unlinked.state.(bindings := unlinked.state.bindings - {b.key}), true) else unlinked
  }

  /** References are the same when name and namespace are. */
  ghost predicate NamesGroup(refs: seq<ObjectRef>, r: ObjectRef)
  {
    exists i :: 0 <= i < |refs| && refs[i].name == r.name && refs[i].namespace == r.namespace
  }

  ghost predicate FirstNaming(refs: seq<ObjectRef>, r: ObjectRef, i: nat)
  {
    && i < |refs| && refs[i].name == r.name && refs[i].namespace == r.namespace
    && forall j :: 0 <= j < i ==> !(refs[j].name == r.name && refs[j].namespace == r.namespace)
  }

  /** Adding appends the reference unless one of its name and namespace is there, and keeps
      the earlier ones in order; removing takes exactly the first such reference out. */
  lemma {:induction false} RefEditsExactly(refs: seq<ObjectRef>, r: ObjectRef)
    ensures AddRef(refs, r) == if NamesGroup(refs, r) then refs else refs + [r]
    ensures NamesGroup(AddRef(refs, r), r)
    ensures forall i: nat :: FirstNaming(refs, r, i) ==> RemoveRef(refs, r) == refs[..i] + refs[i + 1..]
    ensures !NamesGroup(refs, r) ==> RemoveRef(refs, r) == refs
  {
    var f := FindRef(refs, r);
    if f < |refs| {
      assert refs[f].SameAs(r);
      assert NamesGroup(refs, r);
    } else {
      assert forall j :: 0 <= j < |refs| ==> !refs[j].SameAs(r);
      assert (refs + [r])[|refs|] == r;
    }
    forall i: nat | FirstNaming(refs, r, i) ensures f == i {
      assert refs[i].SameAs(r);
    }
  }

  lemma {:induction false} AddThenRemove(refs: seq<ObjectRef>, r: ObjectRef)
    ensures RemoveRef(AddRef(refs, r), r) == refs <==> FindRef(refs, r) == |refs|
  {
    var refs' := AddRef(refs, r);
    if FindRef(refs, r) == |refs| {
      assert refs'[|refs|].SameAs(r);
      assert forall k :: 0 <= k < |refs| ==> refs'[k] == refs[k];
      assert FindRef(refs', r) == |refs|;
      assert refs'[..|refs|] + refs'[|refs| + 1..] == refs;
    }
  }

  /** States the store can hold: services under their own keys. */
  predicate WellKeyed(s: State)
  {
    && (forall k :: k in s.services ==> s.services[k].key == k)
    && (forall k :: k in s.bindings ==> s.bindings[k].key == k)
  }

  /** A binding whose service, group and mapping are all in the store. */
  predicate Resolved(s: State, b: Binding)
  {
    WellKeyed(s) && b.ServiceKey() in s.services && b.MappingKey() in s.groups && b.MappingKey() in s.mappings
  }

  function GroupsOf(s: State, b: Binding): seq<ObjectRef>
    requires Resolved(s, b)
  {
    s.services[b.ServiceKey()].addressGroups
  }

  function ItemsOf(s: State, b: Binding): seq<ServicePortsRef>
    requires Resolved(s, b)
  {
    s.mappings[b.MappingKey()].items
  }

  /** The state with other lists in the binding's service and mapping. */
  function WithLists(s: State, b: Binding, refs: seq<ObjectRef>, items: seq<ServicePortsRef>): (s': State)
    requires Resolved(s, b)
    ensures Resolved(s', b) && GroupsOf(s', b) == refs && ItemsOf(s', b) == items
  {
    s.(services := s.services[b.ServiceKey() := s.services[b.ServiceKey()].(addressGroups := refs)],
       mappings := s.mappings[b.MappingKey() := s.mappings[b.MappingKey()].(items := items)])
  }

  lemma {:induction false} GroupsWritten(s: State, key: Key, refs: seq<ObjectRef>)
    requires key in s.services && s.services[key].key == key && WriteGroups(s, s.services[key], refs).ok
    ensures WriteGroups(s, s.services[key], refs).state
            == s.(services := s.services[key := s.services[key].(addressGroups := refs)])
  {
    UpdateChanges(s.services, key, s.services[key]);
  }

  lemma {:induction false} ItemsWritten(s: State, key: Key, items: seq<ServicePortsRef>)
    requires key in s.mappings && WriteItems(s, key, items).ok
    ensures WriteItems(s, key, items).state == s.(mappings := s.mappings[key := s.mappings[key].(items := items)])
  {
    UpdateChanges(s.mappings, key, s.mappings[key]);
  }

  lemma {:induction false} BindEffect(s: State, b: Binding)
    requires Resolved(s, b) && Bind(s, b).ok
    ensures Bind(s, b).state == WithLists(s, b, AddRef(GroupsOf(s, b), b.addressGroup),
            Upsert(ItemsOf(s, b), s.services[b.ServiceKey()]))
  {
    var refs := AddRef(GroupsOf(s, b), b.addressGroup);
    GroupsWritten(s, b.ServiceKey(), refs);
    ItemsWritten(WriteGroups(s, s.services[b.ServiceKey()], refs).state, b.MappingKey(),
                 Upsert(ItemsOf(s, b), s.services[b.ServiceKey()]));
  }

  lemma {:induction false} UnlinkEffect(s: State, b: Binding)
    requires Resolved(s, b) && Unlink(s, b).ok
    ensures Unlink(s, b).state == WithLists(s, b, RemoveRef(GroupsOf(s, b), b.addressGroup),
            Remove(ItemsOf(s, b), b.ServiceKey()))
  {
    var refs := RemoveRef(GroupsOf(s, b), b.addressGroup);
    GroupsWritten(s, b.ServiceKey(), refs);
    ItemsWritten(WriteGroups(s, s.services[b.ServiceKey()], refs).state, b.MappingKey(),
        Remove(ItemsOf(s, b), b.ServiceKey()));
  }

  lemma {:induction false} BindWrites(s: State, b: Binding, service: Service, mapping: PortMapping)
    requires WellKeyed(s) && b.ServiceKey() in s.services && b.MappingKey() in s.groups && Bind(s, b).ok
    requires service == s.services[b.ServiceKey()]
    requires mapping == EnsureMapping(s, b.MappingKey()).mappings[b.MappingKey()]
    ensures Bind(s, b).state == s.(
              services := s.services[b.ServiceKey() :=
                service.(addressGroups := AddRef(service.addressGroups, b.addressGroup))],
              mappings := s.mappings[b.MappingKey() := mapping.(items := Upsert(mapping.items, service))])
  {
    var s1 := EnsureMapping(s, b.MappingKey());
    assert Bind(s1, b) == Bind(s, b);
    BindEffect(s1, b);
    var mapping' := mapping.(items := Upsert(mapping.items, service));
    assert s1.mappings[b.MappingKey() := mapping'] == s.mappings[b.MappingKey() := mapping'];
  }

  /** What a binding pass without an error leaves: when service and group exist, the group is
      in the service's list, after the references that were there before; the service's
      entry is put into the group's mapping, created if there was none; and nothing else
      changes. Without them nothing changes. */
  lemma {:induction false} BindExactly(s: State, b: Binding)
    requires WellKeyed(s) && Bind(s, b).ok
    ensures var ref := b.addressGroup;
            var svc := Key(b.key.namespace, b.serviceName);
            var grp := Key(if ref.namespace == "" then b.key.namespace else ref.namespace, ref.name);
            if svc !in s.services || grp !in s.groups then Bind(s, b).state == s
            else
              var service := s.services[svc];
              var refs := service.addressGroups;
              var mapping := if grp in s.mappings then s.mappings[grp] else PortMapping([], false);
              Bind(s, b).state == s.(
                services := s.services[svc := service.(
                  addressGroups := if NamesGroup(refs, ref) then refs else refs + [ref])],
                mappings := s.mappings[grp := mapping.(items := Upsert(mapping.items, service))])
  {
    if b.ServiceKey() in s.services && b.MappingKey() in s.groups {
      BindWrites(s, b, s.services[b.ServiceKey()], EnsureMapping(s, b.MappingKey()).mappings[b.MappingKey()]);
      RefEditsExactly(s.services[b.ServiceKey()].addressGroups, b.addressGroup);
    }
  }

  /** So a binding that is reconciled is in force: its group in the service, its service in the
      group's mapping. */
  lemma {:induction false} BindStores(s: State, b: Binding)
    requires WellKeyed(s) && Bind(s, b).ok && b.ServiceKey() in s.services && b.MappingKey() in s.groups
    ensures var s' := Bind(s, b).state;
            && b.ServiceKey() in s'.services && NamesGroup(s'.services[b.ServiceKey()].addressGroups, b.addressGroup)
            && b.MappingKey() in s'.mappings && HasEntry(s'.mappings[b.MappingKey()].items, b.ServiceKey())
  {
    var service := s.services[b.ServiceKey()];
    var mapping := EnsureMapping(s, b.MappingKey()).mappings[b.MappingKey()];
    BindWrites(s, b, service, mapping);
    RefEditsExactly(service.addressGroups, b.addressGroup);
    UpsertExact(mapping.items, service);
  }

  /** Over healthy mappings, the pass of a binding whose service passed its duplicate check
      ends without an error exactly when an object is missing, the group's mapping is missing or
      being deleted, or the service fits it. A refused pass has still put the group in. */
  lemma {:induction false} BindSucceedsExactly(s: State, b: Binding)
    requires WellKeyed(s) && AllHealthy(s.mappings) && b.ServiceKey() in s.services && b.MappingKey() in s.groups
    requires NoDuplicates(s.services[b.ServiceKey()].ingressPorts)
    ensures var service := s.services[b.ServiceKey()];
            Bind(s, b).ok <==>
              b.MappingKey() !in s.mappings || s.mappings[b.MappingKey()].deleting
              || OverlapFree(service, s.mappings[b.MappingKey()].items)
    ensures !Bind(s, b).ok ==>
              var refs := s.services[b.ServiceKey()].addressGroups;
              Bind(s, b).state == s.(services := s.services[b.ServiceKey() := s.services[b.ServiceKey()].(
                addressGroups := if NamesGroup(refs, b.addressGroup) then refs else refs + [b.addressGroup])])
  {
    var service, key := s.services[b.ServiceKey()], b.MappingKey();
    var refs := AddRef(service.addressGroups, b.addressGroup);
    var s1 := EnsureMapping(s, key);
    GroupsWriteAdmitted(s1, service, refs);
    GroupsWritten(s1, b.ServiceKey(), refs);
    RefEditsExactly(service.addressGroups, b.addressGroup);
    AcceptsUpsertExactly(s1.mappings[key], service);
  }

  /** What the deletion of a binding leaves when it ends without an error: the binding is
      gone, its service has lost the first reference to its group, its mapping the service's
      entry, and nothing else changes. */
  lemma {:induction false} UnbindExactly(s: State, b: Binding)
    requires WellKeyed(s) && Unbind(s, b).ok
    ensures var ref := b.addressGroup;
            var svc := Key(b.key.namespace, b.serviceName);
            var grp := Key(if ref.namespace == "" then b.key.namespace else ref.namespace, ref.name);
            Unbind(s, b).state == State(
              if svc !in s.services then s.services
              else s.services[svc := s.services[svc].(addressGroups := RemoveRef(s.services[svc].addressGroups, ref))],
              s.groups,
              if grp !in s.mappings then s.mappings
              else s.mappings[grp := s.mappings[grp].(items := Remove(s.mappings[grp].items, svc))],
              s.bindings - {b.key})
  {
    var svc, grp := b.ServiceKey(), b.MappingKey();
    var s1 := s;
    if svc in s.services {
      var refs := RemoveRef(s.services[svc].addressGroups, b.addressGroup);
      GroupsWritten(s, svc, refs);
      s1 := WriteGroups(s, s.services[svc], refs).state;
    }
    if grp in s.mappings { ItemsWritten(s1, grp, Remove(s.mappings[grp].items, svc)); }
  }

  lemma {:induction false} WithListsTwice(s: State, b: Binding, refs: seq<ObjectRef>, items: seq<ServicePortsRef>,
                                         refs': seq<ObjectRef>, items': seq<ServicePortsRef>)
    requires Resolved(s, b)
    ensures WithLists(WithLists(s, b, refs, items), b, refs', items') == WithLists(s, b, refs', items')
  {
  }

  lemma {:induction false} WithListsChanges(s: State, b: Binding, refs: seq<ObjectRef>, items: seq<ServicePortsRef>)
    requires Resolved(s, b)
    ensures WithLists(s, b, refs, items).services == s.services <==> refs == GroupsOf(s, b)
    ensures WithLists(s, b, refs, items).mappings == s.mappings <==> items == ItemsOf(s, b)
  {
    UpdateChanges(s.services, b.ServiceKey(), s.services[b.ServiceKey()].(addressGroups := refs));
    UpdateChanges(s.mappings, b.MappingKey(), s.mappings[b.MappingKey()].(items := items));
  }

  /** Binding and then unbinding a group gives back the service's list exactly when the
      group was not in it, and the mapping's list exactly when the service was not in it. */
  lemma {:induction false} BindThenUnlink(s: State, b: Binding)
    requires Resolved(s, b)
    ensures Bind(s, b).ok && Unlink(Bind(s, b).state, b).ok ==>
              var s' := Unlink(Bind(s, b).state, b).state;
              && (s'.services == s.services <==> FindRef(GroupsOf(s, b), b.addressGroup) == |GroupsOf(s, b)|)
              && (s'.mappings == s.mappings <==> !HasEntry(ItemsOf(s, b), b.ServiceKey()))
  {
    if !Bind(s, b).ok || !Unlink(Bind(s, b).state, b).ok { return; }
    var refs, items := AddRef(GroupsOf(s, b), b.addressGroup), Upsert(ItemsOf(s, b), s.services[b.ServiceKey()]);
    BindEffect(s, b);
    UnlinkEffect(WithLists(s, b, refs, items), b);
    WithListsTwice(s, b, refs, items, RemoveRef(refs, b.addressGroup), Remove(items, b.ServiceKey()));
    WithListsChanges(s, b, RemoveRef(refs, b.addressGroup), Remove(items, b.ServiceKey()));
    AddThenRemove(GroupsOf(s, b), b.addressGroup);
    UpsertThenRemove(ItemsOf(s, b), s.services[b.ServiceKey()]);
  }

  /** Writing another group list is always admitted: it leaves the ports alone. */
  lemma {:induction false} GroupsWriteAdmitted(s: State, service: Service, refs: seq<ObjectRef>)
    requires NoDuplicates(service.ingressPorts)
    ensures WriteGroups(s, service, refs).ok
  {
    forall i | 0 <= i < |service.ingressPorts| ensures ValidatePort(service.ingressPorts[i].port) {
      ValidatePortAgrees(service.ingressPorts[i].port);
    }
  }

  lemma {:induction false} AdmittedUpsertWritten(m: Mappings, key: Key, service: Service)
    requires AllHealthy(m) && key in m && NoDuplicates(service.ingressPorts) && OverlapFree(service, m[key].items)
    ensures var r := PatchItems(m, key, Upsert(m[key].items, service)); r.ok && AllHealthy(r.state)
  {
    if !m[key].deleting { AdmissionComposes(m[key].items, service); }
  }

  /** A binding that passed the overlap check is never refused by the mapping webhook. */
  lemma {:induction false} AdmittedBindingReconciles(s: State, b: Binding)
    requires WellKeyed(s) && AllHealthy(s.mappings)
    requires b.ServiceKey() in s.services
    requires NoDuplicates(s.services[b.ServiceKey()].ingressPorts)
    requires b.MappingKey() in s.mappings ==> OverlapFree(s.services[b.ServiceKey()], s.mappings[b.MappingKey()].items)
    ensures Bind(s, b).ok && AllHealthy(Bind(s, b).state.mappings)
  {
    var key, service := b.MappingKey(), s.services[b.ServiceKey()];
    if key in s.groups {
      var s1 := EnsureMapping(s, key);
      assert AllHealthy(s1.mappings) && OverlapFree(service, s1.mappings[key].items);
      GroupsWriteAdmitted(s1, service, AddRef(service.addressGroups, b.addressGroup));
      AdmittedUpsertWritten(s1.mappings, key, service);
    }
  }
}
