/** Admission of bindings and binding policies, and what it guarantees over every run. */
module BindingPolicy {
  import opened Model
  import opened PortChecks
  import opened Entries
  import opened Lifecycle
  import opened Conditions

  const PROVIDER_API := "provider.sgroups.io/v1alpha1"

  // ---------------------------------------------------------------------------
  // Objects
  // ---------------------------------------------------------------------------

  /** The spec both kinds share: a service and an address group. */
  datatype Refs = Refs(service: ObjectRef, group: ObjectRef)

  /** AddressGroupBinding and AddressGroupBindingPolicy as stored; the key is in the map. */
  datatype Stored = Stored(refs: Refs, conditions: seq<Condition>, deleting: bool, finalizers: set<string>)
  {
    predicate Ready() { IsTrue(conditions, READY) }
  }

  datatype World = World(
    services: map<Key, (Service, bool)>,
    groups: map<Key, bool>,
    mappings: Mappings,
    bindings: map<Key, Stored>,
    policies: map<Key, Stored>)

  // ---------------------------------------------------------------------------
  // Webhook of the binding
  // ---------------------------------------------------------------------------

  /** The triple no two live bindings may share. A binding's service reference has no
      namespace, and the binding's own is not part of the comparison. */
  predicate SameBinding(k1: Key, r1: Refs, k2: Key, r2: Refs)
  {
    && r1.service.name == r2.service.name && r1.group.name == r2.group.name
    && ResolveNamespace(r1.group.namespace, k1.namespace) == ResolveNamespace(r2.group.namespace, k2.namespace)
  }

  predicate DuplicateOf(w: World, k: Key, refs: Refs, other: Key)
  {
    other in w.bindings && !w.bindings[other].deleting && SameBinding(other, w.bindings[other].refs, k, refs)
  }

  /** The policy allows the binding: the lookup of the binding webhook. */
  predicate Allows(pk: Key, policy: Refs, bk: Key, binding: Refs)
  {
    var groupNamespace := ResolveNamespace(binding.group.namespace, bk.namespace);
    && pk.namespace == groupNamespace
    && policy.group.name == binding.group.name && policy.service.name == binding.service.name
    && ResolveNamespace(policy.service.namespace, groupNamespace) == bk.namespace
  }

  /** What create and update of a binding check alike, past the duplicate scan. */
  predicate RefsServed(w: World, k: Key, refs: Refs)
  {
    var service, group := Key(k.namespace, refs.service.name), refs.group.Resolve(k.namespace);
    && service in w.services && w.services[service].1
    && group in w.groups && w.groups[group]
    && (group in w.mappings ==> OverlapFree(w.services[service].0, w.mappings[group].items))
    && (group.namespace != k.namespace ==> exists p :: p in w.policies && Allows(p, w.policies[p].refs, k, refs))
  }

  predicate ValidReference(r: ObjectRef, kind: string, api: string)
  {
    r.name != "" && r.kind == kind && r.apiVersion == api
  }

  predicate BindingCreateAdmitted(w: World, k: Key, refs: Refs)
  {
    && (forall other :: other in w.bindings ==> !DuplicateOf(w, k, refs, other))
    && ValidReference(refs.service, "Service", NETGUARD_API)
    && ValidReference(refs.group, "AddressGroup", PROVIDER_API)
    && RefsServed(w, k, refs)
  }

  predicate BindingUpdateAdmitted(w: World, k: Key, before: Stored, after: Stored)
  {
    || after.deleting
    || (&& (before.refs != after.refs ==> !before.Ready())
        && (|| SameBinding(k, before.refs, k, after.refs)
            || forall other :: other in w.bindings && other != k ==> !DuplicateOf(w, k, after.refs, other))
        && RefsServed(w, k, after.refs))
  }

  // ---------------------------------------------------------------------------
  // Webhook and controller of the policy
  // ---------------------------------------------------------------------------

  predicate PolicyRefsExist(w: World, k: Key, refs: Refs)
  {
    && refs.service.Resolve(k.namespace) in w.services
    && ResolveNamespace(refs.group.namespace, k.namespace) == k.namespace
    && refs.group.Resolve(k.namespace) in w.groups
  }

  predicate PolicyCreateAdmitted(w: World, k: Key, refs: Refs)
  {
    && ValidReference(refs.group, "AddressGroup", NETGUARD_API) && ValidReference(refs.service, "Service", NETGUARD_API)
    && PolicyRefsExist(w, k, refs)
    && forall p :: p in w.policies && p.namespace == k.namespace && p != k
                   ==> !(w.policies[p].refs.service.SameAs(refs.service) && w.policies[p].refs.group.SameAs(refs.group))
  }

  predicate PolicyUpdateAdmitted(w: World, k: Key, before: Stored, after: Stored)
  {
    after.deleting || ((before.refs != after.refs ==> !before.Ready()) && PolicyRefsExist(w, k, after.refs))
  }

  /** No binding in the policy's service namespace refers to its service and group. */
  predicate PolicyDeleteAdmitted(w: World, k: Key, refs: Refs)
  {
    var serviceNamespace := ResolveNamespace(refs.service.namespace, k.namespace);
    forall b :: b in w.bindings && b.namespace == serviceNamespace ==>
      !(&& w.bindings[b].refs.service.name == refs.service.name && w.bindings[b].refs.group.name == refs.group.name
        && ResolveNamespace(w.bindings[b].refs.group.namespace, b.namespace) == k.namespace)
  }

  /** The policy controller writes a condition; it never takes Ready away. */
  function PolicyReconciled(w: World, k: Key): seq<Condition>
    requires k in w.policies
  {
    var p := w.policies[k];
    if p.refs.group.Resolve(k.namespace) !in w.groups then Set(p.conditions, "AddressGroupFound", false)
    else if p.refs.service.Resolve(k.namespace) !in w.services then Set(p.conditions, "ServiceFound", false)
    else Set(p.conditions, READY, true)
  }

  // ---------------------------------------------------------------------------
  // The two loops
  // ---------------------------------------------------------------------------

  /** The policy lookup of the binding webhook, with its found flag. */
  method FindPolicy(w: World, bk: Key, binding: Refs) returns (policyFound: bool)
    ensures policyFound <==> exists p :: p in w.policies && Allows(p, w.policies[p].refs, bk, binding)
  {
    var groupNamespace := ResolveNamespace(binding.group.namespace, bk.namespace);
    var todo := set p | p in w.policies && p.namespace == groupNamespace;
    policyFound := false;
    while todo != {} && !policyFound
      invariant forall p :: p in todo ==> p in w.policies && p.namespace == groupNamespace
      invariant policyFound ==> exists p :: p in w.policies && Allows(p, w.policies[p].refs, bk, binding)
      invariant !policyFound ==> forall p :: p in w.policies && Allows(p, w.policies[p].refs, bk, binding) ==> p in todo
      decreases todo
    {
      var p :| p in todo;
      todo := todo - {p};
      var policy := w.policies[p].refs;
      if policy.group.name == binding.group.name && policy.service.name == binding.service.name
         && ResolveNamespace(policy.service.namespace, groupNamespace) == bk.namespace {
        policyFound := true;
        assert Allows(p, w.policies[p].refs, bk, binding);
      }
    }
  }

  method ReconcilePolicy(w: World, k: Key) returns (conditions: seq<Condition>)
    requires k in w.policies
    ensures conditions == PolicyReconciled(w, k)
    ensures w.policies[k].Ready() ==> IsTrue(conditions, READY)
  {
    var p := w.policies[k];
    if p.refs.group.Resolve(k.namespace) !in w.groups {
      conditions := SetCondition(p.conditions, "AddressGroupFound", false);
      SetDecides(p.conditions, "AddressGroupFound", false, READY);
    } else if p.refs.service.Resolve(k.namespace) !in w.services {
      conditions := SetCondition(p.conditions, "ServiceFound", false);
      SetDecides(p.conditions, "ServiceFound", false, READY);
    } else {
      conditions := SetCondition(p.conditions, READY, true);
      SetDecides(p.conditions, READY, true, "");
    }
  }

  // ---------------------------------------------------------------------------
  // Runs
  // ---------------------------------------------------------------------------

  /** One atomic step of anyone. Writes that are not admitted change nothing. */
  datatype Event =
    | CreateBinding(key: Key, refs: Refs, finalizers: set<string>)
    | UpdateBinding(key: Key, refs: Refs, finalizers: set<string>)
    | DeleteBinding(key: Key)
    | BindingStatus(key: Key, conditions: seq<Condition>)
    | CreatePolicy(key: Key, refs: Refs, finalizers: set<string>)
    | UpdatePolicy(key: Key, refs: Refs, finalizers: set<string>)
    | DeletePolicy(key: Key)
    | PolicyPass(key: Key)
    | ServicesChange(services: map<Key, (Service, bool)>)
    | GroupsChange(groups: map<Key, bool>)
    | MappingsChange(mappings: Mappings)

  /** The API server's side of an admitted update: a deleted object gains no finalizer and
      goes with its last one. */
  function Written(m: map<Key, Stored>, k: Key, after: Stored): map<Key, Stored>
    requires k in m
  {
    if after.deleting && !(after.finalizers <= m[k].finalizers) then m
    else if after.deleting && after.finalizers == {} then m - {k}
    else m[k := after]
  }

  function Deleted(m: map<Key, Stored>, k: Key): map<Key, Stored>
    requires k in m
  {
    if m[k].finalizers == {} then m - {k} else m[k := m[k].(deleting := true)]
  }

  function Next(w: World, e: Event): World
  {
    match e
    case CreateBinding(k, refs, fs) =>
      if k !in w.bindings && BindingCreateAdmitted(w, k, refs)
      then w.(bindings := w.bindings[k := Stored(refs, [], false, fs)]) else w
    case UpdateBinding(k, refs, fs) =>
      if k in w.bindings && BindingUpdateAdmitted(w, k, w.bindings[k], w.bindings[k].(refs := refs, finalizers := fs))
      then w.(bindings := Written(w.bindings, k, w.bindings[k].(refs := refs, finalizers := fs))) else w
    case DeleteBinding(k) => if k in w.bindings then w.(bindings := Deleted(w.bindings, k)) else w
    case BindingStatus(k, cs) =>
      if k in w.bindings then w.(bindings := w.bindings[k := w.bindings[k].(conditions := cs)]) else w
    case CreatePolicy(k, refs, fs) =>
      if k !in w.policies && PolicyCreateAdmitted(w, k, refs)
      then w.(policies := w.policies[k := Stored(refs, [], false, fs)]) else w
    case UpdatePolicy(k, refs, fs) =>
      if k in w.policies && PolicyUpdateAdmitted(w, k, w.policies[k], w.policies[k].(refs := refs, finalizers := fs))
      then w.(policies := Written(w.policies, k, w.policies[k].(refs := refs, finalizers := fs))) else w
    case DeletePolicy(k) =>
      if k in w.policies && PolicyDeleteAdmitted(w, k, w.policies[k].refs)
          then w.(policies := Deleted(w.policies, k)) else w
    case PolicyPass(k) =>
      if k in w.policies && !w.policies[k].deleting
      then w.(policies := w.policies[k := w.policies[k].(conditions := PolicyReconciled(w, k))]) else w
    case ServicesChange(services) => w.(services := services)
    case GroupsChange(groups) => w.(groups := groups)
    case MappingsChange(mappings) => w.(mappings := mappings)
  }

  function After(w: World, es: seq<Event>): World
    decreases es
  {
    if es == [] then w else After(Next(w, es[0]), es[1..])
  }

  /** The part of the world the binding controller reads and writes. */
  function ControllerView(w: World): State
  {
    State(map k | k in w.services :: w.services[k].0, w.groups.Keys, w.mappings, map[])
  }

  /** Admission of a binding composes with its reconciliation: with stored services and
      mappings that are themselves admissible, the controller's writes for an admitted
      binding all pass their webhooks, and every mapping stays admissible. */
  lemma {:induction false} AdmittedBindingIsReconciled(w: World, k: Key, refs: Refs)
    requires BindingCreateAdmitted(w, k, refs)
    requires forall s :: s in w.services ==> w.services[s].0.key == s && NoDuplicates(w.services[s].0.ingressPorts)
    requires AllHealthy(w.mappings)
    ensures var r := Bind(ControllerView(w), Binding(k, refs.service.name, refs.group, false));
            var svc := Key(k.namespace, refs.service.name);
            var grp := Key(if refs.group.namespace == "" then k.namespace else refs.group.namespace, refs.group.name);
            && r.ok && AllHealthy(r.state.mappings)
            && svc in r.state.services && NamesGroup(r.state.services[svc].addressGroups, refs.group)
            && grp in r.state.mappings && HasEntry(r.state.mappings[grp].items, svc)
  {
    var s, b := ControllerView(w), Binding(k, refs.service.name, refs.group, false);
    AdmittedBindingReconciles(s, b);
    BindStores(s, b);
  }

  // ---------------------------------------------------------------------------
  // Uniqueness of live bindings
  // ---------------------------------------------------------------------------

  predicate UniqueBindings(w: World)
  {
    forall a, b :: a in w.bindings && b in w.bindings && a != b && !w.bindings[a].deleting && !w.bindings[b].deleting
                   ==> !SameBinding(a, w.bindings[a].refs, b, w.bindings[b].refs)
  }

  lemma {:induction false} NextKeepsUnique(w: World, e: Event)
    requires UniqueBindings(w)
    ensures UniqueBindings(Next(w, e))
  {
    var w' := Next(w, e);
    if e.CreateBinding? && w' != w {
      forall a | a in w.bindings && !w.bindings[a].deleting ensures !SameBinding(a, w.bindings[a].refs, e.key, e.refs) {
        assert !DuplicateOf(w, e.key, e.refs, a);
      }
    }
    if e.UpdateBinding? && w' != w && !w.bindings[e.key].deleting {
      forall a | a in w.bindings && a != e.key && !w.bindings[a].deleting
        ensures !SameBinding(a, w.bindings[a].refs, e.key, e.refs)
      {
        if SameBinding(e.key, w.bindings[e.key].refs, e.key, e.refs) {
          assert !SameBinding(a, w.bindings[a].refs, e.key, w.bindings[e.key].refs);
        } else {
          assert !DuplicateOf(w, e.key, e.refs, a);
        }
      }
    }
  }

  /** Over every run, no two live bindings share service name, group name and the group's
      resolved namespace. */
  lemma {:induction false} BindingsStayUnique(w: World, es: seq<Event>)
    requires UniqueBindings(w)
    ensures UniqueBindings(After(w, es))
    decreases es
  {
    if es != [] {
      NextKeepsUnique(w, es[0]);
      BindingsStayUnique(Next(w, es[0]), es[1..]);
    }
  }

  // ---------------------------------------------------------------------------
  // Policies keep supporting bindings
  // ---------------------------------------------------------------------------

  predicate Supports(w: World, p: Key, b: Key)
  {
    p in w.policies && b in w.bindings && Allows(p, w.policies[p].refs, b, w.bindings[b].refs)
  }

  /** The create-time lookup and the delete-time scan, in different webhooks, are converses:
      a policy may be deleted exactly when it supports no binding, and a cross-namespace
      binding is created only when some policy supports it. */
  lemma {:induction false} LookupAndScanAreConverses(w: World, p: Key, b: Key, refs: Refs, fs: set<string>)
    ensures p in w.policies
            ==> (PolicyDeleteAdmitted(w, p, w.policies[p].refs) <==> forall k :: k in w.bindings ==> !Supports(w, p, k))
    ensures var w' := Next(w, CreateBinding(b, refs, fs));
            w' != w && ResolveNamespace(refs.group.namespace, b.namespace) != b.namespace
            ==> exists q :: Supports(w', q, b)
  {
    var w' := Next(w, CreateBinding(b, refs, fs));
    if w' != w && ResolveNamespace(refs.group.namespace, b.namespace) != b.namespace {
      assert w'.bindings[b].refs == refs;
      var q :| q in w.policies && Allows(q, w.policies[q].refs, b, refs);
      assert Supports(w', q, b);
    }
  }

  /** The binding is in the store, with the same references, at every point of the run. */
  predicate Kept(w: World, es: seq<Event>, b: Key, refs: Refs)
    decreases es
  {
    && b in w.bindings && w.bindings[b].refs == refs
    && (es != [] ==> Kept(Next(w, es[0]), es[1..], b, refs))
  }

  /** A policy pass never lowers the Ready flag, the only condition updates look at. */
  lemma {:induction false} PassKeepsPolicy(w: World, p: Key, q: Key)
    requires p in w.policies && w.policies[p].Ready() && !w.policies[p].deleting
    ensures var w' := Next(w, PolicyPass(q));
            p in w'.policies && w'.policies[p].Ready() && w'.policies[p].refs == w.policies[p].refs
                && !w'.policies[p].deleting
  {
    if q == p {
      var conditions := w.policies[p].conditions;
      SetDecides(conditions, "AddressGroupFound", false, READY);
      SetDecides(conditions, "ServiceFound", false, READY);
      SetDecides(conditions, READY, true, "");
    }
  }

  lemma {:induction false} NextKeepsPolicy(w: World, e: Event, p: Key, b: Key)
    requires Supports(w, p, b) && w.policies[p].Ready() && !w.policies[p].deleting
    ensures var w' := Next(w, e);
            p in w'.policies && w'.policies[p].Ready() && w'.policies[p].refs == w.policies[p].refs
                && !w'.policies[p].deleting
  {
    if e.DeletePolicy? && e.key == p {
      LookupAndScanAreConverses(w, p, b, w.bindings[b].refs, {});
    } else if e.PolicyPass? {
      PassKeepsPolicy(w, p, e.key);
    }
  }

  lemma {:induction false} NextKeepsSupport(w: World, e: Event, p: Key, b: Key)
    requires Supports(w, p, b) && w.policies[p].Ready() && !w.policies[p].deleting
    requires b in Next(w, e).bindings && Next(w, e).bindings[b].refs == w.bindings[b].refs
    ensures Supports(Next(w, e), p, b) && Next(w, e).policies[p].Ready() && !Next(w, e).policies[p].deleting
  {
    NextKeepsPolicy(w, e, p, b);
  }

  lemma {:induction false} SupportKept(w: World, es: seq<Event>, p: Key, b: Key)
    requires Supports(w, p, b) && w.policies[p].Ready() && !w.policies[p].deleting
    requires Kept(w, es, b, w.bindings[b].refs)
    ensures Supports(After(w, es), p, b)
    decreases es
  {
    if es != [] {
      NextKeepsSupport(w, es[0], p, b);
      SupportKept(Next(w, es[0]), es[1..], p, b);
    }
  }

  /** A policy being deleted goes with its last finalizer, whatever it supports. */
  lemma {:induction false} DeletingPolicyGoes(w: World, p: Key, b: Key) returns (es: seq<Event>)
    requires Supports(w, p, b) && w.policies[p].deleting
    ensures Kept(w, es, b, w.bindings[b].refs) && !Supports(After(w, es), p, b)
  {
    var e := UpdatePolicy(p, w.policies[p].refs, {});
    es := [e];
    assert After(w, es) == After(Next(w, e), []) == Next(w, e);
    assert Kept(Next(w, e), [], b, w.bindings[b].refs);
  }

  /** Such a policy is reached from an empty cluster: a policy with a finalizer is deleted
      while it supports nothing, and a binding is then admitted on it, because the lookup
      does not ask whether the policy is being deleted. */
  lemma {:induction false} DeletingPolicyReached(p: Key, b: Key, finalizer: string) returns (es: seq<Event>)
    requires p.namespace != b.namespace && p.namespace != "" && b.namespace != ""
    ensures var w := After(World(map[], map[], map[], map[], map[]), es);
            Supports(w, p, b) && w.policies[p].deleting
  {
    var empty := World(map[], map[], map[], map[], map[]);
    var svc, grp := Key(b.namespace, "s"), Key(p.namespace, "g");
    var allowed := Refs(ObjectRef(NETGUARD_API, "Service", "s", b.namespace),
        ObjectRef(NETGUARD_API, "AddressGroup", "g", ""));
    var bound := Refs(ObjectRef(NETGUARD_API, "Service", "s", ""),
        ObjectRef(PROVIDER_API, "AddressGroup", "g", p.namespace));
    es := [ServicesChange(map[svc := (Service(svc, [], [], false), true)]), GroupsChange(map[grp := true]),
           CreatePolicy(p, allowed, {finalizer}), DeletePolicy(p), CreateBinding(b, bound, {})];
    var w2 := Next(Next(empty, es[0]), es[1]);
    var w3 := Next(w2, es[2]);
    PolicyStored(w2, p, b, allowed, finalizer);
    BindingOnDeletingPolicy(Next(w3, es[3]), p, b, allowed, bound, finalizer);
    FiveSteps(empty, es[0], es[1], es[2], es[3], es[4], es);
  }

  lemma {:induction false} PolicyStored(w: World, p: Key, b: Key, allowed: Refs, finalizer: string)
    requires w.bindings == map[] && w.policies == map[] && p.namespace != "" && b.namespace != ""
    requires allowed == Refs(ObjectRef(NETGUARD_API, "Service", "s", b.namespace),
             ObjectRef(NETGUARD_API, "AddressGroup", "g", ""))
    requires Key(b.namespace, "s") in w.services && Key(p.namespace, "g") in w.groups
    ensures var w' := Next(Next(w, CreatePolicy(p, allowed, {finalizer})), DeletePolicy(p));
            w' == w.(policies := map[p := Stored(allowed, [], true, {finalizer})])
  {
    assert PolicyCreateAdmitted(w, p, allowed);
    var w1 := Next(w, CreatePolicy(p, allowed, {finalizer}));
    assert w1 == w.(policies := map[p := Stored(allowed, [], false, {finalizer})]);
    assert PolicyDeleteAdmitted(w1, p, allowed);
  }

  lemma {:induction false} BindingOnDeletingPolicy(w: World, p: Key, b: Key, allowed: Refs, bound: Refs,
                                                   finalizer: string)
    requires w.policies == map[p := Stored(allowed, [], true, {finalizer})] && w.bindings == map[]
             && w.mappings == map[]
    requires p.namespace != b.namespace && p.namespace != "" && b.namespace != ""
    requires allowed == Refs(ObjectRef(NETGUARD_API, "Service", "s", b.namespace),
             ObjectRef(NETGUARD_API, "AddressGroup", "g", ""))
    requires bound == Refs(ObjectRef(NETGUARD_API, "Service", "s", ""),
             ObjectRef(PROVIDER_API, "AddressGroup", "g", p.namespace))
    requires Key(b.namespace, "s") in w.services && w.services[Key(b.namespace, "s")].1
    requires Key(p.namespace, "g") in w.groups && w.groups[Key(p.namespace, "g")]
    ensures var w' := Next(w, CreateBinding(b, bound, {})); Supports(w', p, b) && w'.policies[p].deleting
  {
    assert p in w.policies && Allows(p, w.policies[p].refs, b, bound);
    assert RefsServed(w, b, bound);
    assert BindingCreateAdmitted(w, b, bound);
  }

  lemma {:induction false} FiveSteps(w: World, a: Event, b: Event, c: Event, d: Event, e: Event, es: seq<Event>)
    requires es == [a, b, c, d, e]
    ensures After(w, es) == Next(Next(Next(Next(Next(w, a), b), c), d), e)
  {
    var w1 := Next(w, a);
    var w2 := Next(w1, b);
    var w3 := Next(w2, c);
    var w4 := Next(w3, d);
    assert es[1..] == [b, c, d, e] && es[1..][1..] == [c, d, e] && [c, d, e][1..] == [d, e] && [d, e][1..] == [e];
    assert After(w, es) == After(w1, [b, c, d, e]) == After(w2, [c, d, e]) == After(w3, [d, e]) == After(w4, [e]);
    assert After(w4, [e]) == After(Next(w4, e), []);
  }

  /** A policy that is not ready may be pointed elsewhere, whatever it supports. */
  lemma {:induction false} UnreadyPolicyTurns(w: World, p: Key, b: Key) returns (es: seq<Event>)
    requires Supports(w, p, b) && !w.policies[p].Ready() && !w.policies[p].deleting
    ensures Kept(w, es, b, w.bindings[b].refs) && !Supports(After(w, es), p, b)
  {
    var policy := w.policies[p];
    var service := policy.refs.service.(name := policy.refs.service.name + "x");
    var group := policy.refs.group.(namespace := "");
    var key := service.Resolve(p.namespace);
    var e1 := ServicesChange(w.services[key := (Service(key, [], [], false), true)]);
    var w1 := Next(w, e1);
    var e2 := GroupsChange(w1.groups[group.Resolve(p.namespace) := true]);
    var w2 := Next(w1, e2);
    var e3 := UpdatePolicy(p, Refs(service, group), policy.finalizers);
    var w3 := Next(w2, e3);
    assert PolicyRefsExist(w2, p, Refs(service, group));
    assert w3.policies[p].refs.service.name != w.bindings[b].refs.service.name;
    es := [e1, e2, e3];
    assert es[1..] == [e2, e3] && [e2, e3][1..] == [e3] && [e3][1..] == [];
    assert After(w, es) == After(w1, [e2, e3]) == After(w2, [e3]) == After(w3, []) == w3;
    var refs := w.bindings[b].refs;
    assert Kept(w3, [], b, refs);
    assert Kept(w2, [e3], b, refs);
    assert Kept(w1, [e2, e3], b, refs);
  }

  ghost predicate NeverWithdrawn(w: World, p: Key, b: Key)
    requires b in w.bindings
  {
    forall es :: Kept(w, es, b, w.bindings[b].refs) ==> Supports(After(w, es), p, b)
  }

  /** Support is never withdrawn, over any run in which the binding keeps its references,
      exactly when the supporting policy is ready and not already being deleted. */
  lemma {:induction false} SupportNeverWithdrawn(w: World, p: Key, b: Key)
    requires Supports(w, p, b)
    ensures NeverWithdrawn(w, p, b) <==> w.policies[p].Ready() && !w.policies[p].deleting
  {
    if w.policies[p].Ready() && !w.policies[p].deleting {
      forall es | Kept(w, es, b, w.bindings[b].refs) ensures Supports(After(w, es), p, b) {
        SupportKept(w, es, p, b);
      }
    } else if w.policies[p].deleting {
      var es := DeletingPolicyGoes(w, p, b);
    } else {
      var es := UnreadyPolicyTurns(w, p, b);
    }
  }

  // ---------------------------------------------------------------------------
  // The decisions by their fields
  // ---------------------------------------------------------------------------

  /** The same service name, group name and namespace of the group, an unqualified group being
      the binding's own namespace's. */
  ghost predicate SameTriple(k1: Key, r1: Refs, k2: Key, r2: Refs)
  {
    && r1.service.name == r2.service.name && r1.group.name == r2.group.name
    && (if r1.group.namespace == "" then k1.namespace else r1.group.namespace)
       == (if r2.group.namespace == "" then k2.namespace else r2.group.namespace)
  }

  /** Live bindings are unique exactly when no two have the same triple. */
  lemma {:induction false} UniqueMeans(w: World)
    ensures UniqueBindings(w) <==>
            forall a, b ::
              a in w.bindings && b in w.bindings && a != b && !w.bindings[a].deleting && !w.bindings[b].deleting
              ==> !SameTriple(a, w.bindings[a].refs, b, w.bindings[b].refs)
  {
    forall a, b | a in w.bindings && b in w.bindings
      ensures SameBinding(a, w.bindings[a].refs, b, w.bindings[b].refs)
              <==> SameTriple(a, w.bindings[a].refs, b, w.bindings[b].refs)
    {
    }
  }

  /** A policy supports a binding: it is in the group's namespace and names its group, its
      service and the service's namespace, an unqualified service being the policy's own
      namespace's. */
  ghost predicate NamesBinding(w: World, p: Key, k: Key, refs: Refs)
  {
    && p in w.policies
    && var policy := w.policies[p].refs;
       && p.namespace == (if refs.group.namespace == "" then k.namespace else refs.group.namespace)
       && policy.group.name == refs.group.name && policy.service.name == refs.service.name
       && (if policy.service.namespace == "" then p.namespace else policy.service.namespace) == k.namespace
  }

  lemma {:induction false} SupportsMeans(w: World, p: Key, b: Key)
    ensures Supports(w, p, b) <==> b in w.bindings && NamesBinding(w, p, b, w.bindings[b].refs)
  {
  }

  /** The references of a binding are served: its service and group exist and are ready, its
      ports fit the group's mapping if there is one, and, when the group is in another
      namespace and only then, some policy supports it. */
  ghost predicate Served(w: World, k: Key, refs: Refs)
  {
    var service := Key(k.namespace, refs.service.name);
    var group := Key(if refs.group.namespace == "" then k.namespace else refs.group.namespace, refs.group.name);
    && service in w.services && w.services[service].1
    && group in w.groups && w.groups[group]
    && (group in w.mappings ==> OverlapFree(w.services[service].0, w.mappings[group].items))
    && (group.namespace == k.namespace || exists p :: NamesBinding(w, p, k, refs))
  }

  lemma {:induction false} ServedMeans(w: World, k: Key, refs: Refs)
    ensures RefsServed(w, k, refs) <==> Served(w, k, refs)
  {
    if RefsServed(w, k, refs) && refs.group.Resolve(k.namespace).namespace != k.namespace {
      var p :| p in w.policies && Allows(p, w.policies[p].refs, k, refs);
      assert NamesBinding(w, p, k, refs);
    }
    if p :| NamesBinding(w, p, k, refs) {
      assert p in w.policies && Allows(p, w.policies[p].refs, k, refs);
    }
  }

  ghost predicate OtherTriple(w: World, k: Key, refs: Refs, other: Key)
  {
    other in w.bindings && !w.bindings[other].deleting && SameTriple(other, w.bindings[other].refs, k, refs)
  }

  /** Creating a binding stores it exactly when both references are well formed and served and
      no live binding has its triple. */
  lemma {:induction false} CreateBindingExactly(w: World, k: Key, refs: Refs, fs: set<string>)
    requires k !in w.bindings
    ensures Next(w, CreateBinding(k, refs, fs)) ==
            if && refs.service.name != "" && refs.service.kind == "Service"
               && refs.service.apiVersion == "netguard.sgroups.io/v1alpha1"
               && refs.group.name != "" && refs.group.kind == "AddressGroup"
               && refs.group.apiVersion == "provider.sgroups.io/v1alpha1"
               && Served(w, k, refs) && !(exists other :: OtherTriple(w, k, refs, other))
            then w.(bindings := w.bindings[k := Stored(refs, [], false, fs)]) else w
  {
    ServedMeans(w, k, refs);
    forall other ensures DuplicateOf(w, k, refs, other) <==> OtherTriple(w, k, refs, other) {}
  }

  /** Updating a live binding stores it exactly when a ready one keeps its references, they are
      served, and a new triple is no other live binding's. */
  lemma {:induction false} UpdateBindingExactly(w: World, k: Key, refs: Refs, fs: set<string>)
    requires k in w.bindings && !w.bindings[k].deleting
    ensures Next(w, UpdateBinding(k, refs, fs)) ==
            if && (IsTrue(w.bindings[k].conditions, "Ready") ==> refs == w.bindings[k].refs)
               && Served(w, k, refs)
               && (SameTriple(k, w.bindings[k].refs, k, refs)
                   || !(exists other :: other != k && OtherTriple(w, k, refs, other)))
            then w.(bindings := w.bindings[k := w.bindings[k].(refs := refs, finalizers := fs)]) else w
  {
    ServedMeans(w, k, refs);
    forall other ensures DuplicateOf(w, k, refs, other) <==> OtherTriple(w, k, refs, other) {}
  }

  ghost predicate PolicyObjectsExist(w: World, k: Key, refs: Refs)
  {
    && Key(if refs.service.namespace == "" then k.namespace
        else refs.service.namespace, refs.service.name) in w.services
    && refs.group.namespace in {"", k.namespace} && Key(k.namespace, refs.group.name) in w.groups
  }

  /** Creating a policy stores it exactly when its references are well formed, name an existing
      service and an existing group of the policy's own namespace, and no other policy there
      has them as written. */
  lemma {:induction false} CreatePolicyExactly(w: World, k: Key, refs: Refs, fs: set<string>)
    requires k !in w.policies
    ensures Next(w, CreatePolicy(k, refs, fs)) ==
            if && refs.service.name != "" && refs.service.kind == "Service" && refs.group.name != ""
               && refs.group.kind == "AddressGroup"
               && refs.service.apiVersion == refs.group.apiVersion == "netguard.sgroups.io/v1alpha1"
               && PolicyObjectsExist(w, k, refs)
               && (forall p :: p in w.policies && p.namespace == k.namespace ==>
                     var other := w.policies[p].refs;
                     !(&& other.service.name == refs.service.name && other.service.namespace == refs.service.namespace
                       && other.group.name == refs.group.name && other.group.namespace == refs.group.namespace))
            then w.(policies := w.policies[k := Stored(refs, [], false, fs)]) else w
  {
  }

  /** Updating a live policy stores it exactly when a ready one keeps its references and they
      name existing objects; deleting one is refused exactly while it supports a binding. */
  lemma {:induction false} ChangePolicyExactly(w: World, k: Key, refs: Refs, fs: set<string>)
    requires k in w.policies && !w.policies[k].deleting
    ensures Next(w, UpdatePolicy(k, refs, fs)) ==
            if (IsTrue(w.policies[k].conditions, "Ready") ==> refs == w.policies[k].refs)
                && PolicyObjectsExist(w, k, refs)
            then w.(policies := w.policies[k := w.policies[k].(refs := refs, finalizers := fs)]) else w
    ensures Next(w, DeletePolicy(k)) ==
            if exists b :: b in w.bindings && NamesBinding(w, k, b, w.bindings[b].refs) then w
            else if w.policies[k].finalizers == {} then w.(policies := w.policies - {k})
            else w.(policies := w.policies[k := w.policies[k].(deleting := true)])
  {
    LookupAndScanAreConverses(w, k, k, refs, fs);
    forall b ensures Supports(w, k, b) <==> b in w.bindings && NamesBinding(w, k, b, w.bindings[b].refs) {
      SupportsMeans(w, k, b);
    }
  }

  /** A pass over a policy that is gone or being deleted does nothing. */
  lemma {:induction false} IdlePolicyPass(w: World, k: Key)
    requires k in w.policies ==> w.policies[k].deleting
    ensures Next(w, PolicyPass(k)) == w
  {
  }

  /** A pass makes a live policy Ready exactly when its group and its service exist, and never
      takes Ready away; it touches nothing else. */
  lemma {:induction false} PolicyPassExactly(w: World, k: Key)
    requires k in w.policies && !w.policies[k].deleting
    ensures var p, w' := w.policies[k], Next(w, PolicyPass(k));
            var group := Key(if p.refs.group.namespace == "" then k.namespace
                else p.refs.group.namespace, p.refs.group.name);
            var service := Key(if p.refs.service.namespace == "" then k.namespace
                else p.refs.service.namespace, p.refs.service.name);
            && w' == w.(policies := w.policies[k := p.(conditions := w'.policies[k].conditions)])
            && (IsTrue(w'.policies[k].conditions, "Ready") <==>
                  IsTrue(p.conditions, "Ready") || (group in w.groups && service in w.services))
            && (group !in w.groups ==> !IsTrue(w'.policies[k].conditions, "AddressGroupFound"))
            && (group in w.groups && service !in w.services ==> !IsTrue(w'.policies[k].conditions, "ServiceFound"))
  {
    var conditions := w.policies[k].conditions;
    SetDecides(conditions, "AddressGroupFound", false, "Ready");
    SetDecides(conditions, "ServiceFound", false, "Ready");
    SetDecides(conditions, "Ready", true, "");
  }

  /** An object that is being deleted gains no finalizer and goes with its last one, whatever
      else is written. */
  lemma {:induction false} DeletingWrites(w: World, k: Key, refs: Refs, fs: set<string>)
    ensures k in w.bindings && w.bindings[k].deleting ==>
              Next(w, UpdateBinding(k, refs, fs)) ==
              if !(fs <= w.bindings[k].finalizers) then w
              else if fs == {} then w.(bindings := w.bindings - {k})
              else w.(bindings := w.bindings[k := w.bindings[k].(refs := refs, finalizers := fs)])
    ensures k in w.policies && w.policies[k].deleting ==>
              Next(w, UpdatePolicy(k, refs, fs)) ==
              if !(fs <= w.policies[k].finalizers) then w
              else if fs == {} then w.(policies := w.policies - {k})
              else w.(policies := w.policies[k := w.policies[k].(refs := refs, finalizers := fs)])
    ensures k in w.bindings ==>
              Next(w, DeleteBinding(k)) ==
              if w.bindings[k].finalizers == {} then w.(bindings := w.bindings - {k})
              else w.(bindings := w.bindings[k := w.bindings[k].(deleting := true)])
  {
  }
}
