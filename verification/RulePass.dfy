/** A whole pass over a RuleS2S, from the objects it looks up to the rules it leaves, in terms
    of their fields. */
module RulePass {
  import opened PortGrammar
  import opened Model
  import opened PortChecks
  import opened RuleStore
  import opened Rules
  import opened RuleMeaning
  import opened RuleReconciler
  import RuleWatch

  // ---------------------------------------------------------------------------
  // What is looked up
  // ---------------------------------------------------------------------------

  function LocalAliasKey(r: RuleS2S): Key
  {
    Key(r.key.namespace, r.localName)
  }

  function TargetAliasKey(r: RuleS2S): Key
  {
    Key(if r.target.namespace == "" then r.key.namespace else r.target.namespace, r.target.name)
  }

  /** The alias leads to the service: the one it names, in its own namespace. */
  predicate Leads(o: Objects, alias: Key, service: Service)
  {
    && alias in o.aliases
    && var key := Key(alias.namespace, o.aliases[alias].serviceName); key in o.services && o.services[key] == service
  }

  /** The services a pass finds behind the two aliases the RuleS2S names. */
  predicate Ends(o: Objects, r: RuleS2S, local: Service, target: Service)
  {
    Leads(o, LocalAliasKey(r), local) && Leads(o, TargetAliasKey(r), target)
  }

  lemma {:induction false} LowerTraffic()
    ensures ToLower("ingress") == "ingress" && ToLower("egress") == "egress"
    ensures ToUpper("ingress") == "INGRESS" && ToUpper("egress") == "EGRESS"
    ensures "ingress" != "egress"
  {
    assert |"ingress"| != |"egress"|;
  }

  /** Ingress takes the ports of the local service, egress those of the target service. The
      pass is active exactly when both services have groups and the receiving one has ports,
      and inactive when they are found and something is empty. */
  lemma {:induction false} PlanExactly(o: Objects, r: RuleS2S, local: Service, target: Service)
    requires AliasesKeyed(o.aliases) && Ends(o, r, local, target)
    ensures r.traffic == "ingress" ==>
              PlanFor(o, r) ==
              if local.addressGroups == [] || target.addressGroups == [] || local.ingressPorts == [] then Inactive
              else Active(local.addressGroups, target.addressGroups, local.ingressPorts)
    ensures r.traffic == "egress" ==>
              PlanFor(o, r) ==
              if local.addressGroups == [] || target.addressGroups == [] || target.ingressPorts == [] then Inactive
              else Active(local.addressGroups, target.addressGroups, target.ingressPorts)
  {
    LowerTraffic();
  }

  /** Without one of the four objects the pass is neither active nor inactive. */
  lemma {:induction false} PlanNeedsEnds(o: Objects, r: RuleS2S)
    requires AliasesKeyed(o.aliases) && (PlanFor(o, r).Active? || PlanFor(o, r).Inactive?)
    ensures exists local, target :: Ends(o, r, local, target)
  {
    var local := o.services[o.aliases[r.LocalKey()].ServiceKey()];
    var target := o.services[o.aliases[r.TargetKey()].ServiceKey()];
    assert Ends(o, r, local, target);
  }

  // ---------------------------------------------------------------------------
  // What is left
  // ---------------------------------------------------------------------------

  /** An undisturbed pass rule by rule, by what the RuleS2S looks like: without its finalizer,
      or with an object missing, the pass touches no rule; when the RuleS2S is deleted or
      inactive, the rules that name it as an owner go, and no others. */
  lemma {:induction false} PassExactly(c: Context, s: RuleMap, r: RuleS2S, plan: Plan, k: Key)
    requires |c.traffic| >= 3
    ensures var s' := PassEffect(c, s, r, plan);
            && (!r.hasFinalizer || (!r.deleting && !plan.Active? && !plan.Inactive?) ==> s' == s)
            && (r.hasFinalizer && (r.deleting || plan.Inactive?) ==>
                  if k in s && NamesOwner(s[k], r.uid) then
                    var left := s[k].finalizers - {"provider.sgroups.io/finalizer"};
                    if left == {} then k !in s' else k in s' && s'[k] == s[k].(finalizers := left, deleting := true)
                  else (k in s' <==> k in s) && (k in s ==> s'[k] == s[k]))
            && (r.hasFinalizer && !r.deleting && plan.Active? ==>
                  s' == Sync(r.uid, s, Writes(c, Jobs(plan.locals, plan.targets, plan.ports))))
    ensures PassOutcome(r, plan) ==
            if !r.hasFinalizer then (if r.deleting then Failed else FinalizerAdded)
            else if r.deleting then FinalizerRemoved
            else if plan.Inactive? then Deactivated
            else if plan.Active? then Synced else Blocked
  {
    DropOwnedExactly(r.uid, s, k);
  }

  /** What the watches compare is what a pass leaves: the specs of the last writes of an active
      pass, which hold in the store after it; nothing for an inactive one; and no answer when
      an object is missing. */
  lemma {:induction false} DesiredExactly(digest: string -> string, o: Objects, r: RuleS2S, s: RuleMap)
    requires |r.traffic| >= 3 && r.hasFinalizer && !r.deleting
    ensures var plan, desired := PlanFor(o, r), RuleWatch.DesiredRules(digest, o, r);
            var c := Context(digest, r.traffic, r.key.namespace, r.uid);
            && (desired.Unknown? <==> !plan.Active? && !plan.Inactive?)
            && (plan.Inactive? ==> desired == RuleWatch.Wants(map[]))
            && (plan.Active? ==>
                  && desired.rules.Keys == Expected(Writes(c, Jobs(plan.locals, plan.targets, plan.ports)))
                  && forall k :: k in desired.rules ==>
                       k in PassEffect(c, s, r, plan) && PassEffect(c, s, r, plan)[k].spec == desired.rules[k])
  {
    var plan := PlanFor(o, r);
    var c := Context(digest, r.traffic, r.key.namespace, r.uid);
    if plan.Active? {
      RuleWatch.DesiredIsSynced(r.uid, s, Writes(c, Jobs(plan.locals, plan.targets, plan.ports)));
    }
  }

  // ---------------------------------------------------------------------------
  // The rules that are written
  // ---------------------------------------------------------------------------

  function ProtocolSuffix(protocol: string): string
  {
    if protocol == "TCP" then "-tcp" else "-udp"
  }

  /** The ports of a compiled rule: those of its protocol, in order, joined with commas. */
  ghost predicate PortsAt(ports: seq<IngressPort>, protocol: string, strings: seq<string>, at: seq<nat>)
  {
    && |at| == |strings| && (forall i, j :: 0 <= i < j < |at| ==> at[i] < at[j])
    && (forall i :: 0 <= i < |at| ==>
          at[i] < |ports| && ports[at[i]].protocol == protocol && strings[i] == ports[at[i]].port)
    && (forall k :: 0 <= k < |ports| && ports[k].protocol == protocol ==> k in at)
  }

  lemma {:induction false} PortStringsAt(ports: seq<IngressPort>, protocol: string) returns (at: seq<nat>)
    ensures PortsAt(ports, protocol, PortStrings(ports, protocol), at)
  {
    at := [];
    if ports != [] {
      var n := |ports| - 1;
      at := PortStringsAt(ports[..n], protocol);
      if ports[n].protocol == protocol {
        ghost var before := at;
        at := at + [n];
        assert forall k :: k in before ==> k in at;
        assert at[|before|] == n;
      }
    }
  }

  /** Where a job stands in the loops: its local group, its target group, TCP before UDP. */
  datatype Place = Place(l: nat, t: nat, p: nat)

  predicate Before(a: Place, b: Place)
  {
    a.l < b.l || (a.l == b.l && (a.t < b.t || (a.t == b.t && a.p < b.p)))
  }

  ghost predicate StandAt(locals: seq<ObjectRef>, targets: seq<ObjectRef>, jobs: seq<Job>, at: seq<Place>)
  {
    && |at| == |jobs| && (forall i, j :: 0 <= i < j < |at| ==> Before(at[i], at[j]))
    && (forall i :: 0 <= i < |at| ==>
          && at[i].l < |locals| && jobs[i].local == locals[at[i].l]
          && at[i].t < |targets| && jobs[i].target == targets[at[i].t]
          && at[i].p <= 1 && jobs[i].protocol == (if at[i].p == 0 then "TCP" else "UDP"))
  }

  lemma {:induction false} PairJobsInOrder(local: ObjectRef, target: ObjectRef, ports: seq<IngressPort>, l: nat, t: nat)
    returns (at: seq<Place>)
    ensures var jobs := PairJobs(local, target, ports);
            && |at| == |jobs| && (forall i, j :: 0 <= i < j < |at| ==> Before(at[i], at[j]))
            && (forall i :: 0 <= i < |at| ==>
                  && at[i].l == l && at[i].t == t && at[i].p <= 1 && jobs[i].local == local && jobs[i].target == target
                  && jobs[i].protocol == (if at[i].p == 0 then "TCP" else "UDP"))
  {
    at := (if ProtocolJob(local, target, ports, "TCP") == [] then [] else [Place(l, t, 0)])
          + (if ProtocolJob(local, target, ports, "UDP") == [] then [] else [Place(l, t, 1)]);
  }

  ghost predicate RowAt(local: ObjectRef, l: nat, targets: seq<ObjectRef>, jobs: seq<Job>, at: seq<Place>)
  {
    && |at| == |jobs| && (forall i, j :: 0 <= i < j < |at| ==> Before(at[i], at[j]))
    && (forall i :: 0 <= i < |at| ==>
          && at[i].l == l && jobs[i].local == local
          && at[i].t < |targets| && jobs[i].target == targets[at[i].t]
          && at[i].p <= 1 && jobs[i].protocol == (if at[i].p == 0 then "TCP" else "UDP"))
  }

  lemma {:induction false} RowJobsInOrder(local: ObjectRef, targets: seq<ObjectRef>, ports: seq<IngressPort>, l: nat)
    returns (at: seq<Place>)
    ensures RowAt(local, l, targets, RowJobs(local, targets, ports), at)
  {
    at := [];
    if targets != [] {
      var n := |targets| - 1;
      var init := RowJobsInOrder(local, targets[..n], ports, l);
      var last := PairJobsInOrder(local, targets[n], ports, l, n);
      at := init + last;
    }
  }

  lemma {:induction false} StandAtRow(locals: seq<ObjectRef>, n: nat, targets: seq<ObjectRef>, jobs: seq<Job>,
                                      at: seq<Place>, row: seq<Job>, rowAt: seq<Place>)
    requires n < |locals| && StandAt(locals[..n], targets, jobs, at) && RowAt(locals[n], n, targets, row, rowAt)
    ensures StandAt(locals, targets, jobs + row, at + rowAt)
  {
    forall i, j | 0 <= i < j < |at + rowAt| ensures Before((at + rowAt)[i], (at + rowAt)[j]) {
      if i < |at| <= j { assert at[i].l < n == rowAt[j - |at|].l; }
    }
  }

  /** The jobs of a pass run in the order of the loops, which decides who writes a shared key
      last. */
  lemma {:induction false} JobsInOrder(locals: seq<ObjectRef>, targets: seq<ObjectRef>, ports: seq<IngressPort>)
    returns (at: seq<Place>)
    ensures StandAt(locals, targets, Jobs(locals, targets, ports), at)
  {
    at := [];
    if locals != [] {
      var n := |locals| - 1;
      var init := JobsInOrder(locals[..n], targets, ports);
      var row := RowJobsInOrder(locals[n], targets, ports, n);
      StandAtRow(locals, n, targets, Jobs(locals[..n], targets, ports), init, RowJobs(locals[n], targets, ports), row);
      at := init + row;
    }
  }

  /** What a pair's job compiles to, field by field. */
  lemma {:induction false} CompiledExactly(c: Context, locals: seq<ObjectRef>, targets: seq<ObjectRef>,
                                           ports: seq<IngressPort>, j: Job) returns (strings: seq<string>, at: seq<nat>)
    requires c.traffic in {"ingress", "egress"} && j in Jobs(locals, targets, ports)
    ensures j.local in locals && j.target in targets && j.protocol in {"TCP", "UDP"}
    ensures PortsAt(ports, j.protocol, strings, at) && strings != []
    ensures JobSpec(c, j) == RuleSpec(
              j.protocol, if c.traffic == "ingress" then "INGRESS" else "EGRESS",
              j.local, j.target, Join(strings, ','), "ACCEPT", true, 100)
    ensures JobKey(c, j).name == (if c.traffic == "ingress" then "ing-" else "egr-")
              + c.digest(c.traffic + "-" + j.local.name + "-" + j.target.name + ProtocolSuffix(j.protocol))
    ensures JobKey(c, j).namespace ==
            var ref := if c.traffic == "ingress" then j.local else j.target;
            if ref.namespace == "" then c.namespace else ref.namespace
  {
    LowerTraffic();
    LowerProtocols();
    JobsMembers(locals, targets, ports);
    strings := PortStrings(ports, j.protocol);
    at := PortStringsAt(ports, j.protocol);
    assert "ingress"[..3] == "ing" && "egress"[..3] == "egr";
    assert "ing" + "-" == "ing-" && "egr" + "-" == "egr-";
    var head := c.traffic + "-" + j.local.name + "-" + j.target.name;
    assert "-" + "tcp" == "-tcp" && "-" + "udp" == "-udp";
    assert NameInput(c.traffic, j.local.name, j.target.name, j.protocol) == head + ("-" + ToLower(j.protocol));
  }

  // ---------------------------------------------------------------------------
  // The traffic that is served
  // ---------------------------------------------------------------------------

  ghost predicate InGroups(groups: seq<ObjectRef>, namespace: string, group: Key)
  {
    exists i :: 0 <= i < |groups| && groups[i].name == group.name
                && (if groups[i].namespace == "" then namespace else groups[i].namespace) == group.namespace
  }

  /** The flows a RuleS2S between two services asks for: from a group of the one to a group of
      the other, on a port that is open on the service whose group receives the traffic. */
  ghost predicate Requested(traffic: string, local: Service, localNamespace: string, target: Service,
                            targetNamespace: string, f: Flow)
  {
    var receiver := if traffic == "ingress" then local else target;
    && InGroups(local.addressGroups, localNamespace, f.local)
    && InGroups(target.addressGroups, targetNamespace, f.target)
    && f.protocol in {"TCP", "UDP"}
    && OpenIn(receiver.ingressPorts, f.protocol, f.port)
  }

  lemma {:induction false} InGroupsMeans(groups: seq<ObjectRef>, namespace: string, group: Key)
    ensures InGroups(groups, namespace, group) <==> exists r :: r in groups && r.Resolve(namespace) == group
  {
    if r :| r in groups && r.Resolve(namespace) == group {
      var i :| 0 <= i < |groups| && groups[i] == r;
      assert groups[i].name == group.name;
    }
    if i :| 0 <= i < |groups| && groups[i].name == group.name
            && (if groups[i].namespace == "" then namespace else groups[i].namespace) == group.namespace {
      assert groups[i] in groups && groups[i].Resolve(namespace) == group;
    }
  }

  lemma {:induction false} RequestedIsWanted(c: Context, local: Service, target: Service, targetNamespace: string,
                                             f: Flow)
    requires c.traffic in {"ingress", "egress"}
    requires AllIngressParse(if c.traffic == "ingress" then local.ingressPorts else target.ingressPorts)
    ensures Requested(c.traffic, local, c.namespace, target, targetNamespace, f) <==>
            Wanted(c, targetNamespace, local.addressGroups, target.addressGroups,
                   if c.traffic == "ingress" then local.ingressPorts else target.ingressPorts, f)
  {
    InGroupsMeans(local.addressGroups, c.namespace, f.local);
    InGroupsMeans(target.addressGroups, targetNamespace, f.target);
    OpenMeans(if c.traffic == "ingress" then local.ingressPorts else target.ingressPorts, f.protocol, f.port);
  }

  ghost predicate OpenIn(ports: seq<IngressPort>, protocol: string, n: int)
  {
    exists i :: 0 <= i < |ports| && ports[i].protocol == protocol && Opens(ports[i].port, n)
  }

  lemma {:induction false} OpenMeans(ports: seq<IngressPort>, protocol: string, n: int)
    requires AllIngressParse(ports)
    ensures OpenPort(ports, protocol, n) <==> OpenIn(ports, protocol, n)
  {
    if OpenPort(ports, protocol, n) {
      var i :| 0 <= i < |ports| && ports[i].protocol == protocol && InRange(n, RangeOf(ports[i].port));
      assert Opens(ports[i].port, n);
    }
    if OpenIn(ports, protocol, n) {
      var i :| 0 <= i < |ports| && ports[i].protocol == protocol && Opens(ports[i].port, n);
      assert InRange(n, RangeOf(ports[i].port));
    }
  }

  /** From the objects to the traffic: after an undisturbed pass over a live RuleS2S between
      two services with groups and ports, the rules it wrote accept exactly the flows it asks
      for, if and only if the rules that survive overwriting reach the pairs of groups that
      are meant. */
  lemma {:induction false} PassServesExactly(digest: string -> string, o: Objects, r: RuleS2S, s: RuleMap,
                                             local: Service, target: Service)
    requires AliasesKeyed(o.aliases) && Ends(o, r, local, target)
    requires r.traffic in {"ingress", "egress"} && r.hasFinalizer && !r.deleting && PlanFor(o, r).Active?
    requires AllIngressParse(if r.traffic == "ingress" then local.ingressPorts else target.ingressPorts)
    ensures var c := Context(digest, r.traffic, r.key.namespace, r.uid);
            var ports := if r.traffic == "ingress" then local.ingressPorts else target.ingressPorts;
            var jobs := Jobs(local.addressGroups, target.addressGroups, ports);
            var s' := PassEffect(c, s, r, PlanFor(o, r));
            var targetNamespace := TargetAliasKey(r).namespace;
            (forall f :: StoreAllows(s', Expected(Writes(c, jobs)), f) <==>
                         Requested(r.traffic, local, r.key.namespace, target, targetNamespace, f))
            <==> ReachedPairs(c, jobs) == MeantPairs(c, targetNamespace, jobs)
  {
    var c := Context(digest, r.traffic, r.key.namespace, r.uid);
    var ports := if r.traffic == "ingress" then local.ingressPorts else target.ingressPorts;
    var targetNamespace := TargetAliasKey(r).namespace;
    PlanExactly(o, r, local, target);
    MeaningPreservedExactly(c, s, targetNamespace, local.addressGroups, target.addressGroups, ports);
    forall f: Flow
      ensures Requested(r.traffic, local, r.key.namespace, target, targetNamespace, f) <==>
              Wanted(c, targetNamespace, local.addressGroups, target.addressGroups, ports, f)
    {
      RequestedIsWanted(c, local, target, targetNamespace, f);
    }
  }
}
