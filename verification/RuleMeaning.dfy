/** What the compiled rules mean: the traffic they accept, compared with the traffic the
    RuleS2S asks for. */
module RuleMeaning {
  import opened PortGrammar
  import opened Model
  import opened PortChecks
  import opened Entries
  import opened RuleStore
  import opened Rules
  import BindingPolicy

  /** One kind of traffic between two address groups. */
  datatype Flow = Flow(local: Key, target: Key, protocol: string, port: int)
  {
    function Ends(): Pair { Pair(local, target, protocol) }
  }

  datatype Pair = Pair(local: Key, target: Key, protocol: string)

  /** A stored rule's references without a namespace are seen from the rule's own. */
  ghost predicate Allows(namespace: string, spec: RuleSpec, f: Flow)
  {
    && spec.action == "ACCEPT" && spec.transport == f.protocol && Denotes(spec.ports, f.port)
    && spec.local.Resolve(namespace) == f.local && spec.target.Resolve(namespace) == f.target
  }

  /** Some rule under the given keys accepts the flow. */
  ghost predicate StoreAllows(s: RuleMap, keys: set<Key>, f: Flow)
  {
    exists k :: k in keys && k in s && Allows(k.namespace, s[k].spec, f)
  }

  predicate OpenPort(ports: seq<IngressPort>, protocol: string, n: int)
    requires AllIngressParse(ports)
  {
    exists i :: 0 <= i < |ports| && ports[i].protocol == protocol && InRange(n, RangeOf(ports[i].port))
  }

  /** The flows asked for: local groups times target groups times the receiver's ports. A
      service's groups are seen from its own namespace: the local service shares the
      RuleS2S's, the target service may live elsewhere. */
  predicate Wanted(c: Context, targetNamespace: string, locals: seq<ObjectRef>, targets: seq<ObjectRef>,
                   ports: seq<IngressPort>, f: Flow)
    requires AllIngressParse(ports)
  {
    && (exists l :: l in locals && l.Resolve(c.namespace) == f.local)
    && (exists t :: t in targets && t.Resolve(targetNamespace) == f.target)
    && KnownProtocol(f.protocol) && OpenPort(ports, f.protocol, f.port)
  }

  // ---------------------------------------------------------------------------
  // The jobs of a pass
  // ---------------------------------------------------------------------------

  predicate IsJob(locals: seq<ObjectRef>, targets: seq<ObjectRef>, ports: seq<IngressPort>, j: Job)
  {
    && j.local in locals && j.target in targets && KnownProtocol(j.protocol)
    && PortStrings(ports, j.protocol) != [] && j.ports == Join(PortStrings(ports, j.protocol), ',')
  }

  lemma {:induction false} RowJobsMembers(local: ObjectRef, targets: seq<ObjectRef>, ports: seq<IngressPort>)
    ensures forall j :: j in RowJobs(local, targets, ports) <==> IsJob([local], targets, ports, j)
  {
    if targets != [] {
      var init, last := targets[..|targets| - 1], targets[|targets| - 1];
      RowJobsMembers(local, init, ports);
      assert targets == init + [last];
      forall j ensures j in PairJobs(local, last, ports) <==> IsJob([local], [last], ports, j) {
      }
    }
  }

  lemma {:induction false} JobsMembers(locals: seq<ObjectRef>, targets: seq<ObjectRef>, ports: seq<IngressPort>)
    ensures forall j :: j in Jobs(locals, targets, ports) <==> IsJob(locals, targets, ports, j)
  {
    if locals != [] {
      var init, last := locals[..|locals| - 1], locals[|locals| - 1];
      JobsMembers(init, targets, ports);
      RowJobsMembers(last, targets, ports);
      assert locals == init + [last];
    }
  }

  lemma {:induction false} PortStringsMembers(ports: seq<IngressPort>, protocol: string)
    ensures forall i ::
            0 <= i < |ports| && ports[i].protocol == protocol
            ==> ports[i].port in PortStrings(ports, protocol)
    ensures forall p :: p in PortStrings(ports, protocol)
                        ==> exists i :: 0 <= i < |ports| && ports[i].protocol == protocol && ports[i].port == p
  {
    if ports != [] {
      var init, last := ports[..|ports| - 1], ports[|ports| - 1];
      PortStringsMembers(init, protocol);
      forall p | p in PortStrings(ports, protocol)
        ensures exists i :: 0 <= i < |ports| && ports[i].protocol == protocol && ports[i].port == p
      {
        if p in PortStrings(init, protocol) {
          var i :| 0 <= i < |init| && init[i].protocol == protocol && init[i].port == p;
          assert ports[i] == init[i];
        } else {
          assert last.port == p && last.protocol == protocol;
        }
      }
    }
  }

  lemma {:induction false} JoinedPortsMean(ports: seq<IngressPort>, protocol: string, n: int)
    requires AllIngressParse(ports) && PortStrings(ports, protocol) != []
    ensures ProviderValidatePort(Join(PortStrings(ports, protocol), ','))
    ensures Denotes(Join(PortStrings(ports, protocol), ','), n) <==> OpenPort(ports, protocol, n)
  {
    var strings := PortStrings(ports, protocol);
    PortStringsMembers(ports, protocol);
    forall i | 0 <= i < |strings| ensures Parses(strings[i]) { assert strings[i] in strings; }
    ProviderReadsJoinedPorts(strings);
    if Denotes(Join(strings, ','), n) {
      var i :| 0 <= i < |strings| && InRange(n, ParsePortRange(strings[i]).value);
      assert strings[i] in strings;
    }
    if OpenPort(ports, protocol, n) {
      var i :| 0 <= i < |ports| && ports[i].protocol == protocol && InRange(n, RangeOf(ports[i].port));
      assert ports[i].port in strings;
      var l :| 0 <= l < |strings| && strings[l] == ports[i].port;
      assert InRange(n, ParsePortRange(strings[l]).value);
    }
  }

  /** The two groups a job is about. */
  function Means(c: Context, targetNamespace: string, j: Job): Pair
  {
    Pair(j.local.Resolve(c.namespace), j.target.Resolve(targetNamespace), j.protocol)
  }

  /** The two groups its compiled rule names, seen from the namespace the rule is put in. */
  function Reaches(c: Context, j: Job): Pair
  {
    var namespace := RuleNamespace(c, j.local, j.target);
    Pair(j.local.Resolve(namespace), j.target.Resolve(namespace), j.protocol)
  }

  /** A compiled rule accepts exactly the flows between the groups it reaches, on the
      receiver's ports. */
  lemma {:induction false} JobMeans(c: Context, locals: seq<ObjectRef>, targets: seq<ObjectRef>,
                                    ports: seq<IngressPort>, j: Job, f: Flow)
    requires |c.traffic| >= 3 && AllIngressParse(ports) && IsJob(locals, targets, ports, j)
    ensures Allows(JobKey(c, j).namespace, JobSpec(c, j), f) <==>
            f.Ends() == Reaches(c, j) && OpenPort(ports, f.protocol, f.port)
  {
    JoinedPortsMean(ports, j.protocol, f.port);
  }

  lemma {:induction false} JobHasPort(locals: seq<ObjectRef>, targets: seq<ObjectRef>, ports: seq<IngressPort>, j: Job)
    returns (n: int)
    requires AllIngressParse(ports) && IsJob(locals, targets, ports, j)
    ensures OpenPort(ports, j.protocol, n)
  {
    PortStringsMembers(ports, j.protocol);
    var first := PortStrings(ports, j.protocol)[0];
    assert first in PortStrings(ports, j.protocol);
    var p :| 0 <= p < |ports| && ports[p].protocol == j.protocol && ports[p].port == first;
    n := RangeOf(ports[p].port).start;
    assert InRange(n, RangeOf(ports[p].port));
  }

  // ---------------------------------------------------------------------------
  // Meaning preservation
  // ---------------------------------------------------------------------------

  /** After a pass over any store, the expected rules accept exactly the wanted flows. */
  ghost predicate MeaningPreserved(c: Context, s: RuleMap, targetNamespace: string, locals: seq<ObjectRef>,
                                   targets: seq<ObjectRef>, ports: seq<IngressPort>)
    requires |c.traffic| >= 3 && AllIngressParse(ports)
  {
    var ws := Writes(c, Jobs(locals, targets, ports));
    forall f :: StoreAllows(Sync(c.uid, s, ws), Expected(ws), f)
        <==> Wanted(c, targetNamespace, locals, targets, ports, f)
  }

  /** No later job writes the same rule. */
  predicate IsLast(c: Context, jobs: seq<Job>, n: nat)
    requires |c.traffic| >= 3 && n < |jobs|
  {
    forall m :: n < m < |jobs| ==> JobKey(c, jobs[m]) != JobKey(c, jobs[n])
  }

  /** The pairs the surviving rules reach, and the pairs the jobs are about. */
  function ReachedPairs(c: Context, jobs: seq<Job>): set<Pair>
    requires |c.traffic| >= 3
  {
    set n | 0 <= n < |jobs| && IsLast(c, jobs, n) :: Reaches(c, jobs[n])
  }

  function MeantPairs(c: Context, targetNamespace: string, jobs: seq<Job>): set<Pair>
  {
    set n | 0 <= n < |jobs| :: Means(c, targetNamespace, jobs[n])
  }

  /** The last job with a key, whose spec the rule under that key ends up with. */
  lemma {:induction false} FinalJob(c: Context, s: RuleMap, jobs: seq<Job>, k: Key) returns (i: nat)
    requires |c.traffic| >= 3 && k in Expected(Writes(c, jobs))
    ensures i < |jobs| && JobKey(c, jobs[i]) == k && IsLast(c, jobs, i)
    ensures var s' := Sync(c.uid, s, Writes(c, jobs)); k in s' && s'[k].spec == JobSpec(c, jobs[i])
  {
    var ws := Writes(c, jobs);
    SyncConverges(c.uid, s, ws);
    i := LastWrite(ws, k);
    assert ws[i] == WriteOf(c, jobs[i]);
    forall m | i < m < |jobs| ensures JobKey(c, jobs[m]) != k { assert ws[m].key != k; }
  }

  lemma {:induction false} AllowedExactly(c: Context, s: RuleMap, locals: seq<ObjectRef>, targets: seq<ObjectRef>,
                                          ports: seq<IngressPort>, f: Flow)
    requires |c.traffic| >= 3 && AllIngressParse(ports)
    ensures var jobs := Jobs(locals, targets, ports);
            StoreAllows(Sync(c.uid, s, Writes(c, jobs)), Expected(Writes(c, jobs)), f) <==>
            f.Ends() in ReachedPairs(c, jobs) && OpenPort(ports, f.protocol, f.port)
  {
    var jobs := Jobs(locals, targets, ports);
    var ws := Writes(c, jobs);
    JobsMembers(locals, targets, ports);
    if StoreAllows(Sync(c.uid, s, ws), Expected(ws), f) {
      var k :| k in Expected(ws) && k in Sync(c.uid, s, ws) && Allows(k.namespace, Sync(c.uid, s, ws)[k].spec, f);
      var i := FinalJob(c, s, jobs, k);
      assert jobs[i] in jobs;
      JobMeans(c, locals, targets, ports, jobs[i], f);
    }
    if f.Ends() in ReachedPairs(c, jobs) && OpenPort(ports, f.protocol, f.port) {
      var n :| 0 <= n < |jobs| && IsLast(c, jobs, n) && Reaches(c, jobs[n]) == f.Ends();
      assert ws[n].key == JobKey(c, jobs[n]) && jobs[n] in jobs;
      var i := FinalJob(c, s, jobs, JobKey(c, jobs[n]));
      OneLast(c, jobs, i, n);
      JobMeans(c, locals, targets, ports, jobs[n], f);
    }
  }

  lemma {:induction false} WantedExactly(c: Context, targetNamespace: string, locals: seq<ObjectRef>,
                                         targets: seq<ObjectRef>, ports: seq<IngressPort>, f: Flow)
    requires AllIngressParse(ports)
    ensures Wanted(c, targetNamespace, locals, targets, ports, f) <==>
            f.Ends() in MeantPairs(c, targetNamespace, Jobs(locals, targets, ports))
                && OpenPort(ports, f.protocol, f.port)
  {
    var jobs := Jobs(locals, targets, ports);
    JobsMembers(locals, targets, ports);
    PortStringsMembers(ports, f.protocol);
    if Wanted(c, targetNamespace, locals, targets, ports, f) {
      var l :| l in locals && l.Resolve(c.namespace) == f.local;
      var t :| t in targets && t.Resolve(targetNamespace) == f.target;
      var j := Job(l, t, f.protocol, Join(PortStrings(ports, f.protocol), ','));
      assert IsJob(locals, targets, ports, j);
      var n :| 0 <= n < |jobs| && jobs[n] == j;
      assert Means(c, targetNamespace, jobs[n]) == f.Ends();
    }
    if f.Ends() in MeantPairs(c, targetNamespace, jobs) {
      var n :| 0 <= n < |jobs| && Means(c, targetNamespace, jobs[n]) == f.Ends();
      assert jobs[n] in jobs;
    }
  }

  lemma {:induction false} PairHasFlow(c: Context, targetNamespace: string, locals: seq<ObjectRef>,
                                       targets: seq<ObjectRef>, ports: seq<IngressPort>, p: Pair) returns (f: Flow)
    requires |c.traffic| >= 3 && AllIngressParse(ports)
    requires var jobs := Jobs(locals, targets, ports);
             p in ReachedPairs(c, jobs) || p in MeantPairs(c, targetNamespace, jobs)
    ensures f.Ends() == p && OpenPort(ports, f.protocol, f.port)
  {
    var jobs := Jobs(locals, targets, ports);
    var n :| 0 <= n < |jobs| && jobs[n].protocol == p.protocol;
    JobsMembers(locals, targets, ports);
    assert jobs[n] in jobs;
    var port := JobHasPort(locals, targets, ports, jobs[n]);
    f := Flow(p.local, p.target, p.protocol, port);
  }

  /** The compiler preserves meaning exactly when the rules that survive overwriting reach
      the pairs of groups the RuleS2S is about, no fewer and no others. */
  lemma {:induction false} MeaningPreservedExactly(c: Context, s: RuleMap, targetNamespace: string,
                                                   locals: seq<ObjectRef>,
                                                   targets: seq<ObjectRef>, ports: seq<IngressPort>)
    requires |c.traffic| >= 3 && AllIngressParse(ports)
    ensures var jobs := Jobs(locals, targets, ports);
            MeaningPreserved(c, s, targetNamespace, locals, targets, ports) <==>
            ReachedPairs(c, jobs) == MeantPairs(c, targetNamespace, jobs)
  {
    var jobs := Jobs(locals, targets, ports);
    var reached, meant := ReachedPairs(c, jobs), MeantPairs(c, targetNamespace, jobs);
    forall f: Flow
      ensures (StoreAllows(Sync(c.uid, s, Writes(c, jobs)), Expected(Writes(c, jobs)), f)
               <==> Wanted(c, targetNamespace, locals, targets, ports, f))
          <==> (OpenPort(ports, f.protocol, f.port) ==> (f.Ends() in reached <==> f.Ends() in meant))
    {
      AllowedExactly(c, s, locals, targets, ports, f);
      WantedExactly(c, targetNamespace, locals, targets, ports, f);
    }
    if MeaningPreserved(c, s, targetNamespace, locals, targets, ports) {
      forall p ensures p in reached <==> p in meant {
        if p in reached || p in meant {
          var f := PairHasFlow(c, targetNamespace, locals, targets, ports, p);
          assert StoreAllows(Sync(c.uid, s, Writes(c, jobs)), Expected(Writes(c, jobs)), f)
            <==> Wanted(c, targetNamespace, locals, targets, ports, f);
        }
      }
    }
  }

  // ---------------------------------------------------------------------------
  // The same in terms of keys and namespaces
  // ---------------------------------------------------------------------------

  /** No two different jobs share a rule key. */
  predicate KeysFaithful(c: Context, jobs: seq<Job>)
    requires |c.traffic| >= 3
  {
    forall i, j :: 0 <= i < |jobs| && 0 <= j < |jobs| && JobKey(c, jobs[i]) == JobKey(c, jobs[j]) ==> jobs[i] == jobs[j]
  }

  /** No two references of one service name the same group. */
  predicate Distinct(refs: seq<ObjectRef>, namespace: string)
  {
    forall r1, r2 :: r1 in refs && r2 in refs && r1.Resolve(namespace) == r2.Resolve(namespace) ==> r1 == r2
  }

  predicate BindsGroup(w: BindingPolicy.World, b: Key, service: Key, r: ObjectRef)
    requires b in w.bindings
  {
    var binding := w.bindings[b];
    && !binding.deleting && b.namespace == service.namespace
    && binding.refs.service.name == service.name && binding.refs.group == r
  }

  /** Groups that live bindings put into a service are distinct: admission keeps them so. */
  lemma {:induction false} BoundGroupsDistinct(w: BindingPolicy.World, service: Key, refs: seq<ObjectRef>)
    requires BindingPolicy.UniqueBindings(w)
    requires forall r :: r in refs ==> exists b :: b in w.bindings && BindsGroup(w, b, service, r)
    ensures Distinct(refs, service.namespace)
  {
    forall r1, r2 | r1 in refs && r2 in refs && r1.Resolve(service.namespace) == r2.Resolve(service.namespace)
      ensures r1 == r2
    {
      var b1 :| b1 in w.bindings && BindsGroup(w, b1, service, r1);
      var b2 :| b2 in w.bindings && BindsGroup(w, b2, service, r2);
      assert BindingPolicy.SameBinding(b1, w.bindings[b1].refs, b2, w.bindings[b2].refs);
    }
  }

  /** Each reference is qualified, or seen from the namespace it was written for. */
  predicate Placed(c: Context, targetNamespace: string, l: ObjectRef, t: ObjectRef)
  {
    var namespace := RuleNamespace(c, l, t);
    (l.namespace != "" || namespace == c.namespace) && (t.namespace != "" || namespace == targetNamespace)
  }

  predicate AllPlaced(c: Context, targetNamespace: string, locals: seq<ObjectRef>, targets: seq<ObjectRef>)
  {
    forall l, t :: l in locals && t in targets ==> Placed(c, targetNamespace, l, t)
  }

  predicate JobsPlaced(c: Context, targetNamespace: string, jobs: seq<Job>)
  {
    forall i :: 0 <= i < |jobs| ==> Placed(c, targetNamespace, jobs[i].local, jobs[i].target)
  }

  lemma {:induction false} PlacedReaches(c: Context, targetNamespace: string, j: Job)
    ensures Placed(c, targetNamespace, j.local, j.target) <==> Reaches(c, j) == Means(c, targetNamespace, j)
  {
  }

  /** The rule lives in the namespace of the group that receives the traffic, except for
      egress to an unqualified group of a target in another namespace. */
  lemma {:induction false} PlacementExactly(c: Context, targetNamespace: string, l: ObjectRef, t: ObjectRef)
    ensures var ingress := c.traffic == "ingress";
            var receiver := if ingress then l.Resolve(c.namespace) else t.Resolve(targetNamespace);
            RuleNamespace(c, l, t) == receiver.namespace
            <==> ingress || t.namespace != "" || targetNamespace == c.namespace
  {
  }

  /** A rule that reaches the pair of another job has that job's key: its namespace is the
      receiver's, and its name is made of both names. */
  lemma {:induction false} ReachSharesKey(c: Context, targetNamespace: string, targets: seq<ObjectRef>, a: Job, b: Job)
    requires |c.traffic| >= 3 && a.target in targets && b.target in targets && Distinct(targets, targetNamespace)
    requires Reaches(c, a) == Means(c, targetNamespace, b)
    ensures JobKey(c, a) == JobKey(c, b)
  {
    assert a.target.Resolve(targetNamespace) == b.target.Resolve(targetNamespace) ==> a.target == b.target;
  }

  lemma {:induction false} LastWithKey(c: Context, jobs: seq<Job>, i: nat) returns (n: nat)
    requires |c.traffic| >= 3 && i < |jobs|
    ensures i <= n < |jobs| && JobKey(c, jobs[n]) == JobKey(c, jobs[i]) && IsLast(c, jobs, n)
    decreases |jobs| - i
  {
    n := i;
    if !IsLast(c, jobs, i) {
      var m :| i < m < |jobs| && JobKey(c, jobs[m]) == JobKey(c, jobs[i]);
      n := LastWithKey(c, jobs, m);
    }
  }

  lemma {:induction false} OneLast(c: Context, jobs: seq<Job>, m: nat, n: nat)
    requires |c.traffic| >= 3 && m < |jobs| && n < |jobs| && IsLast(c, jobs, m) && IsLast(c, jobs, n)
    requires JobKey(c, jobs[m]) == JobKey(c, jobs[n])
    ensures m == n
  {
  }

  lemma {:induction false} FaithfulPlacedEqual(c: Context, targetNamespace: string, jobs: seq<Job>)
    requires |c.traffic| >= 3 && KeysFaithful(c, jobs) && JobsPlaced(c, targetNamespace, jobs)
    ensures ReachedPairs(c, jobs) == MeantPairs(c, targetNamespace, jobs)
  {
    forall i | 0 <= i < |jobs|
      ensures Means(c, targetNamespace, jobs[i]) in ReachedPairs(c, jobs)
              && Reaches(c, jobs[i]) == Means(c, targetNamespace, jobs[i])
    {
      PlacedReaches(c, targetNamespace, jobs[i]);
      var n := LastWithKey(c, jobs, i);
      assert jobs[n] == jobs[i];
    }
  }

  /** The pair of a job, when reached at all, is reached by the last job with its key. */
  lemma {:induction false} ReachedByOwnKey(c: Context, targetNamespace: string, locals: seq<ObjectRef>,
                                           targets: seq<ObjectRef>, ports: seq<IngressPort>, i: nat, n: nat)
    requires |c.traffic| >= 3 && Distinct(targets, targetNamespace)
    requires var jobs := Jobs(locals, targets, ports);
             && ReachedPairs(c, jobs) == MeantPairs(c, targetNamespace, jobs)
             && i < |jobs| && n < |jobs| && JobKey(c, jobs[n]) == JobKey(c, jobs[i]) && IsLast(c, jobs, n)
    ensures var jobs := Jobs(locals, targets, ports); Reaches(c, jobs[n]) == Means(c, targetNamespace, jobs[i])
  {
    var jobs := Jobs(locals, targets, ports);
    JobsMembers(locals, targets, ports);
    assert Means(c, targetNamespace, jobs[i]) in MeantPairs(c, targetNamespace, jobs);
    var m :| 0 <= m < |jobs| && IsLast(c, jobs, m) && Reaches(c, jobs[m]) == Means(c, targetNamespace, jobs[i]);
    assert jobs[m] in jobs && jobs[i] in jobs;
    ReachSharesKey(c, targetNamespace, targets, jobs[m], jobs[i]);
    OneLast(c, jobs, m, n);
  }

  lemma {:induction false} EqualFaithfulPlaced(c: Context, targetNamespace: string, locals: seq<ObjectRef>,
                                               targets: seq<ObjectRef>, ports: seq<IngressPort>)
    requires |c.traffic| >= 3 && Distinct(locals, c.namespace) && Distinct(targets, targetNamespace)
    requires var jobs := Jobs(locals, targets, ports); ReachedPairs(c, jobs) == MeantPairs(c, targetNamespace, jobs)
    ensures var jobs := Jobs(locals, targets, ports); KeysFaithful(c, jobs) && JobsPlaced(c, targetNamespace, jobs)
  {
    var jobs := Jobs(locals, targets, ports);
    JobsMembers(locals, targets, ports);
    forall i, j | 0 <= i < |jobs| && 0 <= j < |jobs| && JobKey(c, jobs[i]) == JobKey(c, jobs[j])
      ensures jobs[i] == jobs[j]
    {
      var n := LastWithKey(c, jobs, i);
      ReachedByOwnKey(c, targetNamespace, locals, targets, ports, i, n);
      ReachedByOwnKey(c, targetNamespace, locals, targets, ports, j, n);
      assert jobs[i] in jobs && jobs[j] in jobs;
    }
    forall i | 0 <= i < |jobs| ensures Placed(c, targetNamespace, jobs[i].local, jobs[i].target) {
      var n := LastWithKey(c, jobs, i);
      ReachedByOwnKey(c, targetNamespace, locals, targets, ports, i, n);
      assert jobs[n] == jobs[i];
      PlacedReaches(c, targetNamespace, jobs[i]);
    }
  }

  /** When each service's references name different groups, meaning is preserved exactly
      when no two different jobs share a key and every unqualified reference is seen from
      the namespace it was written for. */
  lemma {:induction false} MeaningPreservedByKeys(c: Context, s: RuleMap, targetNamespace: string,
                                                  locals: seq<ObjectRef>,
                                                  targets: seq<ObjectRef>, ports: seq<IngressPort>)
    requires |c.traffic| >= 3 && AllIngressParse(ports)
    requires Distinct(locals, c.namespace) && Distinct(targets, targetNamespace)
    ensures var jobs := Jobs(locals, targets, ports);
            MeaningPreserved(c, s, targetNamespace, locals, targets, ports) <==>
            KeysFaithful(c, jobs) && JobsPlaced(c, targetNamespace, jobs)
  {
    var jobs := Jobs(locals, targets, ports);
    MeaningPreservedExactly(c, s, targetNamespace, locals, targets, ports);
    if KeysFaithful(c, jobs) && JobsPlaced(c, targetNamespace, jobs) {
      FaithfulPlacedEqual(c, targetNamespace, jobs);
    }
    if MeaningPreserved(c, s, targetNamespace, locals, targets, ports) {
      EqualFaithfulPlaced(c, targetNamespace, locals, targets, ports);
    }
  }

  // ---------------------------------------------------------------------------
  // The same in terms of names
  // ---------------------------------------------------------------------------

  ghost predicate Injective(digest: string -> string)
  {
    forall a, b :: digest(a) == digest(b) ==> a == b
  }

  /** Pairs whose rules live in one namespace are told apart by their names joined with a dash. */
  predicate NamesFaithful(c: Context, locals: seq<ObjectRef>, targets: seq<ObjectRef>)
  {
    forall l1, l2, t1, t2 :: l1 in locals && l2 in locals && t1 in targets && t2 in targets
      && RuleNamespace(c, l1, t1) == RuleNamespace(c, l2, t2)
      && l1.name + "-" + t1.name == l2.name + "-" + t2.name
      ==> l1 == l2 && t1 == t2
  }

  lemma {:induction false} Middle(head: string, a: string, b: string, x: string, y: string)
    requires |x| == |y| && head + a + x == head + b + y
    ensures a == b && x == y
  {
    var s := head + a + x;
    assert |a| == |b|;
    assert a == s[|head|..|head| + |a|] == b;
    assert x == s[|head| + |a|..] == y;
  }

  lemma {:induction false} LowerProtocols()
    ensures ToLower(PROTOCOL_TCP) == "tcp" && ToLower(PROTOCOL_UDP) == "udp"
  {
  }

  lemma {:induction false} NameInputsEqual(traffic: string, l1: string, t1: string, p1: string, l2: string,
                                           t2: string, p2: string)
    requires KnownProtocol(p1) && KnownProtocol(p2)
    ensures NameInput(traffic, l1, t1, p1) == NameInput(traffic, l2, t2, p2)
            <==> l1 + "-" + t1 == l2 + "-" + t2 && p1 == p2
  {
    var head := ToLower(traffic) + "-";
    var a, b := l1 + "-" + t1, l2 + "-" + t2;
    var x, y := "-" + ToLower(p1), "-" + ToLower(p2);
    assert NameInput(traffic, l1, t1, p1) == head + a + x;
    assert NameInput(traffic, l2, t2, p2) == head + b + y;
    LowerProtocols();
    if NameInput(traffic, l1, t1, p1) == NameInput(traffic, l2, t2, p2) {
      Middle(head, a, b, x, y);
      assert x[1..] == ToLower(p1) && y[1..] == ToLower(p2);
    }
  }

  lemma {:induction false} KeysEqual(c: Context, a: Job, b: Job)
    requires |c.traffic| >= 3 && KnownProtocol(a.protocol) && KnownProtocol(b.protocol)
    ensures var same := && RuleNamespace(c, a.local, a.target) == RuleNamespace(c, b.local, b.target)
                        && a.local.name + "-" + a.target.name == b.local.name + "-" + b.target.name
                        && a.protocol == b.protocol;
            && (same ==> JobKey(c, a) == JobKey(c, b))
            && (Injective(c.digest) && JobKey(c, a) == JobKey(c, b) ==> same)
  {
    NameInputsEqual(c.traffic, a.local.name, a.target.name, a.protocol, b.local.name, b.target.name, b.protocol);
    var prefix := ToLower(c.traffic)[..3] + "-";
    var da := c.digest(NameInput(c.traffic, a.local.name, a.target.name, a.protocol));
    var db := c.digest(NameInput(c.traffic, b.local.name, b.target.name, b.protocol));
    assert (prefix + da)[4..] == da && (prefix + db)[4..] == db;
  }

  lemma {:induction false} SharedNameSharesKey(c: Context, locals: seq<ObjectRef>, targets: seq<ObjectRef>,
                                               ports: seq<IngressPort>,
                            l1: ObjectRef, t1: ObjectRef, l2: ObjectRef, t2: ObjectRef)
    requires |c.traffic| >= 3 && KnownProtocols(ports) && ports != []
    requires l1 in locals && l2 in locals && t1 in targets && t2 in targets
    requires RuleNamespace(c, l1, t1) == RuleNamespace(c, l2, t2) && l1.name + "-" + t1.name == l2.name + "-" + t2.name
    requires KeysFaithful(c, Jobs(locals, targets, ports))
    ensures l1 == l2 && t1 == t2
  {
    var jobs := Jobs(locals, targets, ports);
    var protocol := ports[0].protocol;
    JobsMembers(locals, targets, ports);
    PortStringsMembers(ports, protocol);
    var joined := Join(PortStrings(ports, protocol), ',');
    var a, b := Job(l1, t1, protocol, joined), Job(l2, t2, protocol, joined);
    assert ports[0].port in PortStrings(ports, protocol);
    assert IsJob(locals, targets, ports, a) && IsJob(locals, targets, ports, b);
    var i :| 0 <= i < |jobs| && jobs[i] == a;
    var j :| 0 <= j < |jobs| && jobs[j] == b;
    KeysEqual(c, a, b);
  }

  lemma {:induction false} NamesGiveKeys(c: Context, locals: seq<ObjectRef>, targets: seq<ObjectRef>,
                                         ports: seq<IngressPort>)
    requires |c.traffic| >= 3 && Injective(c.digest) && NamesFaithful(c, locals, targets)
    ensures KeysFaithful(c, Jobs(locals, targets, ports))
  {
    var jobs := Jobs(locals, targets, ports);
    forall i, j | 0 <= i < |jobs| && 0 <= j < |jobs| && JobKey(c, jobs[i]) == JobKey(c, jobs[j])
      ensures jobs[i] == jobs[j]
    {
      OneKeyOneJob(c, locals, targets, ports, jobs[i], jobs[j]);
    }
  }

  lemma {:induction false} OneKeyOneJob(c: Context, locals: seq<ObjectRef>, targets: seq<ObjectRef>,
                                        ports: seq<IngressPort>, a: Job, b: Job)
    requires |c.traffic| >= 3 && Injective(c.digest) && NamesFaithful(c, locals, targets)
    requires a in Jobs(locals, targets, ports) && b in Jobs(locals, targets, ports) && JobKey(c, a) == JobKey(c, b)
    ensures a == b
  {
    JobsMembers(locals, targets, ports);
    KeysEqual(c, a, b);
    assert a.local == b.local && a.target == b.target;
  }

  lemma {:induction false} KeysGiveNames(c: Context, locals: seq<ObjectRef>, targets: seq<ObjectRef>,
                                         ports: seq<IngressPort>)
    requires |c.traffic| >= 3 && KnownProtocols(ports) && ports != [] && KeysFaithful(c, Jobs(locals, targets, ports))
    ensures NamesFaithful(c, locals, targets)
  {
    forall l1, l2, t1, t2 | l1 in locals && l2 in locals && t1 in targets && t2 in targets
      && RuleNamespace(c, l1, t1) == RuleNamespace(c, l2, t2) && l1.name + "-" + t1.name == l2.name + "-" + t2.name
      ensures l1 == l2 && t1 == t2
    {
      SharedNameSharesKey(c, locals, targets, ports, l1, t1, l2, t2);
    }
  }

  /** Each pair of references has a job on the first port's protocol. */
  lemma {:induction false} PairHasJob(locals: seq<ObjectRef>, targets: seq<ObjectRef>, ports: seq<IngressPort>,
                                      l: ObjectRef, t: ObjectRef) returns (i: nat)
    requires KnownProtocols(ports) && ports != [] && l in locals && t in targets
    ensures var jobs := Jobs(locals, targets, ports); i < |jobs| && jobs[i].local == l && jobs[i].target == t
  {
    var jobs, protocol := Jobs(locals, targets, ports), ports[0].protocol;
    JobsMembers(locals, targets, ports);
    PortStringsMembers(ports, protocol);
    var j := Job(l, t, protocol, Join(PortStrings(ports, protocol), ','));
    assert ports[0].port in PortStrings(ports, protocol);
    assert IsJob(locals, targets, ports, j);
    i :| 0 <= i < |jobs| && jobs[i] == j;
  }

  lemma {:induction false} JobsPlacedExactly(c: Context, targetNamespace: string, locals: seq<ObjectRef>,
                                             targets: seq<ObjectRef>, ports: seq<IngressPort>)
    requires KnownProtocols(ports) && ports != []
    ensures JobsPlaced(c, targetNamespace, Jobs(locals, targets, ports))
            <==> AllPlaced(c, targetNamespace, locals, targets)
  {
    var jobs := Jobs(locals, targets, ports);
    JobsMembers(locals, targets, ports);
    if JobsPlaced(c, targetNamespace, jobs) {
      forall l, t | l in locals && t in targets ensures Placed(c, targetNamespace, l, t) {
        var i := PairHasJob(locals, targets, ports, l, t);
        assert Placed(c, targetNamespace, jobs[i].local, jobs[i].target);
      }
    } else {
      var i :| 0 <= i < |jobs| && !Placed(c, targetNamespace, jobs[i].local, jobs[i].target);
      assert jobs[i] in jobs;
    }
  }

  /** With a collision-free digest, meaning is preserved exactly when the joined names of the
      groups, which the rule name is made of, tell the pairs apart and every unqualified
      reference is seen from the namespace it was written for. */
  lemma {:induction false} MeaningPreservedByNames(c: Context, s: RuleMap, targetNamespace: string,
                                                   locals: seq<ObjectRef>,
                                                   targets: seq<ObjectRef>, ports: seq<IngressPort>)
    requires |c.traffic| >= 3 && AllIngressParse(ports) && KnownProtocols(ports) && ports != []
    requires Distinct(locals, c.namespace) && Distinct(targets, targetNamespace)
    requires Injective(c.digest)
    ensures MeaningPreserved(c, s, targetNamespace, locals, targets, ports) <==>
            NamesFaithful(c, locals, targets) && AllPlaced(c, targetNamespace, locals, targets)
  {
    MeaningPreservedByKeys(c, s, targetNamespace, locals, targets, ports);
    JobsPlacedExactly(c, targetNamespace, locals, targets, ports);
    if NamesFaithful(c, locals, targets) { NamesGiveKeys(c, locals, targets, ports); }
    if KeysFaithful(c, Jobs(locals, targets, ports)) { KeysGiveNames(c, locals, targets, ports); }
  }

  // ---------------------------------------------------------------------------
  // Traffic that is lost whatever the digest
  // ---------------------------------------------------------------------------

  /** Two pairs with one joined name in one namespace lose traffic. */
  lemma {:induction false} SharedNameLosesTraffic(c: Context, s: RuleMap, targetNamespace: string,
                                                  locals: seq<ObjectRef>,
                                                  targets: seq<ObjectRef>, ports: seq<IngressPort>)
    requires |c.traffic| >= 3 && AllIngressParse(ports) && KnownProtocols(ports) && ports != []
    requires Distinct(locals, c.namespace) && Distinct(targets, targetNamespace)
    requires !NamesFaithful(c, locals, targets)
    ensures !MeaningPreserved(c, s, targetNamespace, locals, targets, ports)
  {
    MeaningPreservedByKeys(c, s, targetNamespace, locals, targets, ports);
    if KeysFaithful(c, Jobs(locals, targets, ports)) { KeysGiveNames(c, locals, targets, ports); }
  }

  /** So does an unqualified group of a target in another namespace, for egress: its rule is
      put in, and read from, the RuleS2S's namespace. */
  lemma {:induction false} UnqualifiedTargetLosesTraffic(c: Context, s: RuleMap, targetNamespace: string,
                                                         locals: seq<ObjectRef>,
                                                         targets: seq<ObjectRef>, ports: seq<IngressPort>, t: ObjectRef)
    requires c.traffic == "egress" && AllIngressParse(ports) && KnownProtocols(ports) && ports != []
    requires Distinct(locals, c.namespace) && Distinct(targets, targetNamespace)
    requires locals != [] && t in targets && t.namespace == "" && targetNamespace != c.namespace
    ensures !MeaningPreserved(c, s, targetNamespace, locals, targets, ports)
  {
    MeaningPreservedByKeys(c, s, targetNamespace, locals, targets, ports);
    JobsPlacedExactly(c, targetNamespace, locals, targets, ports);
    assert locals[0] in locals && !Placed(c, targetNamespace, locals[0], t);
  }

  function GroupIn(namespace: string, name: string): ObjectRef
  {
    ObjectRef("", "", name, namespace)
  }

  /** Two references that are qualified and differ name different groups, seen from anywhere. */
  lemma {:induction false} TwoDistinct(a: ObjectRef, b: ObjectRef, refs: seq<ObjectRef>, namespace: string)
    requires refs == [a, b] && a.namespace != "" && b.namespace != ""
    requires a.namespace != b.namespace || a.name != b.name
    ensures Distinct(refs, namespace)
  {
  }

  lemma {:induction false} PairsUnfaithful(c: Context, locals: seq<ObjectRef>, targets: seq<ObjectRef>,
                                           l1: ObjectRef, l2: ObjectRef, t1: ObjectRef, t2: ObjectRef)
    requires l1 in locals && l2 in locals && t1 in targets && t2 in targets
    requires l1 != l2 && RuleNamespace(c, l1, t1) == RuleNamespace(c, l2, t2)
    requires l1.name + "-" + t1.name == l2.name + "-" + t2.name
    ensures !NamesFaithful(c, locals, targets)
  {
  }

  lemma {:induction false} DashedNames()
    ensures "a-b" + "-" + "c" == "a" + "-" + "b-c"
    ensures "a-b" != "a" && "c" != "b-c" && "ns" != ""
  {
    assert |"a-b"| != |"a"| && |"c"| != |"b-c"|;
  }

  /** The dash does not separate names that hold dashes: groups a-b and a against groups c
      and b-c give two pairs one rule, and traffic asked for is lost. */
  lemma {:induction false} HyphensCollide(c: Context, s: RuleMap, targetNamespace: string, locals: seq<ObjectRef>,
                                          targets: seq<ObjectRef>, ports: seq<IngressPort>)
    requires |c.traffic| >= 3
    requires locals == [GroupIn("ns", "a-b"), GroupIn("ns", "a")]
             && targets == [GroupIn("ns", "c"), GroupIn("ns", "b-c")]
    requires AllIngressParse(ports) && KnownProtocols(ports) && ports != []
    ensures !MeaningPreserved(c, s, targetNamespace, locals, targets, ports)
  {
    DashedNames();
    TwoDistinct(locals[0], locals[1], locals, c.namespace);
    TwoDistinct(targets[0], targets[1], targets, targetNamespace);
    PairsUnfaithful(c, locals, targets, locals[0], locals[1], targets[0], targets[1]);
    SharedNameLosesTraffic(c, s, targetNamespace, locals, targets, ports);
  }

  /** Nor does the name say the namespace: for egress traffic, two local groups of one name
      in two namespaces give one rule. */
  lemma {:induction false} NamespacesCollide(c: Context, s: RuleMap, targetNamespace: string, locals: seq<ObjectRef>,
                                             targets: seq<ObjectRef>, ports: seq<IngressPort>)
    requires c.traffic == "egress"
    requires locals == [GroupIn("n1", "a"), GroupIn("n2", "a")] && targets == [GroupIn("ns", "c")]
    requires AllIngressParse(ports) && KnownProtocols(ports) && ports != []
    ensures !MeaningPreserved(c, s, targetNamespace, locals, targets, ports)
  {
    assert "n1"[1] != "n2"[1] && "ns" != "";
    OneNameUnfaithful(c, targetNamespace, locals, targets, GroupIn("n1", "a"), GroupIn("n2", "a"), GroupIn("ns", "c"));
    SharedNameLosesTraffic(c, s, targetNamespace, locals, targets, ports);
  }

  lemma {:induction false} OneNameUnfaithful(c: Context, targetNamespace: string, locals: seq<ObjectRef>,
                                             targets: seq<ObjectRef>, l1: ObjectRef, l2: ObjectRef, t: ObjectRef)
    requires c.traffic != "ingress" && locals == [l1, l2] && targets == [t]
    requires l1.name == l2.name && l1.namespace != l2.namespace && l1.namespace != "" && l2.namespace != ""
    ensures Distinct(locals, c.namespace) && Distinct(targets, targetNamespace) && !NamesFaithful(c, locals, targets)
  {
    TwoDistinct(l1, l2, locals, c.namespace);
    PairsUnfaithful(c, locals, targets, l1, l2, t, t);
  }

  // ---------------------------------------------------------------------------
  // How many rules
  // ---------------------------------------------------------------------------

  function ProtocolCount(ports: seq<IngressPort>): nat
  {
    (if PortStrings(ports, PROTOCOL_TCP) == [] then 0 else 1)
    + (if PortStrings(ports, PROTOCOL_UDP) == [] then 0 else 1)
  }

  lemma {:induction false} OneMore(n: nat, m: nat)
    ensures n * m + m == (n + 1) * m
  {
  }

  lemma {:induction false} RowJobsCount(local: ObjectRef, targets: seq<ObjectRef>, ports: seq<IngressPort>)
    ensures |RowJobs(local, targets, ports)| == |targets| * ProtocolCount(ports)
  {
    if targets != [] { RowJobsCount(local, targets[..|targets| - 1], ports); }
  }

  lemma {:induction false} JobsCount(locals: seq<ObjectRef>, targets: seq<ObjectRef>, ports: seq<IngressPort>)
    ensures |Jobs(locals, targets, ports)| == |locals| * (|targets| * ProtocolCount(ports))
  {
    if locals != [] {
      JobsCount(locals[..|locals| - 1], targets, ports);
      RowJobsCount(locals[|locals| - 1], targets, ports);
      OneMore(|locals| - 1, |targets| * ProtocolCount(ports));
    }
  }

  predicate DistinctKeys(ws: seq<Write>)
  {
    forall i, j :: 0 <= i < j < |ws| ==> ws[i].key != ws[j].key
  }

  lemma {:induction false} ExpectedSize(ws: seq<Write>)
    requires DistinctKeys(ws)
    ensures |Expected(ws)| == |ws|
  {
    if ws == [] {
      assert Expected(ws) == {};
    } else {
      var init, last := ws[..|ws| - 1], ws[|ws| - 1];
      assert ws == init + [last];
      ExpectedSize(init);
      ExpectedSnoc(init, last);
      assert last.key !in Expected(init);
    }
  }

  /** When the jobs have distinct keys, the expected rules are as many as the pairs of
      groups times the protocols in use. */
  lemma {:induction false} RuleCount(c: Context, locals: seq<ObjectRef>, targets: seq<ObjectRef>,
                                     ports: seq<IngressPort>)
    requires |c.traffic| >= 3 && DistinctKeys(Writes(c, Jobs(locals, targets, ports)))
    ensures |Expected(Writes(c, Jobs(locals, targets, ports)))| == |locals| * (|targets| * ProtocolCount(ports))
  {
    ExpectedSize(Writes(c, Jobs(locals, targets, ports)));
    JobsCount(locals, targets, ports);
  }
}
