/** The RuleS2S compiler as functions: what one rule between two services asks for, and
    which IEAgAgRules that means. */
module Rules {
  import opened PortGrammar
  import opened Model
  import opened RuleStore

  // ---------------------------------------------------------------------------
  // Objects
  // ---------------------------------------------------------------------------

  /** RuleS2S. The local alias is looked up in the rule's own namespace. */
  datatype RuleS2S = RuleS2S(
    key: Key,
    uid: string,
    traffic: string,
    localName: string,
    target: ObjectRef,
    hasFinalizer: bool,
    deleting: bool)
  {
    function LocalKey(): Key { Key(key.namespace, localName) }

    function TargetKey(): Key { target.Resolve(key.namespace) }
  }

  /** ServiceAlias: its reference has no namespace, so its service is beside it. */
  datatype ServiceAlias = ServiceAlias(key: Key, serviceName: string)
  {
    function ServiceKey(): Key { Key(key.namespace, serviceName) }
  }

  // ---------------------------------------------------------------------------
  // Names
  // ---------------------------------------------------------------------------

  /** strings.ToLower and strings.ToUpper on ASCII letters. */
  function LowerChar(c: char): char
  {
    if 'A' <= c <= 'Z' then ('a' as int + (c as int - 'A' as int)) as char else c
  }

  function UpperChar(c: char): char
  {
    if 'a' <= c <= 'z' then ('A' as int + (c as int - 'a' as int)) as char else c
  }

  function ToLower(s: string): (r: string)
    ensures |r| == |s|
  {
    seq(|s|, i requires 0 <= i < |s| => LowerChar(s[i]))
  }

  function ToUpper(s: string): (r: string)
    ensures |r| == |s|
  {
    seq(|s|, i requires 0 <= i < |s| => UpperChar(s[i]))
  }

  /** The text that is hashed into a rule name. */
  function NameInput(traffic: string, localName: string, targetName: string, protocol: string): string
  {
    ToLower(traffic) + "-" + localName + "-" + targetName + "-" + ToLower(protocol)
  }

  /** generateRuleName; digest stands for the formatted first half of SHA-256. */
  function RuleName(digest: string -> string, traffic: string, localName: string, targetName: string,
                    protocol: string): string
    requires |traffic| >= 3
  {
    ToLower(traffic)[..3] + "-" + digest(NameInput(traffic, localName, targetName, protocol))
  }

  // ---------------------------------------------------------------------------
  // Jobs: one per address-group pair and protocol, in loop order
  // ---------------------------------------------------------------------------

  datatype Job = Job(local: ObjectRef, target: ObjectRef, protocol: string, ports: string)

  /** What every job of one pass shares. */
  datatype Context = Context(digest: string -> string, traffic: string, namespace: string, uid: string)

  /** Where the rule is put: with the group that receives the traffic, an unqualified one being
      sought in the RuleS2S's namespace. */
  function RuleNamespace(c: Context, local: ObjectRef, target: ObjectRef): string
  {
    if c.traffic == "ingress" then ResolveNamespace(local.namespace, c.namespace)
    else ResolveNamespace(target.namespace, c.namespace)
  }

  function JobKey(c: Context, j: Job): Key
    requires |c.traffic| >= 3
  {
    Key(RuleNamespace(c, j.local, j.target), RuleName(c.digest, c.traffic, j.local.name, j.target.name, j.protocol))
  }

  function JobSpec(c: Context, j: Job): RuleSpec
  {
    RuleSpec(
      j.protocol,
      ToUpper(c.traffic),
      j.local.(namespace := ResolveNamespace(j.local.namespace, j.local.namespace)),
      j.target.(namespace := ResolveNamespace(j.target.namespace, j.target.namespace)),
      j.ports, "ACCEPT", true, 100)
  }

  /** The port strings of one protocol, in order. */
  function PortStrings(ports: seq<IngressPort>, protocol: string): seq<string>
  {
    if ports == [] then []
    else
      var last := ports[|ports| - 1];
      PortStrings(ports[..|ports| - 1], protocol) + (if last.protocol == protocol then [last.port] else [])
  }

  function ProtocolJob(local: ObjectRef, target: ObjectRef, ports: seq<IngressPort>, protocol: string): seq<Job>
  {
    var strings := PortStrings(ports, protocol);
    if strings == [] then [] else [Job(local, target, protocol, Join(strings, ','))]
  }

  function PairJobs(local: ObjectRef, target: ObjectRef, ports: seq<IngressPort>): seq<Job>
  {
    ProtocolJob(local, target, ports, PROTOCOL_TCP) + ProtocolJob(local, target, ports, PROTOCOL_UDP)
  }

  function RowJobs(local: ObjectRef, targets: seq<ObjectRef>, ports: seq<IngressPort>): seq<Job>
  {
    if targets == [] then []
    else RowJobs(local, targets[..|targets| - 1], ports) + PairJobs(local, targets[|targets| - 1], ports)
  }

  function Jobs(locals: seq<ObjectRef>, targets: seq<ObjectRef>, ports: seq<IngressPort>): seq<Job>
  {
    if locals == [] then []
    else Jobs(locals[..|locals| - 1], targets, ports) + RowJobs(locals[|locals| - 1], targets, ports)
  }

  /** A job as a write to the rule store. */
  function WriteOf(c: Context, j: Job): Write
    requires |c.traffic| >= 3
  {
    Write(JobKey(c, j), JobSpec(c, j))
  }

  function Writes(c: Context, jobs: seq<Job>): (ws: seq<Write>)
    requires |c.traffic| >= 3
    ensures |ws| == |jobs| && forall i :: 0 <= i < |jobs| ==> ws[i] == WriteOf(c, jobs[i])
  {
    seq(|jobs|, i requires 0 <= i < |jobs| => WriteOf(c, jobs[i]))
  }

  // ---------------------------------------------------------------------------
  // What a pass asks for
  // ---------------------------------------------------------------------------

  /** The objects Reconcile looks up. */
  datatype Objects = Objects(aliases: map<Key, ServiceAlias>, services: map<Key, Service>)

  predicate AliasesKeyed(aliases: map<Key, ServiceAlias>)
  {
    forall a :: a in aliases ==> aliases[a].key == a
  }

  datatype Plan =
    | LocalAliasNotFound
    | TargetAliasNotFound
    | LocalServiceNotFound
    | TargetServiceNotFound
    | Inactive
    | Active(locals: seq<ObjectRef>, targets: seq<ObjectRef>, ports: seq<IngressPort>)

  /** The ports of the service that receives the traffic. */
  function ReceiverPorts(traffic: string, local: Service, target: Service): seq<IngressPort>
  {
    if ToLower(traffic) == "ingress" then local.ingressPorts else target.ingressPorts
  }

  function PlanFor(o: Objects, r: RuleS2S): Plan
  {
    if r.LocalKey() !in o.aliases then LocalAliasNotFound
    else if r.TargetKey() !in o.aliases then TargetAliasNotFound
    else
      var localService, targetService := o.aliases[r.LocalKey()].ServiceKey(), o.aliases[r.TargetKey()].ServiceKey();
      if localService !in o.services then LocalServiceNotFound
      else if targetService !in o.services then TargetServiceNotFound
      else
        var local, target := o.services[localService], o.services[targetService];
        var ports := ReceiverPorts(r.traffic, local, target);
        if local.addressGroups == [] || target.addressGroups == [] || ports == [] then Inactive
        else Active(local.addressGroups, target.addressGroups, ports)
  }
}
