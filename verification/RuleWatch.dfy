/** The watches that requeue a RuleS2S: they walk the references backwards, from a Service
    or ServiceAlias to the rules, and must not miss a rule whose compilation reads it. */
module RuleWatch {
  import opened Model
  import opened RuleStore
  import opened Rules

  /** The namespace of a plain ObjectReference, as its accessor reports it. */
  function PlainRefNamespace(): string { "" }

  predicate AliasMatches(a: ServiceAlias, service: Key)
  {
    a.serviceName == service.name && (PlainRefNamespace() == "" || a.key.namespace == service.namespace)
  }

  predicate References(r: RuleS2S, a: Key)
  {
    r.LocalKey() == a || r.TargetKey() == a
  }

  /** The rules that refer to some alias of a service of that name. */
  predicate RequestedForService(aliases: map<Key, ServiceAlias>, rules: map<Key, RuleS2S>, service: Key, k: Key)
  {
    k in rules && exists a :: a in aliases && AliasMatches(aliases[a], service) && References(rules[k], aliases[a].key)
  }

  predicate RequestedForAlias(rules: map<Key, RuleS2S>, a: Key, k: Key)
  {
    k in rules && References(rules[k], a)
  }

  /** A rule is requested when it names the alias as its local one, in its own namespace, or as
      its target; for a service, when it names so an alias of that service name. */
  lemma {:induction false} RequestsExactly(aliases: map<Key, ServiceAlias>, rules: map<Key, RuleS2S>, a: Key,
                                           service: Key, k: Key)
    requires AliasesKeyed(aliases)
    ensures RequestedForAlias(rules, a, k) <==> k in rules && NamesAlias(rules[k], a)
    ensures RequestedForService(aliases, rules, service, k) <==>
            k in rules && exists b :: b in aliases && aliases[b].serviceName == service.name && NamesAlias(rules[k], b)
  {
    forall b | b in aliases && k in rules ensures References(rules[k], aliases[b].key) <==> NamesAlias(rules[k], b) {}
    if k in rules {
      if b :| b in aliases && aliases[b].serviceName == service.name && NamesAlias(rules[k], b) {
        assert AliasMatches(aliases[b], service) && References(rules[k], aliases[b].key);
      }
    }
  }

  predicate NamesAlias(r: RuleS2S, a: Key)
  {
    || (r.localName == a.name && r.key.namespace == a.namespace)
    || (r.target.name == a.name
        && (if r.target.namespace == "" then r.key.namespace else r.target.namespace) == a.namespace)
  }

  /** findRuleS2SForServiceAlias: one request per reference found. */
  method FindRuleS2SForServiceAlias(a: Key, rules: map<Key, RuleS2S>) returns (requests: seq<Key>)
    ensures forall k :: k in requests <==> RequestedForAlias(rules, a, k)
  {
    requests := [];
    var todo := rules.Keys;
    while todo != {}
      invariant todo <= rules.Keys
      invariant forall k :: k in requests <==> k !in todo && RequestedForAlias(rules, a, k)
      decreases todo
    {
      var k :| k in todo;
      todo := todo - {k};
      var rule := rules[k];
      if rule.localName == a.name && rule.key.namespace == a.namespace {
        requests := requests + [k];
      }
      if rule.target.name == a.name && ResolveNamespace(rule.target.namespace, rule.key.namespace) == a.namespace {
        requests := requests + [k];
      }
    }
  }

  /** findRuleS2SForService: the rules of every alias that names the service. */
  method FindRuleS2SForService(service: Key, aliases: map<Key, ServiceAlias>, rules: map<Key, RuleS2S>)
    returns (requests: seq<Key>)
    ensures forall k :: k in requests <==> RequestedForService(aliases, rules, service, k)
  {
    requests := [];
    var todo := aliases.Keys;
    while todo != {}
      invariant todo <= aliases.Keys
      invariant forall k :: k in requests <==>
                  k in rules && exists a ::
                      a in aliases && a !in todo && AliasMatches(aliases[a], service)
                      && References(rules[k], aliases[a].key)
      decreases todo
    {
      var a :| a in todo;
      todo := todo - {a};
      var alias := aliases[a];
      if alias.serviceName == service.name && (PlainRefNamespace() == "" || alias.key.namespace == service.namespace) {
        var more := FindRuleS2SForServiceAlias(alias.key, rules);
        assert forall k :: k in more <==> k in rules && References(rules[k], aliases[a].key);
        requests := requests + more;
      }
    }
  }

  // ---------------------------------------------------------------------------
  // Completeness
  // ---------------------------------------------------------------------------

  /** The rules a pass would want: none when it is inactive, no answer when a lookup fails. */
  datatype Desired = Unknown | Wants(rules: map<Key, RuleSpec>)

  function SpecMap(ws: seq<Write>): map<Key, RuleSpec>
  {
    map k | k in Expected(ws) :: ws[LastWrite(ws, k)].spec
  }

  function DesiredRules(digest: string -> string, o: Objects, r: RuleS2S): Desired
    requires |r.traffic| >= 3
  {
    match PlanFor(o, r)
    case Active(locals, targets, ports) =>
      Wants(SpecMap(Writes(Context(digest, r.traffic, r.key.namespace, r.uid), Jobs(locals, targets, ports))))
    case Inactive => Wants(map[])
    case _ => Unknown
  }

  ghost predicate SameExcept<V>(m: map<Key, V>, m': map<Key, V>, k: Key)
  {
    m - {k} == m' - {k}
  }

  lemma {:induction false} SameElsewhere<V>(m: map<Key, V>, m': map<Key, V>, k: Key, l: Key)
    requires SameExcept(m, m', k) && l != k
    ensures l in m <==> l in m'
    ensures l in m ==> m[l] == m'[l]
  {
    assert l in m <==> l in m - {k};
    assert l in m' <==> l in m' - {k};
    if l in m { assert (m - {k})[l] == m[l] && (m' - {k})[l] == m'[l]; }
  }

  /** If changing, adding or removing one service changes what a rule wants, the service's
      watch requests that rule. */
  lemma {:induction false} ServiceWatchComplete(digest: string -> string, o: Objects, o': Objects, service: Key,
                             rules: map<Key, RuleS2S>, k: Key)
    requires k in rules && |rules[k].traffic| >= 3 && rules[k].key == k && AliasesKeyed(o.aliases)
    requires o.aliases == o'.aliases && SameExcept(o.services, o'.services, service)
    requires DesiredRules(digest, o, rules[k]) != DesiredRules(digest, o', rules[k])
    ensures RequestedForService(o.aliases, rules, service, k)
  {
    var r := rules[k];
    assert r.LocalKey() in o.aliases && r.TargetKey() in o.aliases;
    var local, target := o.aliases[r.LocalKey()].ServiceKey(), o.aliases[r.TargetKey()].ServiceKey();
    if local != service { SameElsewhere(o.services, o'.services, service, local); }
    if target != service { SameElsewhere(o.services, o'.services, service, target); }
    assert local == service || target == service;
    var a := if local == service then r.LocalKey() else r.TargetKey();
    assert AliasMatches(o.aliases[a], service) && References(r, o.aliases[a].key);
  }

  /** The same for one service alias. */
  lemma {:induction false} AliasWatchComplete(digest: string -> string, o: Objects, o': Objects, a: Key,
                                              rules: map<Key, RuleS2S>, k: Key)
    requires k in rules && |rules[k].traffic| >= 3
    requires o.services == o'.services && SameExcept(o.aliases, o'.aliases, a)
    ensures DesiredRules(digest, o, rules[k]) != DesiredRules(digest, o', rules[k]) ==> RequestedForAlias(rules, a, k)
  {
    var r := rules[k];
    if r.LocalKey() != a { SameElsewhere(o.aliases, o'.aliases, a, r.LocalKey()); }
    if r.TargetKey() != a { SameElsewhere(o.aliases, o'.aliases, a, r.TargetKey()); }
  }

  /** The answer of DesiredRules is what a pass leaves: an active pass makes every wanted rule
      hold its wanted spec. */
  lemma {:induction false} DesiredIsSynced(uid: string, s: RuleMap, ws: seq<Write>)
    ensures forall k :: k in SpecMap(ws) ==> k in Sync(uid, s, ws) && Sync(uid, s, ws)[k].spec == SpecMap(ws)[k]
    ensures forall k ::
            k in Sync(uid, s, ws) && OwnedBy(Sync(uid, s, ws)[k], uid)
            ==> k in SpecMap(ws) || Sync(uid, s, ws)[k].deleting
  {
    SyncConverges(uid, s, ws);
  }
}
