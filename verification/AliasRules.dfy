/** RuleS2S objects and the ServiceAliases they name: admission, the alias controller's
    deletion guard, and what they guarantee over every run. */
module AliasRules {
  import opened Model

  const ALIAS_FINALIZER := "servicealias.netguard.sgroups.io/finalizer"

  /** ServiceAlias as stored; the key is in the map. */
  datatype Alias = Alias(serviceName: string, ready: bool, deleting: bool, finalizers: set<string>)

  /** The part of a RuleS2S spec that admission compares, and the object around it. */
  datatype RuleRefs = RuleRefs(traffic: string, localName: string, target: ObjectRef)
  {
    function LocalKey(namespace: string): Key { Key(namespace, localName) }

    function TargetKey(namespace: string): Key { target.Resolve(namespace) }
  }

  datatype StoredRule = StoredRule(refs: RuleRefs, deleting: bool, finalizers: set<string>)

  datatype World = World(services: map<Key, bool>, aliases: map<Key, Alias>, rules: map<Key, StoredRule>)

  // ---------------------------------------------------------------------------
  // Webhooks
  // ---------------------------------------------------------------------------

  predicate RuleNames(k: Key, refs: RuleRefs, alias: Key)
  {
    refs.LocalKey(k.namespace) == alias || refs.TargetKey(k.namespace) == alias
  }

  /** Some stored rule, live or being deleted, names the alias. */
  predicate Referenced(w: World, alias: Key)
  {
    exists k :: k in w.rules && RuleNames(k, w.rules[k].refs, alias)
  }

  /** ValidateDelete of the alias webhook: it collects local and target references. */
  method ValidateAliasDelete(w: World, alias: Key) returns (ok: bool)
    ensures ok <==> !Referenced(w, alias)
  {
    var localServiceRefs: set<string>, targetServiceRefs: set<string> := {}, {};
    var todo := w.rules.Keys;
    while todo != {}
      invariant todo <= w.rules.Keys
      invariant localServiceRefs == {} && targetServiceRefs == {} <==>
                forall k :: k in w.rules && k !in todo ==> !RuleNames(k, w.rules[k].refs, alias)
      decreases todo
    {
      var k :| k in todo;
      todo := todo - {k};
      var refs := w.rules[k].refs;
      if refs.localName == alias.name && k.namespace == alias.namespace {
        localServiceRefs := localServiceRefs + {k.name};
      }
      if refs.target.name == alias.name && ResolveNamespace(refs.target.namespace, k.namespace) == alias.namespace {
        targetServiceRefs := targetServiceRefs + {k.name};
      }
    }
    return |localServiceRefs| == 0 && |targetServiceRefs| == 0;
  }

  /** The tuple no two live rules may share: the target namespace as written, and not the
      rule's own namespace. */
  predicate SameRule(a: RuleRefs, b: RuleRefs)
  {
    && a.traffic == b.traffic && a.localName == b.localName
    && a.target.name == b.target.name && a.target.namespace == b.target.namespace
  }

  predicate DuplicateOf(w: World, refs: RuleRefs, other: Key)
  {
    other in w.rules && !w.rules[other].deleting && SameRule(w.rules[other].refs, refs)
  }

  predicate ReadyAlias(w: World, alias: Key)
  {
    alias in w.aliases && w.aliases[alias].ready
  }

  predicate RuleCreateAdmitted(w: World, k: Key, refs: RuleRefs)
  {
    && (forall other :: other in w.rules ==> !DuplicateOf(w, refs, other))
    && ReadyAlias(w, refs.LocalKey(k.namespace)) && ReadyAlias(w, refs.TargetKey(k.namespace))
  }

  /** Only duplicates are checked: readiness of a RuleS2S is never consulted, and neither
      are the aliases of the new spec. */
  predicate RuleUpdateAdmitted(w: World, k: Key, before: StoredRule, after: StoredRule)
  {
    || after.deleting
    || SameRule(before.refs, after.refs)
    || forall other :: other in w.rules && other != k ==> !DuplicateOf(w, after.refs, other)
  }

  predicate AliasCreateAdmitted(w: World, k: Key, serviceName: string)
  {
    Key(k.namespace, serviceName) in w.services && w.services[Key(k.namespace, serviceName)]
  }

  predicate AliasUpdateAdmitted(before: Alias, serviceName: string)
  {
    before.deleting || serviceName == before.serviceName || !before.ready
  }

  // ---------------------------------------------------------------------------
  // The alias controller
  // ---------------------------------------------------------------------------

  /** An update of an alias as the API server takes it. */
  function AliasWritten(m: map<Key, Alias>, k: Key, after: Alias): map<Key, Alias>
    requires k in m
  {
    if after.deleting && !(after.finalizers <= m[k].finalizers) then m
    else if after.deleting && after.finalizers == {} then m - {k}
    else m[k := after]
  }

  /** One reconcile of an alias. */
  function AliasPass(w: World, k: Key): World
  {
    if k !in w.aliases then w
    else
      var alias := w.aliases[k];
      var held := alias.(finalizers := alias.finalizers + {ALIAS_FINALIZER});
      if alias.deleting then
        if ALIAS_FINALIZER !in alias.finalizers || Referenced(w, k) then w
        else w.(aliases := AliasWritten(w.aliases, k, alias.(finalizers := alias.finalizers - {ALIAS_FINALIZER})))
      else w.(aliases := w.aliases[k := held.(ready := Key(k.namespace, alias.serviceName) in w.services)])
  }

  /** The store of aliases, with the controller's two writes. */
  class AliasStore {
    var services: map<Key, bool>
    var aliases: map<Key, Alias>
    var rules: map<Key, StoredRule>

    function View(): World
      reads this
    {
      World(services, aliases, rules)
    }

    method UpdateAlias(k: Key, after: Alias) returns (ok: bool)
      requires k in aliases
      modifies this`aliases
      ensures aliases == AliasWritten(old(aliases), k, after)
      ensures ok <==> !(after.deleting && !(after.finalizers <= old(aliases)[k].finalizers))
    {
      ok := !(after.deleting && !(after.finalizers <= aliases[k].finalizers));
      if ok {
        aliases := if after.deleting && after.finalizers == {} then aliases - {k} else aliases[k := after];
      }
    }

    /** reconcileDelete: the finalizer stays while any rule names the alias. */
    method ReconcileAliasDelete(k: Key)
      requires k in aliases && aliases[k].deleting
      modifies this`aliases
      ensures View() == AliasPass(old(View()), k)
    {
      if ALIAS_FINALIZER !in aliases[k].finalizers { return; }
      var todo := rules.Keys;
      while todo != {}
        invariant todo <= rules.Keys
        invariant forall r :: r in rules && r !in todo ==> !RuleNames(r, rules[r].refs, k)
        decreases todo
      {
        var r :| r in todo;
        todo := todo - {r};
        var refs := rules[r].refs;
        if refs.localName == k.name && r.namespace == k.namespace {
          assert RuleNames(r, rules[r].refs, k);
          return;
        }
        if refs.target.name == k.name && ResolveNamespace(refs.target.namespace, r.namespace) == k.namespace {
          assert RuleNames(r, rules[r].refs, k);
          return;
        }
      }
      assert !Referenced(View(), k);
      var _ := UpdateAlias(k, aliases[k].(finalizers := aliases[k].finalizers - {ALIAS_FINALIZER}));
    }

    /** Reconcile: adding a finalizer to an alias already being deleted is refused. */
    method ReconcileAlias(k: Key)
      modifies this`aliases
      ensures View() == AliasPass(old(View()), k)
    {
      if k !in aliases { return; }
      if ALIAS_FINALIZER !in aliases[k].finalizers {
        var added := UpdateAlias(k, aliases[k].(finalizers := aliases[k].finalizers + {ALIAS_FINALIZER}));
        if !added { return; }
      }
      assert aliases[k].finalizers == old(aliases)[k].finalizers + {ALIAS_FINALIZER};
      if aliases[k].deleting {
        ReconcileAliasDelete(k);
        return;
      }
      aliases := aliases[k := aliases[k].(ready := Key(k.namespace, aliases[k].serviceName) in services)];
    }
  }

  // ---------------------------------------------------------------------------
  // Runs
  // ---------------------------------------------------------------------------

  /** One atomic step of anyone. consulted says whether the webhook of the kind is asked:
      both are registered for resources the API does not have, so they may never be. */
  datatype Event =
    | CreateAlias(key: Key, serviceName: string, finalizers: set<string>, consulted: bool)
    | DeleteAlias(key: Key, consulted: bool)
    | EditAlias(key: Key, serviceName: string, finalizers: set<string>, consulted: bool)
    | ReconcileAlias(key: Key)
    | CreateRule(key: Key, refs: RuleRefs, finalizers: set<string>, consulted: bool)
    | UpdateRule(key: Key, refs: RuleRefs, finalizers: set<string>, consulted: bool)
    | DeleteRule(key: Key)
    | ServicesChange(services: map<Key, bool>)

  function Next(w: World, e: Event): World
  {
    match e
    case CreateAlias(k, service, fs, consulted) =>
      if k !in w.aliases && (consulted ==> AliasCreateAdmitted(w, k, service))
      then w.(aliases := w.aliases[k := Alias(service, false, false, fs)]) else w
    case DeleteAlias(k, consulted) =>
      if k !in w.aliases || (consulted && Referenced(w, k)) then w
      else if w.aliases[k].finalizers == {} then w.(aliases := w.aliases - {k})
      else w.(aliases := w.aliases[k := w.aliases[k].(deleting := true)])
    case EditAlias(k, service, fs, consulted) =>
      if k in w.aliases && (consulted ==> AliasUpdateAdmitted(w.aliases[k], service))
      then w.(aliases := AliasWritten(w.aliases, k, w.aliases[k].(serviceName := service, finalizers := fs))) else w
    case ReconcileAlias(k) => AliasPass(w, k)
    case CreateRule(k, refs, fs, consulted) =>
      if k !in w.rules && (consulted ==> RuleCreateAdmitted(w, k, refs))
      then w.(rules := w.rules[k := StoredRule(refs, false, fs)]) else w
    case UpdateRule(k, refs, fs, consulted) =>
      if k in w.rules && (consulted ==> RuleUpdateAdmitted(w, k, w.rules[k], Edited(w.rules[k], refs, fs)))
      then w.(rules := RuleWritten(w.rules, k, Edited(w.rules[k], refs, fs))) else w
    case DeleteRule(k) =>
      if k !in w.rules then w
      else if w.rules[k].finalizers == {} then w.(rules := w.rules - {k})
      else w.(rules := w.rules[k := w.rules[k].(deleting := true)])
    case ServicesChange(services) => w.(services := services)
  }

  function Edited(rule: StoredRule, refs: RuleRefs, fs: set<string>): StoredRule
  {
    rule.(refs := refs, finalizers := fs)
  }

  function RuleWritten(m: map<Key, StoredRule>, k: Key, after: StoredRule): map<Key, StoredRule>
    requires k in m
  {
    if after.deleting && !(after.finalizers <= m[k].finalizers) then m
    else if after.deleting && after.finalizers == {} then m - {k}
    else m[k := after]
  }

  function After(w: World, es: seq<Event>): World
    decreases es
  {
    if es == [] then w else After(Next(w, es[0]), es[1..])
  }

  // ---------------------------------------------------------------------------
  // Uniqueness of live rules
  // ---------------------------------------------------------------------------

  predicate UniqueRules(w: World)
  {
    forall a, b :: a in w.rules && b in w.rules && a != b && !w.rules[a].deleting && !w.rules[b].deleting
                   ==> !SameRule(w.rules[a].refs, w.rules[b].refs)
  }

  /** The step consults the rule webhook, or would have passed its duplicate scan. */
  predicate DuplicateFree(w: World, e: Event)
  {
    match e
    case CreateRule(k, refs, _, consulted) =>
      consulted || k in w.rules || forall other :: other in w.rules ==> !DuplicateOf(w, refs, other)
    case UpdateRule(k, refs, fs, consulted) =>
      consulted || k !in w.rules || RuleUpdateAdmitted(w, k, w.rules[k], Edited(w.rules[k], refs, fs))
    case _ => true
  }

  lemma {:induction false} CreateUniqueExactly(w: World, k: Key, refs: RuleRefs, fs: set<string>, consulted: bool)
    requires UniqueRules(w)
    ensures UniqueRules(Next(w, CreateRule(k, refs, fs, consulted))) <==>
            DuplicateFree(w, CreateRule(k, refs, fs, consulted))
  {
    var w' := Next(w, CreateRule(k, refs, fs, consulted));
    if k !in w.rules && (consulted ==> RuleCreateAdmitted(w, k, refs)) {
      assert w'.rules == w.rules[k := StoredRule(refs, false, fs)];
      OneLiveRule(w, w', k, refs);
    }
  }

  /** Storing one live rule keeps the others' distinctness; its own is the duplicate scan. */
  lemma {:induction false} OneLiveRule(w: World, w': World, k: Key, refs: RuleRefs)
    requires UniqueRules(w) && k in w'.rules && !w'.rules[k].deleting && w'.rules[k].refs == refs
    requires w'.rules == w.rules[k := w'.rules[k]]
    ensures UniqueRules(w') <==> forall other :: other in w.rules && other != k ==> !DuplicateOf(w, refs, other)
  {
    if forall other :: other in w.rules && other != k ==> !DuplicateOf(w, refs, other) {
      forall a | a in w.rules && a != k && !w.rules[a].deleting ensures !SameRule(w.rules[a].refs, refs) {
        assert !DuplicateOf(w, refs, a);
      }
    } else {
      var other :| other in w.rules && other != k && DuplicateOf(w, refs, other);
      assert other in w'.rules && SameRule(w'.rules[other].refs, w'.rules[k].refs);
    }
  }

  lemma {:induction false} UpdateUniqueExactly(w: World, k: Key, refs: RuleRefs, fs: set<string>, consulted: bool)
    requires UniqueRules(w)
    ensures UniqueRules(Next(w, UpdateRule(k, refs, fs, consulted))) <==>
            DuplicateFree(w, UpdateRule(k, refs, fs, consulted))
  {
    var w' := Next(w, UpdateRule(k, refs, fs, consulted));
    if k in w.rules && !w.rules[k].deleting
       && (consulted ==> RuleUpdateAdmitted(w, k, w.rules[k], Edited(w.rules[k], refs, fs))) {
      assert w'.rules == w.rules[k := Edited(w.rules[k], refs, fs)];
      OneLiveRule(w, w', k, refs);
      if SameRule(w.rules[k].refs, refs) {
        forall other | other in w.rules && other != k ensures !DuplicateOf(w, refs, other) {
          assert !w.rules[other].deleting ==> !SameRule(w.rules[other].refs, w.rules[k].refs);
        }
      }
    }
  }

  /** A step keeps live rules distinct exactly when the webhook's duplicate scan was made or
      would have passed. */
  lemma {:induction false} NextUniqueExactly(w: World, e: Event)
    requires UniqueRules(w)
    ensures UniqueRules(Next(w, e)) <==> DuplicateFree(w, e)
  {
    if e.CreateRule? {
      CreateUniqueExactly(w, e.key, e.refs, e.finalizers, e.consulted);
    } else if e.UpdateRule? {
      UpdateUniqueExactly(w, e.key, e.refs, e.finalizers, e.consulted);
    }
  }

  predicate UniqueThroughout(w: World, es: seq<Event>)
    decreases es
  {
    UniqueRules(w) && (es != [] ==> UniqueThroughout(Next(w, es[0]), es[1..]))
  }

  predicate DuplicateFreeRun(w: World, es: seq<Event>)
    decreases es
  {
    es != [] ==> DuplicateFree(w, es[0]) && DuplicateFreeRun(Next(w, es[0]), es[1..])
  }

  /** Over every run, spec edits included, no two live rules ever share traffic, local name,
      target name and target namespace exactly when no step slips past the scan. */
  lemma {:induction false} RulesUniqueExactly(w: World, es: seq<Event>)
    requires UniqueRules(w)
    ensures UniqueThroughout(w, es) <==> DuplicateFreeRun(w, es)
    decreases es
  {
    if es != [] {
      NextUniqueExactly(w, es[0]);
      if DuplicateFree(w, es[0]) { RulesUniqueExactly(Next(w, es[0]), es[1..]); }
    }
  }

  /** In particular while the rule webhook is consulted on every write. */
  lemma {:induction false} RulesStayUnique(w: World, es: seq<Event>)
    requires UniqueRules(w)
    requires forall e :: e in es && (e.CreateRule? || e.UpdateRule?) ==> e.consulted
    ensures UniqueThroughout(w, es) && UniqueRules(After(w, es))
    decreases es
  {
    if es != [] {
      assert es[0] in es;
      NextUniqueExactly(w, es[0]);
      RulesStayUnique(Next(w, es[0]), es[1..]);
    }
  }

  // ---------------------------------------------------------------------------
  // When an alias outlives the rules that name it
  // ---------------------------------------------------------------------------

  /** Every stored rule's local and target alias are in the store. */
  predicate Integrity(w: World)
  {
    forall k :: k in w.rules ==> NamesStored(w, k, w.rules[k].refs)
  }

  predicate NamesStored(w: World, k: Key, refs: RuleRefs)
  {
    refs.LocalKey(k.namespace) in w.aliases && refs.TargetKey(k.namespace) in w.aliases
  }

  /** The controller's finalizer is on the alias, or the alias is live and every deletion of
      an alias is checked by the webhook. */
  predicate Safe(w: World, alias: Key, checked: bool)
  {
    && alias in w.aliases
    && (ALIAS_FINALIZER in w.aliases[alias].finalizers || (checked && !w.aliases[alias].deleting))
  }

  /** Anyone may add and remove foreign finalizers; the controller's own is left to it. If
      checked, deletions consult the webhook. */
  predicate LeavesGuard(w: World, e: Event, checked: bool)
  {
    match e
    case EditAlias(k, _, fs, _) =>
      k in w.aliases ==> (ALIAS_FINALIZER in fs <==> ALIAS_FINALIZER in w.aliases[k].finalizers)
    case DeleteAlias(_, consulted) => checked ==> consulted
    case _ => true
  }

  /** The rule is in the store, with the same references, at every point of the run. */
  predicate RuleKept(w: World, es: seq<Event>, r: Key, refs: RuleRefs, checked: bool)
    decreases es
  {
    && r in w.rules && w.rules[r].refs == refs
    && (es != [] ==> LeavesGuard(w, es[0], checked) && RuleKept(Next(w, es[0]), es[1..], r, refs, checked))
  }

  ghost predicate NeverLost(w: World, r: Key, alias: Key, checked: bool)
    requires r in w.rules
  {
    forall es :: RuleKept(w, es, r, w.rules[r].refs, checked) ==> alias in After(w, es).aliases
  }

  lemma {:induction false} StepKeepsSafe(w: World, e: Event, alias: Key, checked: bool)
    requires Referenced(w, alias) && Safe(w, alias, checked) && LeavesGuard(w, e, checked)
    ensures Safe(Next(w, e), alias, checked)
  {
  }

  lemma {:induction false} RunKeepsSafe(w: World, es: seq<Event>, r: Key, refs: RuleRefs, alias: Key, checked: bool)
    requires RuleKept(w, es, r, refs, checked) && RuleNames(r, refs, alias) && Safe(w, alias, checked)
    ensures Safe(After(w, es), alias, checked)
    decreases es
  {
    if es != [] {
      assert Referenced(w, alias);
      StepKeepsSafe(w, es[0], alias, checked);
      RunKeepsSafe(Next(w, es[0]), es[1..], r, refs, alias, checked);
    }
  }

  /** An alias that is not safe can go without any rule changing. */
  lemma {:induction false} LoseAlias(w: World, alias: Key, checked: bool) returns (es: seq<Event>)
    requires alias in w.aliases && !Safe(w, alias, checked)
    ensures alias !in After(w, es).aliases && After(w, es).rules == w.rules
    ensures |es| <= 2 && forall e :: e in es ==> e.DeleteAlias? || e.EditAlias?
    ensures forall r :: r in w.rules ==> RuleKept(w, es, r, w.rules[r].refs, checked)
  {
    var stored := w.aliases[alias];
    var delete, release := DeleteAlias(alias, checked), EditAlias(alias, stored.serviceName, {}, true);
    var first := if stored.deleting then release else delete;
    es := if stored.deleting || stored.finalizers == {} then [first] else [first, release];
    AfterTwo(w, first, release);
    forall r | r in w.rules ensures RuleKept(w, es, r, w.rules[r].refs, checked) {
      KeptTwo(w, first, release, r, w.rules[r].refs, checked);
    }
  }

  lemma {:induction false} AfterTwo(w: World, a: Event, b: Event)
    ensures After(w, [a]) == Next(w, a) && After(w, [a, b]) == Next(Next(w, a), b)
  {
    assert [a, b][1..] == [b];
    assert After(w, [a]) == After(Next(w, a), []);
    assert After(Next(w, a), [b]) == After(Next(Next(w, a), b), []);
  }

  lemma {:induction false} KeptTwo(w: World, a: Event, b: Event, r: Key, refs: RuleRefs, checked: bool)
    requires r in w.rules && w.rules[r].refs == refs && LeavesGuard(w, a, checked) && Next(w, a).rules == w.rules
    ensures RuleKept(w, [a], r, refs, checked)
    ensures LeavesGuard(Next(w, a), b, checked) && Next(Next(w, a), b).rules == w.rules
            ==> RuleKept(w, [a, b], r, refs, checked)
  {
    assert [a, b][1..] == [b] && [b][1..] == [] && [a][1..] == [];
    assert RuleKept(Next(w, a), [], r, refs, checked);
    if LeavesGuard(Next(w, a), b, checked) && Next(Next(w, a), b).rules == w.rules {
      assert RuleKept(Next(Next(w, a), b), [], r, refs, checked);
      assert RuleKept(Next(w, a), [b], r, refs, checked);
    }
  }

  /** A rule never loses an alias it names, over any run that keeps the rule, exactly when
      the alias is safe now: without checked deletions, exactly when the controller's
      finalizer is on it. */
  lemma {:induction false} NeverLostExactly(w: World, r: Key, alias: Key, checked: bool)
    requires r in w.rules && RuleNames(r, w.rules[r].refs, alias)
    ensures NeverLost(w, r, alias, checked) <==> Safe(w, alias, checked)
  {
    var refs := w.rules[r].refs;
    if Safe(w, alias, checked) {
      forall es | RuleKept(w, es, r, refs, checked) ensures alias in After(w, es).aliases {
        RunKeepsSafe(w, es, r, refs, alias, checked);
      }
    } else if alias in w.aliases {
      var es := LoseAlias(w, alias, checked);
      assert RuleKept(w, es, r, refs, checked);
    } else {
      assert RuleKept(w, [], r, refs, checked);
      assert After(w, []) == w;
    }
  }

  // ---------------------------------------------------------------------------
  // Referential integrity of the whole store
  // ---------------------------------------------------------------------------

  predicate NamesSafe(w: World, k: Key, refs: RuleRefs, checked: bool)
  {
    Safe(w, refs.LocalKey(k.namespace), checked) && Safe(w, refs.TargetKey(k.namespace), checked)
  }

  predicate AllSafe(w: World, checked: bool)
  {
    forall r :: r in w.rules ==> NamesSafe(w, r, w.rules[r].refs, checked)
  }

  /** A step that leaves the guard alone and stores no rule that names an unsafe alias. */
  predicate SafeStep(w: World, e: Event, checked: bool)
  {
    && LeavesGuard(w, e, checked)
    && (e.CreateRule? || e.UpdateRule? ==> Next(w, e).rules == w.rules || NamesSafe(w, e.key, e.refs, checked))
  }

  predicate SafeRun(w: World, es: seq<Event>, checked: bool)
    decreases es
  {
    es != [] ==> SafeStep(w, es[0], checked) && SafeRun(Next(w, es[0]), es[1..], checked)
  }

  ghost predicate IntegrityForever(w: World, checked: bool)
  {
    forall es :: SafeRun(w, es, checked) ==> Integrity(After(w, es))
  }

  lemma {:induction false} SafeStepKeepsNames(w: World, e: Event, r: Key, checked: bool)
    requires AllSafe(w, checked) && SafeStep(w, e, checked) && r in Next(w, e).rules
    ensures NamesSafe(Next(w, e), r, Next(w, e).rules[r].refs, checked)
  {
    if r in w.rules && Next(w, e).rules[r].refs == w.rules[r].refs {
      var refs := w.rules[r].refs;
      assert NamesSafe(w, r, refs, checked);
      assert RuleNames(r, refs, refs.LocalKey(r.namespace)) && RuleNames(r, refs, refs.TargetKey(r.namespace));
      StepKeepsSafe(w, e, refs.LocalKey(r.namespace), checked);
      StepKeepsSafe(w, e, refs.TargetKey(r.namespace), checked);
    }
  }

  lemma {:induction false} SafeRunKeepsAllSafe(w: World, es: seq<Event>, checked: bool)
    requires AllSafe(w, checked) && SafeRun(w, es, checked)
    ensures AllSafe(After(w, es), checked)
    decreases es
  {
    if es != [] {
      forall r | r in Next(w, es[0]).rules ensures NamesSafe(Next(w, es[0]), r, Next(w, es[0]).rules[r].refs, checked) {
        SafeStepKeepsNames(w, es[0], r, checked);
      }
      SafeRunKeepsAllSafe(Next(w, es[0]), es[1..], checked);
    }
  }

  lemma {:induction false} AllSafeIsIntegrity(w: World, checked: bool)
    requires AllSafe(w, checked)
    ensures Integrity(w)
  {
    forall k | k in w.rules ensures NamesStored(w, k, w.rules[k].refs) {
      assert NamesSafe(w, k, w.rules[k].refs, checked);
    }
  }

  lemma {:induction false} KeptRunIsSafe(w: World, es: seq<Event>, r: Key, refs: RuleRefs, checked: bool)
    requires RuleKept(w, es, r, refs, checked) && forall e :: e in es ==> e.DeleteAlias? || e.EditAlias?
    ensures SafeRun(w, es, checked)
    decreases es
  {
    if es != [] {
      assert es[0] in es;
      KeptRunIsSafe(Next(w, es[0]), es[1..], r, refs, checked);
    }
  }

  lemma {:induction false} UnsafeNameBreaks(w: World, r: Key, alias: Key, checked: bool)
    requires r in w.rules && RuleNames(r, w.rules[r].refs, alias) && !Safe(w, alias, checked)
    ensures !IntegrityForever(w, checked)
  {
    if alias in w.aliases {
      var es := LoseAlias(w, alias, checked);
      KeptRunIsSafe(w, es, r, w.rules[r].refs, checked);
      assert !Integrity(After(w, es));
    } else {
      assert SafeRun(w, [], checked) && After(w, []) == w && !Integrity(w);
    }
  }

  /** No rule ever names an alias that is gone, over every run whose rule writes name safe
      aliases, exactly when every alias a stored rule names is safe at the start. */
  lemma {:induction false} IntegrityExactly(w: World, checked: bool)
    ensures IntegrityForever(w, checked) <==> AllSafe(w, checked)
  {
    if AllSafe(w, checked) {
      forall es | SafeRun(w, es, checked) ensures Integrity(After(w, es)) {
        SafeRunKeepsAllSafe(w, es, checked);
        AllSafeIsIntegrity(After(w, es), checked);
      }
    } else {
      var r :| r in w.rules && !NamesSafe(w, r, w.rules[r].refs, checked);
      var refs := w.rules[r].refs;
      var alias := if Safe(w, refs.LocalKey(r.namespace), checked) then refs.TargetKey(r.namespace)
          else refs.LocalKey(r.namespace);
      UnsafeNameBreaks(w, r, alias, checked);
    }
  }

  /** So a rule write that is taken leaves integrity secured exactly when both aliases it
      names are safe, whatever admission asks. */
  lemma {:induction false} WriteSafeExactly(w: World, e: Event, checked: bool)
    requires AllSafe(w, checked) && (e.CreateRule? || e.UpdateRule?)
    requires e.key in Next(w, e).rules && Next(w, e).rules[e.key].refs == e.refs
    ensures IntegrityForever(Next(w, e), checked) <==> NamesSafe(w, e.key, e.refs, checked)
  {
    var w' := Next(w, e);
    IntegrityExactly(w', checked);
    assert w'.aliases == w.aliases;
    if NamesSafe(w, e.key, e.refs, checked) {
      forall r | r in w'.rules ensures NamesSafe(w', r, w'.rules[r].refs, checked) {
        SafeStepKeepsNames(w, e, r, checked);
      }
    } else {
      assert !NamesSafe(w', e.key, e.refs, checked);
    }
  }

  // ---------------------------------------------------------------------------
  // What creating a rule does not check
  // ---------------------------------------------------------------------------

  /** A ready alias has its controller's finalizer unless it is being deleted. */
  predicate ReadyHeld(w: World)
  {
    forall a :: a in w.aliases && w.aliases[a].ready
        ==> ALIAS_FINALIZER in w.aliases[a].finalizers || w.aliases[a].deleting
  }

  lemma {:induction false} NextKeepsReadyHeld(w: World, e: Event, checked: bool)
    requires ReadyHeld(w) && LeavesGuard(w, e, checked)
    ensures ReadyHeld(Next(w, e))
  {
    var w' := Next(w, e);
    forall a | a in w'.aliases && w'.aliases[a].ready
      ensures ALIAS_FINALIZER in w'.aliases[a].finalizers || w'.aliases[a].deleting
    {
      assert a in w.aliases;
    }
  }

  /** The controller has let the alias go, and only foreign finalizers still hold it. */
  predicate Released(w: World, alias: Key)
  {
    alias in w.aliases && w.aliases[alias].deleting && ALIAS_FINALIZER !in w.aliases[alias].finalizers
  }

  /** Readiness is all that creating a rule asks of its aliases. That secures integrity
      exactly when neither has been released by its controller, which admission does not
      ask: a released alias is still ready. */
  lemma {:induction false} AdmittedRuleSafeExactly(w: World, k: Key, refs: RuleRefs, fs: set<string>, checked: bool)
    requires AllSafe(w, checked) && ReadyHeld(w) && k !in w.rules && RuleCreateAdmitted(w, k, refs)
    ensures IntegrityForever(Next(w, CreateRule(k, refs, fs, true)), checked) <==>
            !Released(w, refs.LocalKey(k.namespace)) && !Released(w, refs.TargetKey(k.namespace))
  {
    WriteSafeExactly(w, CreateRule(k, refs, fs, true), checked);
  }

  /** Rules are created past their webhook, and an edited rule keeps its aliases. */
  predicate Orderly(w: World, e: Event, checked: bool)
  {
    && LeavesGuard(w, e, checked)
    && match e
       case CreateRule(_, _, _, consulted) => consulted
       case UpdateRule(k, refs, _, _) =>
         k in w.rules ==> refs.localName == w.rules[k].refs.localName
                          && refs.TargetKey(k.namespace) == w.rules[k].refs.TargetKey(k.namespace)
       case _ => true
  }

  /** An orderly step that creates no rule on a released alias. */
  predicate Disciplined(w: World, e: Event, checked: bool)
  {
    && Orderly(w, e, checked)
    && (e.CreateRule? ==>
          !Released(w, e.refs.LocalKey(e.key.namespace)) && !Released(w, e.refs.TargetKey(e.key.namespace)))
  }

  predicate DisciplinedRun(w: World, es: seq<Event>, checked: bool)
    decreases es
  {
    es != [] ==> Disciplined(w, es[0], checked) && DisciplinedRun(Next(w, es[0]), es[1..], checked)
  }

  lemma {:induction false} DisciplinedIsSafe(w: World, e: Event, checked: bool)
    requires AllSafe(w, checked) && ReadyHeld(w) && Disciplined(w, e, checked)
    ensures SafeStep(w, e, checked)
  {
    if e.UpdateRule? && e.key in w.rules { assert NamesSafe(w, e.key, w.rules[e.key].refs, checked); }
  }

  lemma {:induction false} DisciplinedRunIsSafe(w: World, es: seq<Event>, checked: bool)
    requires AllSafe(w, checked) && ReadyHeld(w) && DisciplinedRun(w, es, checked)
    ensures SafeRun(w, es, checked)
    decreases es
  {
    if es != [] {
      DisciplinedIsSafe(w, es[0], checked);
      NextKeepsReadyHeld(w, es[0], checked);
      forall r | r in Next(w, es[0]).rules ensures NamesSafe(Next(w, es[0]), r, Next(w, es[0]).rules[r].refs, checked) {
        SafeStepKeepsNames(w, es[0], r, checked);
      }
      DisciplinedRunIsSafe(Next(w, es[0]), es[1..], checked);
    }
  }

  /** Over every disciplined run, foreign finalizers included and whether or not alias
      deletions are checked, no stored rule ever names an alias that is gone. */
  lemma {:induction false} AliasIntegrity(w: World, es: seq<Event>, checked: bool)
    requires AllSafe(w, checked) && ReadyHeld(w) && DisciplinedRun(w, es, checked)
    ensures Integrity(After(w, es))
  {
    DisciplinedRunIsSafe(w, es, checked);
    IntegrityExactly(w, checked);
  }

  // ---------------------------------------------------------------------------
  // Without foreign finalizers nothing is released
  // ---------------------------------------------------------------------------

  /** Aliases carry no finalizer but their controller's; a deleted one still has it. */
  predicate OwnFinalizers(w: World)
  {
    forall a :: a in w.aliases ==>
      w.aliases[a].finalizers <= {ALIAS_FINALIZER}
          && (w.aliases[a].deleting ==> ALIAS_FINALIZER in w.aliases[a].finalizers)
  }

  predicate NoForeign(e: Event)
  {
    e.CreateAlias? || e.EditAlias? ==> e.finalizers <= {ALIAS_FINALIZER}
  }

  lemma {:induction false} OwnFinalizersKept(w: World, e: Event, checked: bool)
    requires OwnFinalizers(w) && NoForeign(e) && LeavesGuard(w, e, checked)
    ensures OwnFinalizers(Next(w, e))
  {
    if e.ReconcileAlias? && e.key in w.aliases {
      assert w.aliases[e.key].finalizers - {ALIAS_FINALIZER} == {};
    } else if e.DeleteAlias? && e.key in w.aliases {
      assert w.aliases[e.key].finalizers == {} || ALIAS_FINALIZER in w.aliases[e.key].finalizers;
    }
  }

  predicate OrderlyOwnRun(w: World, es: seq<Event>, checked: bool)
    decreases es
  {
    es != [] ==> Orderly(w, es[0], checked) && NoForeign(es[0]) && OrderlyOwnRun(Next(w, es[0]), es[1..], checked)
  }

  /** So an orderly run without foreign finalizers keeps integrity, whether or not alias
      deletions are checked: the controller's finalizer does it. */
  lemma {:induction false} OwnFinalizersSuffice(w: World, es: seq<Event>, checked: bool)
    requires AllSafe(w, checked) && ReadyHeld(w) && OwnFinalizers(w) && OrderlyOwnRun(w, es, checked)
    ensures Integrity(After(w, es))
  {
    OwnRunIsDisciplined(w, es, checked);
    AliasIntegrity(w, es, checked);
  }

  lemma {:induction false} OwnRunIsDisciplined(w: World, es: seq<Event>, checked: bool)
    requires OwnFinalizers(w) && OrderlyOwnRun(w, es, checked)
    ensures DisciplinedRun(w, es, checked)
    decreases es
  {
    if es != [] {
      OwnFinalizersKept(w, es[0], checked);
      OwnRunIsDisciplined(Next(w, es[0]), es[1..], checked);
    }
  }

  /** Remark: an admitted edit of a live rule keeps integrity for the moment exactly when the
      aliases it names are in the store; the webhook does not look. */
  lemma {:induction false} EditKeepsIntegrityExactly(w: World, k: Key, refs: RuleRefs, fs: set<string>)
    requires Integrity(w) && k in w.rules && !w.rules[k].deleting
    requires RuleUpdateAdmitted(w, k, w.rules[k], Edited(w.rules[k], refs, fs))
    ensures Integrity(Next(w, UpdateRule(k, refs, fs, true))) <==> NamesStored(w, k, refs)
  {
    var w' := Next(w, UpdateRule(k, refs, fs, true));
    assert w'.rules == w.rules[k := Edited(w.rules[k], refs, fs)] && w'.aliases == w.aliases;
    forall r | r in w.rules && r != k ensures NamesStored(w', r, w'.rules[r].refs) {
      assert NamesStored(w, r, w.rules[r].refs);
    }
    assert NamesStored(w', k, w'.rules[k].refs) <==> NamesStored(w, k, refs);
  }

  /** Any live rule can be edited, ready or not, to name an alias that does not exist. */
  lemma {:induction false} SpecEditBreaksIntegrity(w: World, k: Key, localName: string)
    requires Integrity(w) && k in w.rules && !w.rules[k].deleting && Key(k.namespace, localName) !in w.aliases
    requires forall other :: other in w.rules ==> w.rules[other].refs.localName != localName
    ensures !Integrity(Next(w, UpdateRule(k, w.rules[k].refs.(localName := localName), w.rules[k].finalizers, true)))
  {
    EditKeepsIntegrityExactly(w, k, w.rules[k].refs.(localName := localName), w.rules[k].finalizers);
  }

  /** A released alias is reached from an empty store with every webhook consulted: with
      another finalizer on it, the alias outlives its controller's guard while still ready.
      A rule is then admitted on it, and the alias goes when the other owner lets go. */
  lemma {:induction false} ForeignFinalizerBreaksIntegrity(k: Key, service: string, f: string, r: Key, traffic: string)
    requires f != ALIAS_FINALIZER && r.namespace == k.namespace
    ensures var w := World(map[Key(k.namespace, service) := true], map[], map[]);
            var refs := RuleRefs(traffic, k.name, ObjectRef("", "", k.name, ""));
            var es := [CreateAlias(k, service, {f}, true), ReconcileAlias(k), DeleteAlias(k, true),
                       ReconcileAlias(k), CreateRule(r, refs, {}, true), EditAlias(k, service, {}, true)];
            Released(After(w, es[..4]), k) && ReadyAlias(After(w, es[..4]), k) && !Integrity(After(w, es))
  {
    var w0 := World(map[Key(k.namespace, service) := true], map[], map[]);
    var refs := RuleRefs(traffic, k.name, ObjectRef("", "", k.name, ""));
    var es := [CreateAlias(k, service, {f}, true), ReconcileAlias(k), DeleteAlias(k, true),
               ReconcileAlias(k), CreateRule(r, refs, {}, true), EditAlias(k, service, {}, true)];
    var w1 := Next(w0, es[0]);
    var w2 := Next(w1, es[1]);
    assert w2.aliases[k] == Alias(service, true, false, {f, ALIAS_FINALIZER});
    var w3 := Next(w2, es[2]);
    var w4 := Next(w3, es[3]);
    assert {f, ALIAS_FINALIZER} - {ALIAS_FINALIZER} == {f};
    assert w4.aliases[k] == Alias(service, true, true, {f});
    AfterSplit(w0, es, 4);
    AfterFour(w0, es[0], es[1], es[2], es[3], es[..4]);
    var w5 := Next(w4, es[4]);
    var w6 := Next(w5, es[5]);
    assert r in w6.rules && w6.rules[r].refs == refs && k !in w6.aliases;
    assert es[4..] == [es[4], es[5]];
    AfterTwo(w4, es[4], es[5]);
  }

  lemma {:induction false} AfterSplit(w: World, es: seq<Event>, i: nat)
    requires i <= |es|
    ensures After(w, es) == After(After(w, es[..i]), es[i..])
    decreases i
  {
    if i > 0 {
      AfterSplit(Next(w, es[0]), es[1..], i - 1);
      assert es[..i][1..] == es[1..][..i - 1] && es[1..][i - 1..] == es[i..];
    } else {
      assert es[..0] == [] && es[0..] == es;
    }
  }

  lemma {:induction false} AfterFour(w: World, a: Event, b: Event, c: Event, d: Event, es: seq<Event>)
    requires es == [a, b, c, d]
    ensures After(w, es) == Next(Next(Next(Next(w, a), b), c), d)
  {
    AfterSplit(w, es, 2);
    assert es[..2] == [a, b] && es[2..] == [c, d];
    AfterTwo(w, a, b);
    AfterTwo(Next(Next(w, a), b), c, d);
  }

  // ---------------------------------------------------------------------------
  // The decisions by their fields
  // ---------------------------------------------------------------------------

  function LocalOf(k: Key, refs: RuleRefs): Key
  {
    Key(k.namespace, refs.localName)
  }

  function TargetOf(k: Key, refs: RuleRefs): Key
  {
    Key(if refs.target.namespace == "" then k.namespace else refs.target.namespace, refs.target.name)
  }

  /** An alias is referenced exactly when some stored rule, live or not, has it as its local
      alias, in the rule's own namespace, or as its target. */
  lemma {:induction false} ReferencedMeans(w: World, alias: Key)
    ensures Referenced(w, alias) <==>
            exists k :: k in w.rules && (LocalOf(k, w.rules[k].refs) == alias || TargetOf(k, w.rules[k].refs) == alias)
  {
    forall k | k in w.rules
      ensures RuleNames(k, w.rules[k].refs, alias)
              <==> LocalOf(k, w.rules[k].refs) == alias || TargetOf(k, w.rules[k].refs) == alias
    {
    }
  }

  /** A live rule with the same traffic, local name, target name and target namespace as
      written; the rules' own namespaces are not compared. */
  ghost predicate LiveTwin(w: World, refs: RuleRefs, other: Key)
  {
    && other in w.rules && !w.rules[other].deleting
    && var r := w.rules[other].refs;
       && r.traffic == refs.traffic && r.localName == refs.localName
       && r.target.name == refs.target.name && r.target.namespace == refs.target.namespace
  }

  /** A consulted creation stores the rule exactly when it has no live twin and both aliases
      exist and are ready. */
  lemma {:induction false} CreateRuleExactly(w: World, k: Key, refs: RuleRefs, fs: set<string>)
    requires k !in w.rules
    ensures Next(w, CreateRule(k, refs, fs, true)) ==
            if && !(exists other :: LiveTwin(w, refs, other))
               && LocalOf(k, refs) in w.aliases && w.aliases[LocalOf(k, refs)].ready
               && TargetOf(k, refs) in w.aliases && w.aliases[TargetOf(k, refs)].ready
            then w.(rules := w.rules[k := StoredRule(refs, false, fs)]) else w
    ensures Next(w, CreateRule(k, refs, fs, false)) == w.(rules := w.rules[k := StoredRule(refs, false, fs)])
  {
    forall other ensures DuplicateOf(w, refs, other) <==> LiveTwin(w, refs, other) {}
  }

  /** A consulted update of a live rule stores it exactly when the compared fields stay, or
      no other live rule has the new ones. */
  lemma {:induction false} UpdateRuleExactly(w: World, k: Key, refs: RuleRefs, fs: set<string>)
    requires k in w.rules && !w.rules[k].deleting
    ensures var r := w.rules[k].refs;
            Next(w, UpdateRule(k, refs, fs, true)) ==
            if || (&& r.traffic == refs.traffic && r.localName == refs.localName
                   && r.target.name == refs.target.name && r.target.namespace == refs.target.namespace)
               || !(exists other :: other != k && LiveTwin(w, refs, other))
            then w.(rules := w.rules[k := StoredRule(refs, false, fs)]) else w
    ensures Next(w, UpdateRule(k, refs, fs, false)) == w.(rules := w.rules[k := StoredRule(refs, false, fs)])
  {
    forall other ensures DuplicateOf(w, refs, other) <==> LiveTwin(w, refs, other) {}
  }

  /** Writes to aliases: a new one needs a ready service of its namespace if consulted; a ready
      one keeps its service if consulted; a referenced one is not deleted if consulted. */
  lemma {:induction false} AliasWritesExactly(w: World, k: Key, service: string, fs: set<string>, consulted: bool)
    ensures k !in w.aliases ==>
              Next(w, CreateAlias(k, service, fs, consulted)) ==
              if consulted && !(Key(k.namespace, service) in w.services && w.services[Key(k.namespace, service)]) then w
              else w.(aliases := w.aliases[k := Alias(service, false, false, fs)])
    ensures k in w.aliases && !w.aliases[k].deleting ==>
              && Next(w, EditAlias(k, service, fs, consulted)) ==
                 (if consulted && w.aliases[k].ready && service != w.aliases[k].serviceName then w
                  else w.(aliases := w.aliases[k := w.aliases[k].(serviceName := service, finalizers := fs)]))
              && Next(w, DeleteAlias(k, consulted)) ==
                 (if consulted && Referenced(w, k) then w
                  else if w.aliases[k].finalizers == {} then w.(aliases := w.aliases - {k})
                  else w.(aliases := w.aliases[k := w.aliases[k].(deleting := true)]))
  {
  }

  /** An alias that is being deleted gains no finalizer and goes with its last one; so does a
      rule, which the webhook then lets through. */
  lemma {:induction false} DeletingWrites(w: World, k: Key, service: string, refs: RuleRefs, fs: set<string>)
    ensures k in w.aliases && w.aliases[k].deleting ==>
              Next(w, EditAlias(k, service, fs, true)) ==
              if !(fs <= w.aliases[k].finalizers) then w
              else if fs == {} then w.(aliases := w.aliases - {k})
              else w.(aliases := w.aliases[k := w.aliases[k].(serviceName := service, finalizers := fs)])
    ensures k in w.rules && w.rules[k].deleting ==>
              Next(w, UpdateRule(k, refs, fs, true)) ==
              if !(fs <= w.rules[k].finalizers) then w
              else if fs == {} then w.(rules := w.rules - {k})
              else w.(rules := w.rules[k := StoredRule(refs, true, fs)])
    ensures k in w.rules ==>
              Next(w, DeleteRule(k)) ==
              if w.rules[k].finalizers == {} then w.(rules := w.rules - {k})
              else w.(rules := w.rules[k := w.rules[k].(deleting := true)])
  {
  }

  /** A pass over an alias. A live one gets the controller's finalizer, and is ready exactly
      when its service is in its namespace. A deleted one loses that finalizer exactly when it
      has it and no rule references the alias, and goes if it was the last. */
  lemma {:induction false} AliasPassExactly(w: World, k: Key)
    requires k in w.aliases
    ensures var a, own := w.aliases[k], "servicealias.netguard.sgroups.io/finalizer";
            Next(w, ReconcileAlias(k)) ==
            if !a.deleting then
              w.(aliases := w.aliases[k :=
                Alias(a.serviceName, Key(k.namespace, a.serviceName) in w.services, false, a.finalizers + {own})])
            else if own !in a.finalizers || Referenced(w, k) then w
            else if a.finalizers == {own} then w.(aliases := w.aliases - {k})
            else w.(aliases := w.aliases[k := a.(finalizers := a.finalizers - {own})])
  {
    var own := "servicealias.netguard.sgroups.io/finalizer";
    assert w.aliases[k].finalizers - {own} == {} <==> w.aliases[k].finalizers <= {own};
  }
}
