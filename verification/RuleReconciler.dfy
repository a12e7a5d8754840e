/** RuleS2SReconciler over an API server that may fail any call and let anyone else write
    between calls. What a pass guarantees however that goes, and what it does when nothing
    goes wrong. */
module RuleReconciler {
  import opened Wrappers
  import opened PortGrammar
  import opened Model
  import opened RuleStore
  import opened Rules
  import RuleMeaning

  const DEFAULT_MAX_RETRIES: nat := 5

  datatype GetReply = Found(rule: Rule) | GetNotFound | GetError
  datatype CreateReply = Created | AlreadyExists | CreateConflict | CreateError
  datatype PatchReply = Patched | PatchConflict | PatchError
  datatype DeleteReply = DeleteAccepted | DeleteNotFound | DeleteError

  datatype DeleteOutcome = AllDeleted | SomeFailed(rules: set<Key>) | ListFailed

  datatype Outcome = FinalizerAdded | FinalizerRemoved | Blocked | Deactivated | Synced | Failed

  /** What an undisturbed pass leaves in the rule store. */
  function PassEffect(c: Context, s: RuleMap, r: RuleS2S, plan: Plan): RuleMap
    requires |c.traffic| >= 3
  {
    if !r.hasFinalizer then s
    else if r.deleting || plan.Inactive? then DropOwned(s, r.uid)
    else if plan.Active? then Sync(r.uid, s, Writes(c, Jobs(plan.locals, plan.targets, plan.ports)))
    else s
  }

  function PassOutcome(r: RuleS2S, plan: Plan): Outcome
  {
    if !r.hasFinalizer then if r.deleting then Failed else FinalizerAdded
    else if r.deleting then FinalizerRemoved
    else if plan.Inactive? then Deactivated
    else if plan.Active? then Synced
    else Blocked
  }

  /** A merge patch sets what differs between the object it starts from and the one wanted. */
  function Pick<T(==)>(stored: T, base: T, wanted: T): T
  {
    if base == wanted then stored else wanted
  }

  function MergedRef(stored: ObjectRef, base: ObjectRef, wanted: ObjectRef): ObjectRef
  {
    ObjectRef(Pick(stored.apiVersion, base.apiVersion, wanted.apiVersion), Pick(stored.kind, base.kind, wanted.kind),
              Pick(stored.name, base.name, wanted.name), Pick(stored.namespace, base.namespace, wanted.namespace))
  }

  function MergedSpec(stored: RuleSpec, base: RuleSpec, wanted: RuleSpec): RuleSpec
  {
    RuleSpec(Pick(stored.transport, base.transport, wanted.transport),
             Pick(stored.traffic, base.traffic, wanted.traffic),
             MergedRef(stored.local, base.local, wanted.local), MergedRef(stored.target, base.target, wanted.target),
             Pick(stored.ports, base.ports, wanted.ports), Pick(stored.action, base.action, wanted.action),
             Pick(stored.logs, base.logs, wanted.logs), Pick(stored.priority, base.priority, wanted.priority))
  }

  function Merged(stored: Rule, base: Rule, wanted: Rule): Rule
  {
    Rule(Pick(stored.owners, base.owners, wanted.owners), Pick(stored.finalizers, base.finalizers, wanted.finalizers),
         stored.deleting, MergedSpec(stored.spec, base.spec, wanted.spec))
  }

  /** What a patch leaves: where base and wanted agree, what is stored; elsewhere, what is
      wanted. Whether the rule is being deleted is out of a patch's reach. */
  lemma {:induction false} MergedExactly(stored: Rule, base: Rule, wanted: Rule)
    ensures var m, s, b, w := Merged(stored, base, wanted), stored.spec, base.spec, wanted.spec;
            && m.deleting == stored.deleting
            && m.owners == (if base.owners == wanted.owners then stored.owners else wanted.owners)
            && m.finalizers == (if base.finalizers == wanted.finalizers then stored.finalizers else wanted.finalizers)
            && m.spec.transport == (if b.transport == w.transport then s.transport else w.transport)
            && m.spec.traffic == (if b.traffic == w.traffic then s.traffic else w.traffic)
            && m.spec.ports == (if b.ports == w.ports then s.ports else w.ports)
            && m.spec.action == (if b.action == w.action then s.action else w.action)
            && m.spec.logs == (if b.logs == w.logs then s.logs else w.logs)
            && m.spec.priority == (if b.priority == w.priority then s.priority else w.priority)
            && (b.local == w.local ==> m.spec.local == s.local) && (b.target == w.target ==> m.spec.target == s.target)
            && (s.local == b.local ==> m.spec.local == w.local) && (s.target == b.target ==> m.spec.target == w.target)
  {
  }

  class RuleServer {
    const digest: string -> string
    var rules: RuleMap

    /** Some call of this pass failed, or another client wrote a rule meanwhile. */
    ghost var disturbed: bool
    /** Keys this pass created or patched; keys it called Delete for; keys whose Delete it had
        accepted; keys whose Delete was accepted or answered not found; its last listing. */
    ghost var written: set<Key>
    ghost var asked: set<Key>
    ghost var deleted: set<Key>
    ghost var gone: set<Key>
    ghost var listed: RuleMap
    /** The rules read so far, and the patches sent: each from a base to a wanted rule. */
    ghost var found: seq<Rule>
    ghost var sent: seq<(Rule, Rule)>

    constructor (digest: string -> string, rules: RuleMap)
      ensures this.digest == digest && this.rules == rules && !disturbed
    {
      this.digest, this.rules := digest, rules;
      disturbed, written, asked, deleted, gone, listed := false, {}, {}, {}, {}, map[];
      found, sent := [], [];
    }

    // -------------------------------------------------------------------------
    // API calls
    // -------------------------------------------------------------------------

    /** Anyone else may rewrite the store at any time. */
    method Interfere()
      modifies this`rules, this`disturbed
      ensures old(disturbed) ==> disturbed
      ensures !disturbed ==> rules == old(rules)
    {
      if * {
        rules := *;
        disturbed := true;
      }
    }

    method Get(key: Key) returns (reply: GetReply)
      modifies this`rules, this`disturbed, this`found
      ensures old(disturbed) ==> disturbed
      ensures found == if reply.Found? then old(found) + [reply.rule] else old(found)
      ensures !disturbed ==> rules == old(rules) && reply == if key in rules then Found(rules[key]) else GetNotFound
    {
      Interfere();
      if * {
        disturbed := true;
        return GetError;
      }
      if key !in rules { return GetNotFound; }
      found := found + [rules[key]];
      return Found(rules[key]);
    }

    method List() returns (items: Option<RuleMap>)
      modifies this`rules, this`disturbed, this`listed
      ensures old(disturbed) ==> disturbed
      ensures items.Some? ==> listed == items.value
      ensures !disturbed ==> rules == old(rules) && items == Some(rules)
    {
      Interfere();
      if * {
        disturbed := true;
        return None;
      }
      listed := rules;
      return Some(rules);
    }

    method Create(key: Key, rule: Rule) returns (reply: CreateReply)
      modifies this`rules, this`disturbed, this`written
      ensures old(disturbed) ==> disturbed
      ensures written == if reply == Created then old(written) + {key} else old(written)
      ensures !disturbed ==> reply == (if key in old(rules) then AlreadyExists else Created)
      ensures !disturbed ==> rules == if key in old(rules) then old(rules) else old(rules)[key := rule]
    {
      Interfere();
      if * {
        disturbed := true;
        var conflict: bool := *;
        reply := if conflict then CreateConflict else CreateError;
      } else if key in rules {
        reply := AlreadyExists;
      } else {
        rules := rules[key := rule];
        written := written + {key};
        reply := Created;
      }
    }

    /** A merge patch from a base to a wanted rule. Where the two differ, an accepted patch
        leaves the wanted value. */
    method Patch(key: Key, base: Rule, wanted: Rule) returns (reply: PatchReply)
      modifies this`rules, this`disturbed, this`written, this`sent
      ensures old(disturbed) ==> disturbed
      ensures sent == old(sent) + [(base, wanted)]
      ensures reply == Patched && key in rules ==>
        && (base.owners != wanted.owners ==> rules[key].owners == wanted.owners)
        && (base.finalizers != wanted.finalizers ==> rules[key].finalizers == wanted.finalizers)
        && (base.spec.ports != wanted.spec.ports ==> rules[key].spec.ports == wanted.spec.ports)
      ensures written == if reply == Patched then old(written) + {key} else old(written)
      ensures !disturbed && key in old(rules) ==> reply == Patched
      ensures !disturbed && key in old(rules) && base == old(rules)[key] == wanted.(spec := base.spec)
              ==> rules == old(rules)[key := wanted]
    {
      sent := sent + [(base, wanted)];
      Interfere();
      if * {
        disturbed := true;
        var conflict: bool := *;
        reply := if conflict then PatchConflict else PatchError;
      } else if key !in rules {
        reply := PatchError;
      } else {
        var merged := Merged(rules[key], base, wanted);
        var released := merged.deleting && merged.finalizers == {} && rules[key].finalizers != {};
        rules := if released then rules - {key} else rules[key := merged];
        written := written + {key};
        reply := Patched;
      }
    }

    method DeleteCall(key: Key) returns (reply: DeleteReply)
      modifies this`rules, this`disturbed, this`asked, this`deleted, this`gone
      ensures old(disturbed) ==> disturbed
      ensures asked == old(asked) + {key}
      ensures deleted == if reply == DeleteAccepted then old(deleted) + {key} else old(deleted)
      ensures gone == if reply == DeleteError then old(gone) else old(gone) + {key}
      ensures !disturbed ==> reply != DeleteError && rules == DeleteRules(old(rules), {key})
    {
      asked := asked + {key};
      Interfere();
      if * {
        disturbed := true;
        return DeleteError;
      }
      if key !in rules {
        assert rules == DeleteRules(rules, {key});
        gone := gone + {key};
        return DeleteNotFound;
      }
      ghost var before := rules;
      rules := if rules[key].finalizers == {} then rules - {key} else rules[key := rules[key].(deleting := true)];
      assert rules == DeleteRules(before, {key});
      deleted, gone := deleted + {key}, gone + {key};
      return DeleteAccepted;
    }

    /** An update of the whole object as read; equality of the stored rule stands for an
        unchanged version. The last finalizer of a deleted object takes the object along. */
    method UpdateCall(key: Key, asRead: Rule, updated: Rule) returns (ok: bool)
      modifies this`rules, this`disturbed
      ensures old(disturbed) ==> disturbed
      ensures !disturbed ==>
        rules == if !(key in old(rules) && old(rules)[key] == asRead) then old(rules)
                 else if updated.deleting && updated.finalizers == {} then old(rules) - {key}
                 else old(rules)[key := updated]
    {
      Interfere();
      if * {
        disturbed := true;
        return false;
      }
      ok := key in rules && rules[key] == asRead;
      if ok {
        rules := if updated.deleting && updated.finalizers == {} then rules - {key} else rules[key := updated];
      }
    }

    /** A call on another kind of object: finalizers, owner references, status. */
    method OtherCall() returns (ok: bool)
      modifies this`rules, this`disturbed
      ensures old(disturbed) ==> disturbed
      ensures !disturbed ==> ok && rules == old(rules)
    {
      Interfere();
      ok := true;
      if * {
        disturbed := true;
        ok := false;
      }
    }

    // -------------------------------------------------------------------------
    // createOrUpdateIEAgAgRule
    // -------------------------------------------------------------------------

    /** PatchWithRetry for a rule read as asRead and given a new spec. After a conflict, the
        patch is taken from the fresh copy to the object as first read: it then carries every
        difference, what others wrote in between included. */
    method PatchWithRetry(key: Key, asRead: Rule, spec: RuleSpec) returns (ok: bool)
      modifies this`rules, this`disturbed, this`written, this`found, this`sent
      ensures old(disturbed) ==> disturbed
      // Every patch goes to the one wanted rule; the first is taken from the rule as read, each
      // other from the copy read after the conflict before it; there are at most five.
      ensures old(found) <= found && old(sent) <= sent && |sent| <= |old(sent)| + 5
      ensures |sent| - |old(sent)| <= |found| - |old(found)| + 1
      ensures forall i :: |old(sent)| <= i < |sent| ==>
        && sent[i].1 == asRead.(spec := spec)
        && sent[i].0 == ([asRead] + found[|old(found)|..])[i - |old(sent)|]
      ensures ok ==> |sent| - |old(sent)| == |found| - |old(found)| + 1
      ensures written == if ok then old(written) + {key} else old(written)
      ensures !disturbed && key in old(rules) ==> ok
      ensures !disturbed && key in old(rules) && old(rules)[key] == asRead
              ==> rules == old(rules)[key := asRead.(spec := spec)]
    {
      var base := asRead;
      for i := 0 to DEFAULT_MAX_RETRIES
        invariant old(disturbed) ==> disturbed
        invariant written == old(written)
        invariant !disturbed && key in old(rules) ==> i == 0 && rules == old(rules) && base == asRead
        invariant old(found) <= found && |found| == |old(found)| + i && base == ([asRead] + found[|old(found)|..])[i]
        invariant old(sent) <= sent && |sent| == |old(sent)| + i
        invariant forall j :: |old(sent)| <= j < |sent| ==>
          && sent[j].1 == asRead.(spec := spec)
          && sent[j].0 == ([asRead] + found[|old(found)|..])[j - |old(sent)|]
      {
        var reply := Patch(key, base, asRead.(spec := spec));
        if reply == Patched { return true; }
        if reply != PatchConflict { return false; }
        var latest := Get(key);
        if !latest.Found? { return false; }
        base := latest.rule;
      }
      return false;
    }

    method CreateOrUpdate(c: Context, j: Job) returns (ok: bool)
      requires |c.traffic| >= 3 && c.digest == digest
      modifies this`rules, this`disturbed, this`written, this`found, this`sent
      ensures old(disturbed) ==> disturbed
      ensures written == if ok then old(written) + {JobKey(c, j)} else old(written)
      ensures !disturbed && c.namespace != "" ==> ok && rules == Apply(c.uid, old(rules), WriteOf(c, j))
    {
      var key, spec := JobKey(c, j), JobSpec(c, j);
      if key.namespace == "" { return false; }
      var existing := Get(key);
      if existing.GetError? { return false; }
      if existing.GetNotFound? {
        var newRule := NewRule(c.uid, spec);
        for i := 0 to DEFAULT_MAX_RETRIES
          invariant old(disturbed) ==> disturbed
          invariant written == old(written)
          invariant !disturbed ==> i == 0 && rules == old(rules) && key !in rules
        {
          var reply := Create(key, newRule);
          if reply == Created { return true; }
          if reply == AlreadyExists {
            var raced := Get(key);
            if raced.GetNotFound? { continue; }
            if raced.GetError? { return false; }
            break;
          }
          if reply != CreateConflict { return false; }
        }
      }
      var latest := Get(key);
      if !latest.Found? { return false; }
      ok := PatchWithRetry(key, latest.rule, spec);
    }

    // -------------------------------------------------------------------------
    // deleteRelatedIEAgAgRules
    // -------------------------------------------------------------------------

    /** One owner reference of one listed rule: drop the provider's finalizer, then delete. */
    method DeleteListed(k: Key, rule: Rule) returns (ok: bool)
      modifies this`rules, this`disturbed, this`asked, this`deleted, this`gone
      ensures old(disturbed) ==> disturbed
      ensures asked == old(asked) + {k}
      ensures old(gone) <= gone && (ok ==> k in gone)
      ensures deleted <= old(deleted) + {k}
      ensures !disturbed ==> ok
      ensures !disturbed && k in old(rules) && old(rules)[k] == rule ==> rules == DropRules(old(rules), {k})
      ensures !disturbed && k !in old(rules) ==> rules == old(rules)
      ensures !disturbed && k in old(rules) && old(rules)[k] == Dropped(rule) && Dropped(rule).finalizers != {}
              ==> rules == old(rules)
    {
      ghost var start := rules;
      if PROVIDER_FINALIZER in rule.finalizers {
        var updated := rule.(finalizers := rule.finalizers - {PROVIDER_FINALIZER});
        var _ := UpdateCall(k, rule, updated);
      } else {
        assert rule.finalizers - {PROVIDER_FINALIZER} == rule.finalizers;
      }
      var reply := DeleteCall(k);
      ok := reply != DeleteError;
      if !disturbed && k in start && start[k] == rule {
        assert rules == DropRules(start, {k});
      }
    }

    /** The loop over one listed rule's owner references. In an undisturbed pass, the rules
        under dropped are already gone from the listing and this rule joins them if owned. */
    method DeleteIfOwned(items: RuleMap, k: Key, uid: string, ghost dropped: set<Key>) returns (ok: bool)
      requires k in items && k !in dropped
      modifies this`rules, this`disturbed, this`asked, this`deleted, this`gone
      ensures old(disturbed) ==> disturbed
      ensures asked == if OwnedBy(items[k], uid) then old(asked) + {k} else old(asked)
      ensures old(gone) <= gone && (ok && OwnedBy(items[k], uid) ==> k in gone)
      ensures deleted <= old(deleted) + (if OwnedBy(items[k], uid) then {k} else {})
      ensures !disturbed ==> ok
      ensures !disturbed && old(rules) == DropRules(items, dropped)
              ==> rules == DropRules(items, if OwnedBy(items[k], uid) then dropped + {k} else dropped)
    {
      var rule := items[k];
      ghost var start := rules;
      ghost var hit := false;
      ok := true;
      for i := 0 to |rule.owners|
        invariant old(disturbed) ==> disturbed
        invariant hit <==> exists l :: 0 <= l < i && IsOwner(rule.owners[l], uid)
        invariant old(gone) <= gone && (ok && hit ==> k in gone)
        invariant asked == if hit then old(asked) + {k} else old(asked)
        invariant deleted <= old(deleted) + (if hit then {k} else {})
        invariant !disturbed ==> ok
        invariant !disturbed && start == DropRules(items, dropped)
                  ==> rules == DropRules(items, if hit then dropped + {k} else dropped)
      {
        if IsOwner(rule.owners[i], uid) {
          var done := DeleteListed(k, rule);
          if !done { ok := false; }
          assert DropRules(DropRules(items, dropped), {k}) == DropRules(items, dropped + {k});
          hit := true;
        }
      }
    }

    method DeleteRelated(uid: string) returns (r: DeleteOutcome)
      requires deleted == {} && asked == {}
      modifies this`rules, this`disturbed, this`asked, this`deleted, this`gone, this`listed
      ensures old(disturbed) ==> disturbed
      ensures asked == if r.ListFailed? then {} else OwnedKeys(listed, uid)
      ensures deleted <= OwnedKeys(listed, uid)
      ensures r.AllDeleted? ==> OwnedKeys(listed, uid) <= gone
      ensures !disturbed ==> r.AllDeleted? && rules == DropOwned(old(rules), uid)
    {
      var listing := List();
      if listing.None? { return ListFailed; }
      var items := listing.value;
      var todo, failed: set<Key> := items.Keys, {};
      assert OwnedKeys(items, uid) - todo == {} && DropRules(items, {}) == items;
      while todo != {}
        invariant old(disturbed) ==> disturbed
        invariant listed == items && todo <= items.Keys && deleted <= OwnedKeys(items, uid)
        invariant asked == OwnedKeys(items, uid) - todo
        invariant failed == {} ==> OwnedKeys(items, uid) - todo <= gone
        invariant !disturbed ==> items == old(rules) && failed == {}
        invariant !disturbed ==> rules == DropRules(items, OwnedKeys(items, uid) - todo)
        decreases todo
      {
        var k :| k in todo;
        ghost var dropped := OwnedKeys(items, uid) - todo;
        todo := todo - {k};
        var ok := DeleteIfOwned(items, k, uid, dropped);
        if !ok { failed := failed + {k}; }
        assert OwnedKeys(items, uid) - todo == if OwnedBy(items[k], uid) then dropped + {k} else dropped;
      }
      assert OwnedKeys(items, uid) - todo == OwnedKeys(items, uid);
      return if failed == {} then AllDeleted else SomeFailed(failed);
    }

    /** getExistingIEAgAgRules. */
    method ExistingRules(uid: string) returns (r: Option<set<Key>>)
      modifies this`rules, this`disturbed, this`listed
      ensures old(disturbed) ==> disturbed
      ensures r.Some? ==> r.value == OwnedKeys(listed, uid)
      ensures !disturbed ==> rules == old(rules) && r == Some(OwnedKeys(rules, uid))
    {
      var listing := List();
      if listing.None? { return None; }
      var items := listing.value;
      var todo, related: set<Key> := items.Keys, {};
      while todo != {}
        invariant todo <= items.Keys
        invariant related == OwnedKeys(items, uid) - todo
        decreases todo
      {
        var k :| k in todo;
        todo := todo - {k};
        var owners := items[k].owners;
        for i := 0 to |owners|
          invariant k !in related
          invariant forall l :: 0 <= l < i ==> !IsOwner(owners[l], uid)
          invariant related == OwnedKeys(items, uid) - todo - {k}
        {
          if IsOwner(owners[i], uid) {
            assert OwnedBy(items[k], uid);
            related := related + {k};
            break;
          }
        }
      }
      assert related == OwnedKeys(items, uid);
      return Some(related);
    }

    // -------------------------------------------------------------------------
    // Reconcile
    // -------------------------------------------------------------------------

    /** One address-group pair. A failed TCP rule skips the pair's UDP rule. In an undisturbed
        pass, the jobs done since start grow by the jobs of the pair. */
    method RunPair(c: Context, local: ObjectRef, target: ObjectRef, ports: seq<IngressPort>, expected: set<Key>,
                   ghost start: RuleMap, ghost jobs: seq<Job>) returns (expected': set<Key>)
      requires |c.traffic| >= 3 && c.digest == digest && written == expected && Backed(c, jobs, ports, expected)
      modifies this`rules, this`disturbed, this`written, this`found, this`sent
      ensures old(disturbed) ==> disturbed
      ensures written == expected' && Backed(c, jobs + PairJobs(local, target, ports), ports, expected')
      ensures !disturbed && c.namespace != "" && Done(c, start, old(rules), expected, jobs)
              ==> Done(c, start, rules, expected', jobs + PairJobs(local, target, ports))
    {
      expected' := expected;
      ghost var all := jobs + PairJobs(local, target, ports);
      BackedGrows(c, jobs, all, ports, expected);
      var tcp := CollectPorts(ports, PROTOCOL_TCP);
      var udp := CollectPorts(ports, PROTOCOL_UDP);
      ghost var tcpJobs := ProtocolJob(local, target, ports, PROTOCOL_TCP);
      ghost var udpJobs := ProtocolJob(local, target, ports, PROTOCOL_UDP);
      assert jobs + PairJobs(local, target, ports) == jobs + tcpJobs + udpJobs;
      if |tcp| > 0 {
        var job := Job(local, target, PROTOCOL_TCP, Join(tcp, ','));
        assert tcpJobs == [job] && all[|jobs|] == job;
        BackedAdds(c, all, ports, expected', job);
        if Done(c, start, rules, expected', jobs) { DoneSnoc(c, start, rules, expected', jobs, job); }
        var ok := CreateOrUpdate(c, job);
        if !ok { return; }
        expected' := expected' + {JobKey(c, job)};
      } else {
        assert jobs + tcpJobs == jobs;
      }
      assert !disturbed && c.namespace != "" && Done(c, start, old(rules), expected, jobs)
             ==> Done(c, start, rules, expected', jobs + tcpJobs);
      if |udp| > 0 {
        var job := Job(local, target, PROTOCOL_UDP, Join(udp, ','));
        assert udpJobs == [job] && all[|jobs| + |tcpJobs|] == job;
        BackedAdds(c, all, ports, expected', job);
        if Done(c, start, rules, expected', jobs + tcpJobs) {
          DoneSnoc(c, start, rules, expected', jobs + tcpJobs, job);
        }
        var ok := CreateOrUpdate(c, job);
        if !ok { return; }
        expected' := expected' + {JobKey(c, job)};
      } else {
        assert jobs + tcpJobs + udpJobs == jobs + tcpJobs;
      }
    }

    method RunRow(c: Context, local: ObjectRef, targets: seq<ObjectRef>, ports: seq<IngressPort>, expected: set<Key>,
                  ghost start: RuleMap, ghost jobs: seq<Job>) returns (expected': set<Key>)
      requires |c.traffic| >= 3 && c.digest == digest && written == expected && Backed(c, jobs, ports, expected)
      modifies this`rules, this`disturbed, this`written, this`found, this`sent
      ensures old(disturbed) ==> disturbed
      ensures written == expected' && Backed(c, jobs + RowJobs(local, targets, ports), ports, expected')
      ensures !disturbed && c.namespace != "" && Done(c, start, old(rules), expected, jobs)
              ==> Done(c, start, rules, expected', jobs + RowJobs(local, targets, ports))
    {
      expected' := expected;
      assert jobs + RowJobs(local, targets[..0], ports) == jobs;
      for j := 0 to |targets|
        invariant old(disturbed) ==> disturbed
        invariant written == expected' && Backed(c, jobs + RowJobs(local, targets[..j], ports), ports, expected')
        invariant !disturbed && c.namespace != "" && Done(c, start, old(rules), expected, jobs)
                  ==> Done(c, start, rules, expected', jobs + RowJobs(local, targets[..j], ports))
      {
        ghost var before := jobs + RowJobs(local, targets[..j], ports);
        RowJobsStep(local, targets, j, ports);
        assert before + PairJobs(local, targets[j], ports) == jobs + RowJobs(local, targets[..j + 1], ports);
        expected' := RunPair(c, local, targets[j], ports, expected', start, before);
      }
      assert targets[..|targets|] == targets;
    }

    /** The product loop over both lists of address groups. */
    method RunJobs(c: Context, locals: seq<ObjectRef>, targets: seq<ObjectRef>, ports: seq<IngressPort>)
      returns (expected: set<Key>)
      requires |c.traffic| >= 3 && c.digest == digest && written == {}
      modifies this`rules, this`disturbed, this`written, this`found, this`sent
      ensures old(disturbed) ==> disturbed
      ensures written == expected && Backed(c, Jobs(locals, targets, ports), ports, expected)
      ensures !disturbed && c.namespace != "" ==> Done(c, old(rules), rules, expected, Jobs(locals, targets, ports))
    {
      expected := {};
      ghost var start := rules;
      ghost var jobs: seq<Job> := [];
      for i := 0 to |locals|
        invariant old(disturbed) ==> disturbed
        invariant jobs == Jobs(locals[..i], targets, ports)
        invariant written == expected && Backed(c, jobs, ports, expected)
        invariant !disturbed && c.namespace != "" ==> Done(c, start, rules, expected, jobs)
      {
        expected := RunRow(c, locals[i], targets, ports, expected, start, jobs);
        JobsStep(locals, i, targets, ports);
        jobs := jobs + RowJobs(locals[i], targets, ports);
      }
      assert locals[..|locals|] == locals;
    }

    /** The owned rules of the listing that no job asked for are deleted; a failure is logged. */
    method DeleteObsolete(existing: set<Key>, expected: set<Key>)
      requires deleted == {} && asked == {}
      modifies this`rules, this`disturbed, this`asked, this`deleted, this`gone
      ensures old(disturbed) ==> disturbed
      ensures asked == existing - expected && deleted <= asked
      ensures !disturbed ==> rules == DeleteRules(old(rules), existing - expected)
    {
      var todo := existing;
      ghost var start := rules;
      assert DeleteRules(start, (existing - todo) - expected) == start;
      while todo != {}
        invariant old(disturbed) ==> disturbed
        invariant todo <= existing && asked == (existing - todo) - expected && deleted <= asked
        invariant !disturbed ==> rules == DeleteRules(start, (existing - todo) - expected)
        decreases todo
      {
        var k :| k in todo;
        ghost var before := (existing - todo) - expected;
        todo := todo - {k};
        if k !in expected {
          var _ := DeleteCall(k);
          assert DeleteRules(DeleteRules(start, before), {k}) == DeleteRules(start, before + {k});
          assert (existing - todo) - expected == before + {k};
        } else {
          assert (existing - todo) - expected == before;
        }
      }
      assert (existing - todo) - expected == existing - expected;
    }

    /** Reconcile of a RuleS2S that was found in the store, for the objects its lookups find. */
    method Reconcile(r: RuleS2S, objects: Objects) returns (outcome: Outcome)
      requires |r.traffic| >= 3
      modifies this
      // Under any failures and any interference: a rule written in the pass is not deleted in it,
      // nothing is deleted that the listing did not show as owned,
      ensures written !! deleted && deleted <= OwnedKeys(listed, r.uid)
      // and the finalizer goes only when every rule owned in the listing is gone.
      ensures outcome == FinalizerRemoved ==> r.deleting && asked == OwnedKeys(listed, r.uid) <= gone
      // An active pass calls Delete for exactly the owned rules of the listing it did not write,
      // and it wrote a pair's UDP rule only after the pair's TCP rule, if there is one.
      ensures outcome == Synced ==>
        && PlanFor(objects, r).Active? && asked == OwnedKeys(listed, r.uid) - written
        && var plan := PlanFor(objects, r);
           Backed(Context(digest, r.traffic, r.key.namespace, r.uid), Jobs(plan.locals, plan.targets, plan.ports),
               plan.ports, written)
      // Without an active plan nothing is written; only an inactive or a deleted RuleS2S has its
      // rules asked for, all of the listing or, without a listing, none.
      ensures outcome == Deactivated ==> PlanFor(objects, r).Inactive? && written == {}
                                         && asked in {{}, OwnedKeys(listed, r.uid)}
      ensures outcome == Blocked || outcome == FinalizerAdded ==> written == asked == {}
      // Undisturbed from its own start, the pass is exactly its effect.
      ensures !disturbed && r.key.namespace != "" ==>
        && outcome == PassOutcome(r, PlanFor(objects, r))
        && rules == PassEffect(Context(digest, r.traffic, r.key.namespace, r.uid), old(rules), r, PlanFor(objects, r))
    {
      disturbed, written, asked, deleted, gone := false, {}, {}, {}, {};
      var c := Context(digest, r.traffic, r.key.namespace, r.uid);
      if !r.hasFinalizer {
        var added := OtherCall();
        // The API refuses a new finalizer on an object that is being deleted.
        return if added && !r.deleting then FinalizerAdded else Failed;
      }
      if r.deleting {
        var dropped := DeleteRelated(r.uid);
        if !dropped.AllDeleted? { return Failed; }
        var removed := OtherCall();
        return if removed then FinalizerRemoved else Failed;
      }
      var plan := PlanFor(objects, r);
      if !plan.Inactive? && !plan.Active? { return Blocked; }
      var linked := OtherCall();
      if !linked { return Failed; }
      if plan.Inactive? {
        var _ := DeleteRelated(r.uid);
        return Deactivated;
      }
      var existing := ExistingRules(r.uid);
      if existing.None? { return Failed; }
      var expected := RunJobs(c, plan.locals, plan.targets, plan.ports);
      DeleteObsolete(existing.value, expected);
      return Synced;
    }
  }

  /** The TCP job of the pair of a job. */
  function TcpOf(j: Job, ports: seq<IngressPort>): Job
  {
    Job(j.local, j.target, PROTOCOL_TCP, Join(PortStrings(ports, PROTOCOL_TCP), ','))
  }

  /** Every written key is some job's, and a UDP job's only beside its pair's TCP rule. */
  ghost predicate Backed(c: Context, jobs: seq<Job>, ports: seq<IngressPort>, written: set<Key>)
    requires |c.traffic| >= 3
  {
    forall k :: k in written ==> exists j :: j in jobs && BackedBy(c, j, ports, written, k)
  }

  predicate BackedBy(c: Context, j: Job, ports: seq<IngressPort>, written: set<Key>, k: Key)
    requires |c.traffic| >= 3
  {
    && JobKey(c, j) == k
    && (j.protocol == PROTOCOL_UDP && PortStrings(ports, PROTOCOL_TCP) != [] ==> JobKey(c, TcpOf(j, ports)) in written)
  }

  lemma {:induction false} BackedGrows(c: Context, jobs: seq<Job>, jobs': seq<Job>, ports: seq<IngressPort>,
                                       written: set<Key>)
    requires |c.traffic| >= 3 && Backed(c, jobs, ports, written) && jobs <= jobs'
    ensures Backed(c, jobs', ports, written)
  {
    forall k | k in written ensures exists j :: j in jobs' && BackedBy(c, j, ports, written, k) {
      var j :| j in jobs && BackedBy(c, j, ports, written, k);
    }
  }

  lemma {:induction false} BackedAdds(c: Context, jobs: seq<Job>, ports: seq<IngressPort>, written: set<Key>, j: Job)
    requires |c.traffic| >= 3 && Backed(c, jobs, ports, written) && j in jobs
    requires j.protocol == PROTOCOL_UDP && PortStrings(ports, PROTOCOL_TCP) != []
             ==> JobKey(c, TcpOf(j, ports)) in written
    ensures Backed(c, jobs, ports, written + {JobKey(c, j)})
  {
    var written' := written + {JobKey(c, j)};
    forall k | k in written' ensures exists i :: i in jobs && BackedBy(c, i, ports, written', k) {
      if k in written {
        var i :| i in jobs && BackedBy(c, i, ports, written, k);
        assert BackedBy(c, i, ports, written', k);
      } else {
        assert BackedBy(c, j, ports, written', k);
      }
    }
  }

  /** After an active pass in which a pair's TCP rule was not written, the pair's UDP rule is
      still asked for, yet if it was owned its deletion was called for. */
  lemma {:induction false} SkippedUdpIsDeleted(c: Context, locals: seq<ObjectRef>, targets: seq<ObjectRef>,
                                               ports: seq<IngressPort>, j: Job, owned: set<Key>, written: set<Key>,
                                               asked: set<Key>)
    requires |c.traffic| >= 3 && j in Jobs(locals, targets, ports) && j.protocol == PROTOCOL_UDP
    requires forall i :: i in Jobs(locals, targets, ports) && JobKey(c, i) == JobKey(c, j) ==> i == j
    requires Backed(c, Jobs(locals, targets, ports), ports, written) && asked == owned - written
    requires PortStrings(ports, PROTOCOL_TCP) != [] && JobKey(c, TcpOf(j, ports)) !in written
    ensures JobKey(c, j) in Expected(Writes(c, Jobs(locals, targets, ports)))
    ensures TcpOf(j, ports) in Jobs(locals, targets, ports)
    ensures JobKey(c, j) in asked <==> JobKey(c, j) in owned
  {
    var jobs := Jobs(locals, targets, ports);
    RuleMeaning.JobsMembers(locals, targets, ports);
    assert RuleMeaning.IsJob(locals, targets, ports, TcpOf(j, ports));
    var n :| 0 <= n < |jobs| && jobs[n] == j;
    assert Writes(c, jobs)[n].key == JobKey(c, j);
  }

  ghost predicate Done(c: Context, start: RuleMap, now: RuleMap, expected: set<Key>, jobs: seq<Job>)
    requires |c.traffic| >= 3
  {
    now == ApplyAll(c.uid, start, Writes(c, jobs)) && expected == Expected(Writes(c, jobs))
  }

  lemma {:induction false} DoneSnoc(c: Context, start: RuleMap, now: RuleMap, expected: set<Key>, jobs: seq<Job>,
                                    j: Job)
    requires |c.traffic| >= 3 && Done(c, start, now, expected, jobs)
    ensures Done(c, start, Apply(c.uid, now, WriteOf(c, j)), expected + {JobKey(c, j)}, jobs + [j])
  {
    assert Writes(c, jobs + [j]) == Writes(c, jobs) + [WriteOf(c, j)];
    assert (Writes(c, jobs) + [WriteOf(c, j)])[..|jobs|] == Writes(c, jobs);
    ExpectedSnoc(Writes(c, jobs), WriteOf(c, j));
  }

  lemma {:induction false} RowJobsStep(local: ObjectRef, targets: seq<ObjectRef>, j: nat, ports: seq<IngressPort>)
    requires j < |targets|
    ensures RowJobs(local, targets[..j + 1], ports)
            == RowJobs(local, targets[..j], ports) + PairJobs(local, targets[j], ports)
  {
    assert targets[..j + 1][..j] == targets[..j];
  }

  lemma {:induction false} JobsStep(locals: seq<ObjectRef>, i: nat, targets: seq<ObjectRef>, ports: seq<IngressPort>)
    requires i < |locals|
    ensures Jobs(locals[..i + 1], targets, ports)
            == Jobs(locals[..i], targets, ports) + RowJobs(locals[i], targets, ports)
  {
    assert locals[..i + 1][..i] == locals[..i];
  }

  /** The ports of one protocol, as the loop over the receiver's ports collects them. */
  method CollectPorts(ports: seq<IngressPort>, protocol: string) returns (strings: seq<string>)
    ensures strings == PortStrings(ports, protocol)
  {
    strings := [];
    for i := 0 to |ports|
      invariant strings == PortStrings(ports[..i], protocol)
    {
      assert ports[..i + 1][..i] == ports[..i];
      if ports[i].protocol == protocol {
        strings := strings + [ports[i].port];
      }
    }
    assert ports[..|ports|] == ports;
  }
}
