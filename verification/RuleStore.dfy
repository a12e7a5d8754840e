/** The stored IEAgAgRules and what one pass of the RuleS2S controller does to them when
    every call succeeds and nothing else writes. */
module RuleStore {
  import opened Model

  datatype OwnerRef = OwnerRef(apiVersion: string, kind: string, uid: string)

  datatype RuleSpec = RuleSpec(
    transport: string,
    traffic: string,
    local: ObjectRef,
    target: ObjectRef,
    ports: string,
    action: string,
    logs: bool,
    priority: int)

  /** IEAgAgRule as stored. */
  datatype Rule = Rule(owners: seq<OwnerRef>, finalizers: set<string>, deleting: bool, spec: RuleSpec)

  type RuleMap = map<Key, Rule>

  const PROVIDER_FINALIZER := "provider.sgroups.io/finalizer"

  /** The comparison both loops over owner references make. */
  predicate IsOwner(o: OwnerRef, uid: string)
  {
    o.uid == uid && o.kind == "RuleS2S" && o.apiVersion == NETGUARD_API
  }

  predicate OwnedBy(r: Rule, uid: string)
  {
    exists i :: 0 <= i < |r.owners| && IsOwner(r.owners[i], uid)
  }

  function OwnedKeys(s: RuleMap, uid: string): set<Key>
  {
    set k | k in s && OwnedBy(s[k], uid)
  }

  // ---------------------------------------------------------------------------
  // Creating, updating and deleting
  // ---------------------------------------------------------------------------

  datatype Write = Write(key: Key, spec: RuleSpec)

  function NewRule(uid: string, spec: RuleSpec): (r: Rule)
    ensures OwnedBy(r, uid)
  {
    var r := Rule([OwnerRef(NETGUARD_API, "RuleS2S", uid)], {}, false, spec);
    assert IsOwner(r.owners[0], uid);
    r
  }

  /** createOrUpdateIEAgAgRule: an existing rule gets the spec but no owner reference. */
  function Apply(uid: string, s: RuleMap, w: Write): RuleMap
  {
    s[w.key := if w.key in s then s[w.key].(spec := w.spec) else NewRule(uid, w.spec)]
  }

  function ApplyAll(uid: string, s: RuleMap, ws: seq<Write>): RuleMap
  {
    if ws == [] then s else Apply(uid, ApplyAll(uid, s, ws[..|ws| - 1]), ws[|ws| - 1])
  }

  function Expected(ws: seq<Write>): set<Key>
  {
    set i | 0 <= i < |ws| :: ws[i].key
  }

  /** Deleting stored rules: each goes at once unless a finalizer holds it. */
  function DeleteRules(s: RuleMap, keys: set<Key>): RuleMap
  {
    map k | k in s && !(k in keys && s[k].finalizers == {}) :: if k in keys then s[k].(deleting := true) else s[k]
  }

  /** An active pass: every write in order, then the owned rules no write asked for go. */
  function Sync(uid: string, s: RuleMap, ws: seq<Write>): RuleMap
  {
    DeleteRules(ApplyAll(uid, s, ws), OwnedKeys(s, uid) - Expected(ws))
  }

  /** deleteRelatedIEAgAgRules for some owned rules: they lose the provider's finalizer and go. */
  function DropRules(s: RuleMap, keys: set<Key>): RuleMap
  {
    map k | k in s && !(k in keys && s[k].finalizers <= {PROVIDER_FINALIZER})
      :: if k in keys then Dropped(s[k]) else s[k]
  }

  function Dropped(r: Rule): Rule
  {
    r.(finalizers := r.finalizers - {PROVIDER_FINALIZER}, deleting := true)
  }

  function DropOwned(s: RuleMap, uid: string): RuleMap
  {
    DropRules(s, OwnedKeys(s, uid))
  }

  // ---------------------------------------------------------------------------
  // Convergence
  // ---------------------------------------------------------------------------

  /** The last write to a key. */
  function LastWrite(ws: seq<Write>, k: Key): (i: nat)
    requires k in Expected(ws)
    ensures i < |ws| && ws[i].key == k
    ensures forall l :: i < l < |ws| ==> ws[l].key != k
  {
    var n := |ws| - 1;
    if ws[n].key == k then n
    else
      assert k in Expected(ws[..n]) by {
        var i :| 0 <= i < |ws| && ws[i].key == k;
        assert ws[..n][i] == ws[i];
      }
      LastWrite(ws[..n], k)
  }

  lemma {:induction false} ExpectedSnoc(ws: seq<Write>, w: Write)
    ensures Expected(ws + [w]) == Expected(ws) + {w.key}
  {
    var all := ws + [w];
    forall k ensures k in Expected(all) <==> k in Expected(ws) + {w.key} {
      if k in Expected(ws) {
        var i :| 0 <= i < |ws| && ws[i].key == k;
        assert all[i] == ws[i];
      }
      assert all[|ws|] == w;
    }
  }

  /** The store after the writes, key by key: the last write to a key wins. */
  ghost predicate Written(uid: string, s: RuleMap, s': RuleMap, ws: seq<Write>)
  {
    && s'.Keys == s.Keys + Expected(ws)
    && (forall k :: k in s && k !in Expected(ws) ==> s'[k] == s[k])
    && (forall k :: k in Expected(ws) ==> s'[k] == WrittenRule(uid, s, k, ws[LastWrite(ws, k)].spec))
  }

  function WrittenRule(uid: string, s: RuleMap, k: Key, spec: RuleSpec): Rule
  {
    if k in s then s[k].(spec := spec) else NewRule(uid, spec)
  }

  lemma {:induction false} LastWriteSnoc(ws: seq<Write>, w: Write, k: Key)
    requires k in Expected(ws + [w])
    ensures k == w.key ==> LastWrite(ws + [w], k) == |ws|
    ensures k != w.key ==> k in Expected(ws) && LastWrite(ws + [w], k) == LastWrite(ws, k)
  {
    assert (ws + [w])[..|ws|] == ws;
    ExpectedSnoc(ws, w);
  }

  lemma {:induction false} WrittenSnoc(uid: string, s: RuleMap, s': RuleMap, ws: seq<Write>, w: Write)
    requires Written(uid, s, s', ws)
    ensures Written(uid, s, Apply(uid, s', w), ws + [w])
  {
    var s'', all := Apply(uid, s', w), ws + [w];
    ExpectedSnoc(ws, w);
    forall k | k in Expected(all) ensures s''[k] == WrittenRule(uid, s, k, all[LastWrite(all, k)].spec) {
      LastWriteSnoc(ws, w, k);
      if k in Expected(ws) { assert s'[k] == WrittenRule(uid, s, k, ws[LastWrite(ws, k)].spec); }
    }
  }

  lemma {:induction false} ApplyAllEffect(uid: string, s: RuleMap, ws: seq<Write>)
    ensures Written(uid, s, ApplyAll(uid, s, ws), ws)
  {
    if ws != [] {
      var init, last := ws[..|ws| - 1], ws[|ws| - 1];
      ApplyAllEffect(uid, s, init);
      WrittenSnoc(uid, s, ApplyAll(uid, s, init), init, last);
      assert ws == init + [last];
    }
  }

  /** Convergence of an active pass: every expected rule holds the spec of the last write to
      its key, every rule left that the RuleS2S owns is expected or on its way out, every
      rule neither owned nor expected is untouched, and nothing else appears. An existing
      expected rule changes in its spec only: it is not adopted. */
  lemma {:induction false} SyncConverges(uid: string, s: RuleMap, ws: seq<Write>)
    ensures var s', expected := Sync(uid, s, ws), Expected(ws);
            && (forall k :: k in expected ==> k in s' && s'[k] == WrittenRule(uid, s, k, ws[LastWrite(ws, k)].spec))
            && (forall k :: k in s' && OwnedBy(s'[k], uid) ==> k in expected || s'[k].deleting)
            && (forall k ::
                k !in expected && k !in OwnedKeys(s, uid)
                ==> (k in s' <==> k in s) && (k in s ==> s'[k] == s[k]))
  {
    ApplyAllEffect(uid, s, ws);
  }

  lemma {:induction false} ReapplyNothing(uid: string, s: RuleMap, ws: seq<Write>)
    requires forall k :: k in Expected(ws) ==> k in s && s[k].spec == ws[LastWrite(ws, k)].spec
    ensures ApplyAll(uid, s, ws) == s
  {
    ApplyAllEffect(uid, s, ws);
    var s' := ApplyAll(uid, s, ws);
    assert s'.Keys == s.Keys;
    forall k | k in s ensures s'[k] == s[k] {
      if k in Expected(ws) { assert s'[k] == WrittenRule(uid, s, k, ws[LastWrite(ws, k)].spec); }
    }
  }

  lemma {:induction false} DeleteNothing(s: RuleMap, keys: set<Key>)
    requires forall k :: k in keys && k in s ==> s[k].deleting && s[k].finalizers != {}
    ensures DeleteRules(s, keys) == s
  {
  }

  /** A second pass leaves the rule store as it is. */
  lemma {:induction false} SyncIdempotent(uid: string, s: RuleMap, ws: seq<Write>)
    ensures Sync(uid, Sync(uid, s, ws), ws) == Sync(uid, s, ws)
  {
    var s' := Sync(uid, s, ws);
    SyncConverges(uid, s, ws);
    forall k | k in Expected(ws) ensures s'[k].spec == ws[LastWrite(ws, k)].spec {
      assert s'[k] == WrittenRule(uid, s, k, ws[LastWrite(ws, k)].spec);
    }
    ReapplyNothing(uid, s', ws);
    forall k | k in OwnedKeys(s', uid) - Expected(ws) ensures s'[k].deleting && s'[k].finalizers != {} {
      ApplyAllEffect(uid, s, ws);
    }
    DeleteNothing(s', OwnedKeys(s', uid) - Expected(ws));
  }

  /** The inactive pass, and the deletion of a RuleS2S: what it owns is gone or on its way out
      without the provider's finalizer, the rest is untouched; doing it again changes nothing. */
  lemma {:induction false} DropOwnedConverges(s: RuleMap, uid: string)
    ensures var s' := DropOwned(s, uid);
            && (forall k ::
                k in s' && OwnedBy(s'[k], uid)
                ==> s'[k].deleting && PROVIDER_FINALIZER !in s'[k].finalizers && s'[k].finalizers != {})
            && (forall k :: k in s && !OwnedBy(s[k], uid) ==> k in s' && s'[k] == s[k])
            && s'.Keys <= s.Keys
            && DropOwned(s', uid) == s'
  {
    var s' := DropOwned(s, uid);
    forall k | k in s' ensures OwnedBy(s'[k], uid) <==> OwnedBy(s[k], uid) {
      assert s'[k].owners == s[k].owners;
    }
    forall k | k in s' && OwnedBy(s'[k], uid)
      ensures s'[k].deleting && PROVIDER_FINALIZER !in s'[k].finalizers && s'[k].finalizers != {}
              && Dropped(s'[k]) == s'[k]
      ensures !(s'[k].finalizers <= {PROVIDER_FINALIZER})
    {
      var f :| f in s[k].finalizers && f != PROVIDER_FINALIZER;
      assert f in s'[k].finalizers;
      assert s'[k].finalizers - {PROVIDER_FINALIZER} == s'[k].finalizers;
    }
  }

  // ---------------------------------------------------------------------------
  // Whose rules a pass touches
  // ---------------------------------------------------------------------------

  /** Some owner reference has the uid, the kind and the API version of the RuleS2S. */
  ghost predicate NamesOwner(r: Rule, uid: string)
  {
    exists i :: 0 <= i < |r.owners| && r.owners[i].uid == uid && r.owners[i].kind == "RuleS2S"
                && r.owners[i].apiVersion == "netguard.sgroups.io/v1alpha1"
  }

  lemma {:induction false} OwnedExactly(s: RuleMap, uid: string, k: Key)
    ensures k in s ==> (OwnedBy(s[k], uid) <==> NamesOwner(s[k], uid))
    ensures k in OwnedKeys(s, uid) <==> k in s && NamesOwner(s[k], uid)
  {
    if k in s && NamesOwner(s[k], uid) {
      var i :| 0 <= i < |s[k].owners| && s[k].owners[i].uid == uid && s[k].owners[i].kind == "RuleS2S"
               && s[k].owners[i].apiVersion == "netguard.sgroups.io/v1alpha1";
      assert IsOwner(s[k].owners[i], uid);
    }
  }

  /** An active pass rule by rule. A written rule is created with the RuleS2S as its one owner,
      or keeps everything but its spec; any other rule goes exactly when it names the RuleS2S
      as an owner, at once or, held by a finalizer, as deleting; and is untouched otherwise. */
  lemma {:induction false} SyncExactly(uid: string, s: RuleMap, ws: seq<Write>, k: Key)
    ensures var s' := Sync(uid, s, ws);
            if exists i :: 0 <= i < |ws| && ws[i].key == k then
              k in s' && s'[k] == (
                if k in s then s[k].(spec := s'[k].spec)
                else Rule([OwnerRef("netguard.sgroups.io/v1alpha1", "RuleS2S", uid)], {}, false, s'[k].spec))
            else if k in s && NamesOwner(s[k], uid) then
              if s[k].finalizers == {} then k !in s' else k in s' && s'[k] == s[k].(deleting := true)
            else (k in s' <==> k in s) && (k in s ==> s'[k] == s[k])
  {
    SyncAt(uid, s, ws, k);
    OwnedExactly(s, uid, k);
    if i :| 0 <= i < |ws| && ws[i].key == k { assert k in Expected(ws); }
  }

  /** The spec under a written key is that of the last write to it. */
  lemma {:induction false} LastSpecExactly(uid: string, s: RuleMap, ws: seq<Write>, i: nat)
    requires i < |ws| && forall j :: i < j < |ws| ==> ws[j].key != ws[i].key
    ensures ws[i].key in Sync(uid, s, ws) && Sync(uid, s, ws)[ws[i].key].spec == ws[i].spec
  {
    var k := ws[i].key;
    assert k in Expected(ws);
    SyncAt(uid, s, ws, k);
    var l := LastWrite(ws, k);
    assert l == i;
  }

  /** An inactive pass rule by rule: a rule that names the RuleS2S as an owner goes, at once
      unless a finalizer other than the provider's holds it; any other rule is untouched. */
  lemma {:induction false} DropOwnedExactly(uid: string, s: RuleMap, k: Key)
    ensures var s' := DropOwned(s, uid);
            if k in s && NamesOwner(s[k], uid) then
              var left := s[k].finalizers - {"provider.sgroups.io/finalizer"};
              if left == {} then k !in s' else k in s' && s'[k] == s[k].(finalizers := left, deleting := true)
            else (k in s' <==> k in s) && (k in s ==> s'[k] == s[k])
  {
    OwnedExactly(s, uid, k);
    if k in s {
      assert s[k].finalizers - {"provider.sgroups.io/finalizer"} == {}
        <==> s[k].finalizers <= {"provider.sgroups.io/finalizer"};
    }
  }

  /** A rule with another owner's references only is out of reach of a pass that does not
      write it, whatever that pass does. */
  lemma {:induction false} OthersRulesKept(uid: string, other: string, s: RuleMap, ws: seq<Write>, k: Key)
    requires uid != other && k in s && forall i :: 0 <= i < |s[k].owners| ==> s[k].owners[i].uid == other
    requires forall i :: 0 <= i < |ws| ==> ws[i].key != k
    ensures k in Sync(uid, s, ws) && Sync(uid, s, ws)[k] == s[k]
    ensures k in DropOwned(s, uid) && DropOwned(s, uid)[k] == s[k]
  {
    assert !NamesOwner(s[k], uid);
    SyncExactly(uid, s, ws, k);
    DropOwnedExactly(uid, s, k);
  }

  /** The passes of two RuleS2S that own no rule in common, and write neither each other's
      rules nor a common one, commute. */
  lemma {:induction false} PassesCommute(u1: string, u2: string, s: RuleMap, ws1: seq<Write>, ws2: seq<Write>)
    requires u1 != u2 && Expected(ws1) !! Expected(ws2) && OwnedKeys(s, u1) !! OwnedKeys(s, u2)
    requires Expected(ws1) !! OwnedKeys(s, u2) && Expected(ws2) !! OwnedKeys(s, u1)
    ensures Sync(u2, Sync(u1, s, ws1), ws2) == Sync(u1, Sync(u2, s, ws2), ws1)
  {
    var a, b := Sync(u2, Sync(u1, s, ws1), ws2), Sync(u1, Sync(u2, s, ws2), ws1);
    forall k ensures (k in a <==> k in b) && (k in a ==> a[k] == b[k]) {
      PassesCommuteAt(u1, u2, s, ws1, ws2, k);
    }
  }

  lemma {:induction false} PassesCommuteAt(u1: string, u2: string, s: RuleMap, ws1: seq<Write>, ws2: seq<Write>, k: Key)
    requires u1 != u2 && Expected(ws1) !! Expected(ws2) && OwnedKeys(s, u1) !! OwnedKeys(s, u2)
    requires Expected(ws1) !! OwnedKeys(s, u2) && Expected(ws2) !! OwnedKeys(s, u1)
    ensures var a, b := Sync(u2, Sync(u1, s, ws1), ws2), Sync(u1, Sync(u2, s, ws2), ws1);
            (k in a <==> k in b) && (k in a ==> a[k] == b[k])
  {
    var s1, s2 := Sync(u1, s, ws1), Sync(u2, s, ws2);
    SyncAt(u1, s, ws1, k);
    SyncAt(u2, s, ws2, k);
    SyncAt(u2, s1, ws2, k);
    SyncAt(u1, s2, ws1, k);
    OwnershipAt(u1, u2, s, ws1, k);
    OwnershipAt(u2, u1, s, ws2, k);
  }

  /** One rule under a pass: a function of that rule alone. */
  lemma {:induction false} SyncAt(uid: string, s: RuleMap, ws: seq<Write>, k: Key)
    ensures var s' := Sync(uid, s, ws);
            if k in Expected(ws) then k in s' && s'[k] == WrittenRule(uid, s, k, ws[LastWrite(ws, k)].spec)
            else if k in OwnedKeys(s, uid) then
              if s[k].finalizers == {} then k !in s' else k in s' && s'[k] == s[k].(deleting := true)
            else (k in s' <==> k in s) && (k in s ==> s'[k] == s[k])
  {
    ApplyAllEffect(uid, s, ws);
  }

  /** A pass gives no rule to another RuleS2S, and takes none from it. */
  lemma {:induction false} OwnershipAt(uid: string, other: string, s: RuleMap, ws: seq<Write>, k: Key)
    requires uid != other && Expected(ws) !! OwnedKeys(s, other) && OwnedKeys(s, uid) !! OwnedKeys(s, other)
    ensures k in OwnedKeys(Sync(uid, s, ws), other) <==> k in OwnedKeys(s, other)
  {
    SyncAt(uid, s, ws, k);
    var s' := Sync(uid, s, ws);
    OwnedExactly(s, other, k);
    OwnedExactly(s', other, k);
    if k in s && k in s' { assert s'[k].owners == s[k].owners; }
  }
}
