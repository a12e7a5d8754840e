/** UpdateWithRetry, and what its version check buys: no accepted change of a service's
    address groups is ever lost, whatever the interleaving. */
module Retry {
  import opened Model
  import opened Lifecycle

  const DEFAULT_RETRY_INTERVAL_MS: nat := 100

  function Pow2(n: nat): nat
  {
    if n == 0 then 1 else 2 * Pow2(n - 1)
  }

  /** The backoff of n conflicts: interval times 1, 2, 4 and so on. */
  function Backoff(n: nat): nat
  {
    if n == 0 then 0 else Backoff(n - 1) + DEFAULT_RETRY_INTERVAL_MS * Pow2(n - 1)
  }

  /** A call that makes at most n attempts waits at most the interval times 2^n - 1. */
  lemma {:induction false} BackoffBound(i: nat, n: nat)
    requires i <= n
    ensures Backoff(i) <= Backoff(n) == 100 * (Pow2(n) - 1)
  {
    if i < n { BackoffBound(i, n - 1); } else if i > 0 { BackoffBound(i - 1, i - 1); }
  }

  datatype Outcome = Updated | Refused | Unreadable | Exhausted

  /** What other clients and the API server do around one attempt: the values others write
      just before it, whether the update is refused for a reason other than a conflict, and
      whether the read after a conflict fails. */
  datatype Surroundings<V> = Surroundings(foreign: seq<V>, updateFault: bool, getFault: bool)

  datatype UpdateReply = Accepted | Conflict | Fault

  /** One stored object under optimistic concurrency: an update must carry the version. */
  class StoredObject<V> {
    var version: nat
    var value: V
    ghost var history: seq<V>

    ghost predicate Valid()
      reads this
    {
      |history| == version + 1 && history[version] == value
    }

    constructor (initial: V)
      ensures Valid() && history == [initial]
    {
      version, value, history := 0, initial, [initial];
    }

    method WriteForeign(values: seq<V>)
      requires Valid()
      modifies this
      ensures Valid() && history == old(history) + values
    {
      for i := 0 to |values|
        invariant Valid() && history == old(history) + values[..i]
      {
        value, version := values[i], version + 1;
        history := history + [values[i]];
      }
      assert values[..|values|] == values;
    }

    method Update(readVersion: nat, newValue: V, fault: bool) returns (reply: UpdateReply)
      requires Valid()
      modifies this
      ensures Valid()
      ensures reply == if fault then Fault else if readVersion != old(version) then Conflict else Accepted
      ensures history == if reply == Accepted then old(history) + [newValue] else old(history)
    {
      if fault { return Fault; }
      if readVersion != version { return Conflict; }
      value, version := newValue, version + 1;
      history := history + [newValue];
      return Accepted;
    }

    /** One attempt, with what others write just before it. */
    method Attempt(readVersion: nat, newValue: V, around: Surroundings<V>) returns (reply: UpdateReply)
      requires Valid() && readVersion <= version
      modifies this
      ensures Valid() && readVersion <= version
      ensures reply == if around.updateFault then Fault
                       else if readVersion == old(version) && around.foreign == [] then Accepted else Conflict
      ensures history == old(history) + around.foreign + (if reply == Accepted then [newValue] else [])
      ensures reply == Conflict ==> readVersion < version
    {
      WriteForeign(around.foreign);
      reply := Update(readVersion, newValue, around.updateFault);
    }

    /** UpdateWithRetry for an object read at readVersion. The freshly read copy is never
        used: each attempt sends the same version and value. */
    method UpdateWithRetry(readVersion: nat, newValue: V, maxRetries: nat, around: nat -> Surroundings<V>)
      returns (outcome: Outcome, attempts: nat, waited: nat)
      requires Valid() && readVersion <= version
      modifies this
      ensures Valid()
      // It succeeds exactly when its first attempt does: nothing was written since the read.
      ensures outcome == Updated
              <==> maxRetries > 0 && readVersion == old(version) && around(0).foreign == [] && !around(0).updateFault
      ensures outcome == Updated ==> attempts == 1 && history == old(history) + [newValue]
      // Otherwise nothing of its own is stored, only what others wrote meanwhile.
      ensures outcome != Updated ==> history == old(history) + ForeignWrites(around, attempts)
      ensures attempts <= maxRetries
      ensures outcome != Exhausted ==> attempts > 0 && waited == Backoff(attempts - 1)
      ensures outcome == Exhausted ==> attempts == maxRetries && waited == Backoff(attempts)
    {
      waited := 0;
      for i := 0 to maxRetries
        invariant Valid() && readVersion <= version
        invariant history == old(history) + ForeignWrites(around, i) && waited == Backoff(i)
        invariant i == 0 ==> version == old(version)
        invariant i > 0 ==> readVersion < version && !(readVersion == old(version) && around(0).foreign == [])
      {
        ghost var before := ForeignWrites(around, i);
        assert old(history) + before + around(i).foreign == old(history) + ForeignWrites(around, i + 1);
        var reply := Attempt(readVersion, newValue, around(i));
        match reply {
          case Accepted =>
            assert i == 0 && old(history) + before + around(0).foreign == old(history);
            return Updated, i + 1, waited;
          case Fault => return Refused, i + 1, waited;
          case Conflict =>
            if around(i).getFault { return Unreadable, i + 1, waited; }
            waited := waited + DEFAULT_RETRY_INTERVAL_MS * Pow2(i);
        }
      }
      return Exhausted, maxRetries, waited;
    }
  }

  /** Everything others write before the first n attempts. */
  function ForeignWrites<V>(around: nat -> Surroundings<V>, n: nat): seq<V>
  {
    if n == 0 then [] else ForeignWrites(around, n - 1) + around(n - 1).foreign
  }

  // ---------------------------------------------------------------------------
  // Every interleaving of binding reconciles on one service
  // ---------------------------------------------------------------------------

  /** What a binding reconcile wants of Service.AddressGroups. */
  datatype Change = Add(group: ObjectRef) | Drop(group: ObjectRef)
  {
    function Apply(refs: seq<ObjectRef>): seq<ObjectRef>
    {
      match this
      case Add(g) => AddRef(refs, g)
      case Drop(g) => RemoveRef(refs, g)
    }
  }

  datatype Status = Pending | Succeeded | Failed

  /** A call of UpdateWithRetry in flight: the version it read and the list it will write. */
  datatype Call = Call(change: Change, readVersion: nat, refs: seq<ObjectRef>, conflicts: nat, status: Status)

  /** The service, every list it has held (by version), the calls, and the order of success. */
  datatype World = World(past: seq<seq<ObjectRef>>, calls: seq<Call>, log: seq<nat>)
  {
    function Version(): int { |past| - 1 }
  }

  /** One step of anyone: a reconcile reads some version, possibly stale, and starts its
      update; a call makes its next attempt; a call gives up on another error; another
      writer updates the service without touching the list. */
  datatype Action = Start(change: Change, readVersion: nat) | Attempt(call: nat) | GiveUp(call: nat) | OtherWrite

  function Next(w: World, a: Action, maxRetries: nat): World
    requires w.past != []
  {
    match a
    case Start(change, v) =>
      if v < |w.past|
      then
        var status := if maxRetries == 0 then Failed else Pending;
        w.(calls := w.calls + [Call(change, v, change.Apply(w.past[v]), 0, status)])
      else w
    case Attempt(c) =>
      if !(c < |w.calls| && w.calls[c].status == Pending) then w
      else if w.calls[c].readVersion == w.Version() then
        World(w.past + [w.calls[c].refs], w.calls[c := w.calls[c].(status := Succeeded)], w.log + [c])
      else
        w.(calls := w.calls[c := AfterConflict(w.calls[c], maxRetries)])
    case GiveUp(c) =>
      if c < |w.calls| && w.calls[c].status == Pending
          then w.(calls := w.calls[c := w.calls[c].(status := Failed)]) else w
    case OtherWrite => w.(past := w.past + [w.past[|w.past| - 1]])
  }

  function Run(w: World, actions: seq<Action>, maxRetries: nat): (w': World)
    requires w.past != []
    ensures w'.past != []
    decreases actions
  {
    if actions == [] then w else Run(Next(w, actions[0], maxRetries), actions[1..], maxRetries)
  }

  /** Each step by the fields. A reconcile computes its list from the version it read. A pending
      call's attempt is stored exactly when that version is still the current one; otherwise
      it counts a conflict, and fails with the last one allowed. Nothing else is stored by a
      call, and a call that is not pending does nothing. */
  lemma {:induction false} StepExactly(w: World, a: Action, maxRetries: nat)
    requires w.past != []
    ensures a.Start? && a.readVersion < |w.past| ==>
              && |Next(w, a, maxRetries).calls| == |w.calls| + 1 && Next(w, a, maxRetries).past == w.past
              && Next(w, a, maxRetries).calls[|w.calls|] == Call(
                   a.change, a.readVersion, a.change.Apply(w.past[a.readVersion]), 0, if maxRetries > 0
                       then Pending else Failed)
    ensures a.Attempt? && a.call < |w.calls| && w.calls[a.call].status == Pending ==>
              var call := w.calls[a.call];
              Next(w, a, maxRetries) ==
              if call.readVersion == |w.past| - 1 then
                World(w.past + [call.refs], w.calls[a.call := call.(status := Succeeded)], w.log + [a.call])
              else
                w.(calls := w.calls[a.call := call.(
                  conflicts := call.conflicts + 1,
                  status := if call.conflicts + 1 == maxRetries then Failed else Pending)])
    ensures a.GiveUp? && a.call < |w.calls| && w.calls[a.call].status == Pending ==>
              Next(w, a, maxRetries) == w.(calls := w.calls[a.call := w.calls[a.call].(status := Failed)])
    ensures (a.Attempt? || a.GiveUp?) && !(a.call < |w.calls| && w.calls[a.call].status == Pending) ==>
              Next(w, a, maxRetries) == w
    ensures a.OtherWrite? ==> Next(w, a, maxRetries) == w.(past := w.past + [w.past[|w.past| - 1]])
  {
  }

  /** The changes of the logged calls, applied one after the other. */
  function Replay(refs: seq<ObjectRef>, calls: seq<Call>, log: seq<nat>): seq<ObjectRef>
    requires forall i :: 0 <= i < |log| ==> log[i] < |calls|
  {
    if log == [] then refs
    else calls[log[|log| - 1]].change.Apply(Replay(refs, calls, log[..|log| - 1]))
  }

  predicate LogIsSuccesses(w: World)
  {
    && (forall i :: 0 <= i < |w.log| ==> w.log[i] < |w.calls| && w.calls[w.log[i]].status == Succeeded)
    && (forall i, j :: 0 <= i < j < |w.log| ==> w.log[i] != w.log[j])
    && (forall c :: 0 <= c < |w.calls| && w.calls[c].status == Succeeded ==> c in w.log)
  }

  predicate CallsOK(w: World, maxRetries: nat)
  {
    forall c :: 0 <= c < |w.calls| ==> CallOK(w, w.calls[c], maxRetries)
  }

  predicate CallOK(w: World, c: Call, maxRetries: nat)
  {
    && c.readVersion < |w.past| && c.refs == c.change.Apply(w.past[c.readVersion])
    && c.conflicts <= maxRetries
    && (c.status == Pending ==> c.conflicts < maxRetries && (c.conflicts > 0 ==> c.readVersion < w.Version()))
    && (c.status == Succeeded ==> c.conflicts == 0)
  }

  ghost predicate Inv(init: seq<ObjectRef>, w: World, maxRetries: nat)
  {
    && w.past != [] && LogIsSuccesses(w) && CallsOK(w, maxRetries)
    && w.past[|w.past| - 1] == Replay(init, w.calls, w.log)
  }

  /** Replaying depends only on the changes of the logged calls. */
  lemma {:induction false} ReplaySame(refs: seq<ObjectRef>, calls: seq<Call>, calls': seq<Call>, log: seq<nat>)
    requires |calls| <= |calls'| && forall c :: 0 <= c < |calls| ==> calls[c].change == calls'[c].change
    requires forall i :: 0 <= i < |log| ==> log[i] < |calls|
    ensures Replay(refs, calls, log) == Replay(refs, calls', log)
  {
    if log != [] { ReplaySame(refs, calls, calls', log[..|log| - 1]); }
  }

  lemma {:induction false} CommitLog(w: World, c: nat, refs: seq<ObjectRef>)
    requires LogIsSuccesses(w) && c < |w.calls| && w.calls[c].status == Pending
    ensures LogIsSuccesses(World(w.past + [refs], w.calls[c := w.calls[c].(status := Succeeded)], w.log + [c]))
  {
    var w' := World(w.past + [refs], w.calls[c := w.calls[c].(status := Succeeded)], w.log + [c]);
    assert c !in w.log by {
      assert forall i :: 0 <= i < |w.log| ==> w.calls[w.log[i]].status == Succeeded;
    }
    assert w'.log[|w.log|] == c;
    forall d | 0 <= d < |w'.calls| && w'.calls[d].status == Succeeded ensures d in w'.log {
      assert d != c ==> d in w.log;
    }
  }

  lemma {:induction false} CommitCalls(w: World, c: nat, maxRetries: nat)
    requires CallsOK(w, maxRetries) && c < |w.calls| && w.calls[c].status == Pending
             && w.calls[c].readVersion == w.Version()
    ensures CallsOK(World(w.past + [w.calls[c].refs], w.calls[c := w.calls[c].(status := Succeeded)], w.log + [c]),
            maxRetries)
  {
    forall d | 0 <= d < |w.calls| ensures CallOK(w, w.calls[d], maxRetries) {}
  }

  /** A commit appends its call to the log and its list to the versions. */
  lemma {:induction false} CommitKeepsInv(init: seq<ObjectRef>, w: World, c: nat, maxRetries: nat)
    requires Inv(init, w, maxRetries) && c < |w.calls| && w.calls[c].status == Pending
             && w.calls[c].readVersion == w.Version()
    ensures Inv(init, Next(w, Attempt(c), maxRetries), maxRetries)
  {
    var w' := Next(w, Attempt(c), maxRetries);
    CommitLog(w, c, w.calls[c].refs);
    CommitCalls(w, c, maxRetries);
    assert CallOK(w, w.calls[c], maxRetries);
    assert w'.log[..|w.log|] == w.log;
    ReplaySame(init, w.calls, w'.calls, w.log);
  }

  /** A pending call that goes on or fails. */
  lemma {:induction false} MoveOnLog(w: World, c: nat, call: Call)
    requires LogIsSuccesses(w) && c < |w.calls| && w.calls[c].status == Pending && call.status != Succeeded
    ensures LogIsSuccesses(w.(calls := w.calls[c := call]))
  {
    assert forall i :: 0 <= i < |w.log| ==> w.calls[w.log[i]].status == Succeeded;
  }

  lemma {:induction false} MoveOnCalls(w: World, c: nat, call: Call, maxRetries: nat)
    requires CallsOK(w, maxRetries) && c < |w.calls| && CallOK(w, call, maxRetries)
    ensures CallsOK(w.(calls := w.calls[c := call]), maxRetries)
  {
    var w' := w.(calls := w.calls[c := call]);
    forall d | 0 <= d < |w'.calls| ensures CallOK(w', w'.calls[d], maxRetries) {
      assert d != c ==> CallOK(w, w.calls[d], maxRetries);
    }
  }

  lemma {:induction false} CallMovesOn(init: seq<ObjectRef>, w: World, c: nat, call: Call, maxRetries: nat)
    requires Inv(init, w, maxRetries) && c < |w.calls| && w.calls[c].status == Pending
    requires call.status != Succeeded && call.change == w.calls[c].change && CallOK(w, call, maxRetries)
    ensures Inv(init, w.(calls := w.calls[c := call]), maxRetries)
  {
    MoveOnReplay(init, w, c, call);
    MoveOnLog(w, c, call);
    MoveOnCalls(w, c, call, maxRetries);
  }

  lemma {:induction false} MoveOnReplay(init: seq<ObjectRef>, w: World, c: nat, call: Call)
    requires LogIsSuccesses(w) && c < |w.calls| && call.change == w.calls[c].change
    ensures Replay(init, w.calls[c := call], w.log) == Replay(init, w.calls, w.log)
  {
    ReplaySame(init, w.calls, w.calls[c := call], w.log);
  }

  lemma {:induction false} StartLog(w: World, call: Call)
    requires LogIsSuccesses(w) && call.status != Succeeded
    ensures LogIsSuccesses(w.(calls := w.calls + [call]))
  {
  }

  lemma {:induction false} StartCalls(w: World, call: Call, maxRetries: nat)
    requires CallsOK(w, maxRetries) && CallOK(w, call, maxRetries)
    ensures CallsOK(w.(calls := w.calls + [call]), maxRetries)
  {
    var w' := w.(calls := w.calls + [call]);
    forall d | 0 <= d < |w'.calls| ensures CallOK(w', w'.calls[d], maxRetries) {
      assert d < |w.calls| ==> CallOK(w, w.calls[d], maxRetries);
    }
  }

  lemma {:induction false} CallStarts(init: seq<ObjectRef>, w: World, call: Call, maxRetries: nat)
    requires Inv(init, w, maxRetries) && call.status != Succeeded && CallOK(w, call, maxRetries)
    ensures Inv(init, w.(calls := w.calls + [call]), maxRetries)
  {
    ReplaySame(init, w.calls, w.calls + [call], w.log);
    StartLog(w, call);
    StartCalls(w, call, maxRetries);
  }

  lemma {:induction false} OtherWriteKeepsInv(init: seq<ObjectRef>, w: World, maxRetries: nat)
    requires Inv(init, w, maxRetries)
    ensures Inv(init, w.(past := w.past + [w.past[|w.past| - 1]]), maxRetries)
  {
    var w' := w.(past := w.past + [w.past[|w.past| - 1]]);
    forall d | 0 <= d < |w'.calls| ensures CallOK(w', w'.calls[d], maxRetries) {
      assert CallOK(w, w.calls[d], maxRetries);
    }
    assert LogIsSuccesses(w');
  }

  function AfterConflict(call: Call, maxRetries: nat): Call
  {
    var n := call.conflicts + 1;
    call.(conflicts := n, status := if n == maxRetries then Failed else Pending)
  }

  lemma {:induction false} ConflictKeepsCallOK(w: World, call: Call, maxRetries: nat)
    requires CallOK(w, call, maxRetries) && call.status == Pending && call.readVersion != w.Version()
    ensures CallOK(w, AfterConflict(call, maxRetries), maxRetries)
  {
  }

  lemma {:induction false} AttemptKeepsInv(init: seq<ObjectRef>, w: World, c: nat, maxRetries: nat)
    requires Inv(init, w, maxRetries) && c < |w.calls| && w.calls[c].status == Pending
    ensures Inv(init, Next(w, Attempt(c), maxRetries), maxRetries)
  {
    if w.calls[c].readVersion == w.Version() {
      CommitKeepsInv(init, w, c, maxRetries);
    } else {
      ConflictKeepsCallOK(w, w.calls[c], maxRetries);
      CallMovesOn(init, w, c, AfterConflict(w.calls[c], maxRetries), maxRetries);
      assert Next(w, Attempt(c), maxRetries) == w.(calls := w.calls[c := AfterConflict(w.calls[c], maxRetries)]);
    }
  }

  lemma {:induction false} NextKeepsInv(init: seq<ObjectRef>, w: World, a: Action, maxRetries: nat)
    requires Inv(init, w, maxRetries)
    ensures Inv(init, Next(w, a, maxRetries), maxRetries)
  {
    if a.Attempt? {
      if a.call < |w.calls| && w.calls[a.call].status == Pending { AttemptKeepsInv(init, w, a.call, maxRetries); }
    } else if a.OtherWrite? {
      OtherWriteKeepsInv(init, w, maxRetries);
    } else if a.GiveUp? {
      if a.call < |w.calls| && w.calls[a.call].status == Pending {
        assert CallOK(w, w.calls[a.call], maxRetries);
        CallMovesOn(init, w, a.call, w.calls[a.call].(status := Failed), maxRetries);
      }
    } else if a.readVersion < |w.past| {
      var refs := a.change.Apply(w.past[a.readVersion]);
      CallStarts(init, w, Call(a.change, a.readVersion, refs, 0, if maxRetries == 0 then Failed else Pending),
          maxRetries);
    }
  }

  lemma {:induction false} RunKeepsInv(init: seq<ObjectRef>, w: World, actions: seq<Action>, maxRetries: nat)
    requires Inv(init, w, maxRetries)
    ensures Inv(init, Run(w, actions, maxRetries), maxRetries)
    decreases actions
  {
    if actions != [] {
      NextKeepsInv(init, w, actions[0], maxRetries);
      RunKeepsInv(init, Next(w, actions[0], maxRetries), actions[1..], maxRetries);
    }
  }

  /** No lost update: after any interleaving of any number of reconciles, with stale reads,
      the stored list is the sequential replay of exactly the calls that succeeded; and a
      call that met a conflict never succeeds, its retries notwithstanding. */
  lemma {:induction false} NoLostUpdate(init: seq<ObjectRef>, actions: seq<Action>, maxRetries: nat)
    ensures var w := Run(World([init], [], []), actions, maxRetries);
            && LogIsSuccesses(w)
            && w.past[|w.past| - 1] == Replay(init, w.calls, w.log)
            && forall c :: 0 <= c < |w.calls| ==>
                 w.calls[c].conflicts <= maxRetries && (w.calls[c].conflicts > 0 ==> w.calls[c].status != Succeeded)
  {
    var w0 := World([init], [], []);
    assert Inv(init, w0, maxRetries);
    RunKeepsInv(init, w0, actions, maxRetries);
    var w := Run(w0, actions, maxRetries);
    assert forall c :: 0 <= c < |w.calls| ==> CallOK(w, w.calls[c], maxRetries);
  }

  // ---------------------------------------------------------------------------
  // In terms of the groups
  // ---------------------------------------------------------------------------

  predicate SameGroup(a: ObjectRef, b: ObjectRef)
  {
    a.name == b.name && a.namespace == b.namespace
  }

  /** No call logged after the i-th drops the group. */
  ghost predicate NotDroppedAfter(calls: seq<Call>, log: seq<nat>, i: nat, group: ObjectRef)
    requires forall l :: 0 <= l < |log| ==> log[l] < |calls|
  {
    forall l :: i < l < |log| && calls[log[l]].change.Drop? ==> !SameGroup(calls[log[l]].change.group, group)
  }

  lemma {:induction false} AddPutsGroup(refs: seq<ObjectRef>, added: ObjectRef, group: ObjectRef)
    requires SameGroup(added, group)
    ensures NamesGroup(AddRef(refs, added), group)
  {
    RefEditsExactly(refs, added);
    var refs' := AddRef(refs, added);
    var i :| 0 <= i < |refs'| && refs'[i].name == added.name && refs'[i].namespace == added.namespace;
    assert refs'[i].name == group.name;
  }

  lemma {:induction false} AddKeepsGroup(refs: seq<ObjectRef>, added: ObjectRef, group: ObjectRef)
    requires NamesGroup(refs, group)
    ensures NamesGroup(AddRef(refs, added), group)
  {
    var i :| 0 <= i < |refs| && refs[i].name == group.name && refs[i].namespace == group.namespace;
    assert AddRef(refs, added)[i] == refs[i];
  }

  lemma {:induction false} DropKeepsGroup(refs: seq<ObjectRef>, dropped: ObjectRef, group: ObjectRef)
    requires !SameGroup(dropped, group)
    ensures NamesGroup(refs, group) <==> NamesGroup(RemoveRef(refs, dropped), group)
  {
    var f, refs' := FindRef(refs, dropped), RemoveRef(refs, dropped);
    if i :| 0 <= i < |refs| && refs[i].name == group.name && refs[i].namespace == group.namespace {
      assert f < |refs| ==> refs[f].SameAs(dropped) && f != i;
      assert refs'[if i < f then i else i - 1] == refs[i];
    }
    if i :| 0 <= i < |refs'| && refs'[i].name == group.name && refs'[i].namespace == group.namespace {
      assert refs[if i < f then i else i + 1] == refs'[i];
    }
  }

  /** Adding a group puts it in; a change about another group neither puts it in nor takes it
      out. */
  lemma {:induction false} ChangeKeepsGroup(change: Change, refs: seq<ObjectRef>, group: ObjectRef)
    ensures change.Add? && SameGroup(change.group, group) ==> NamesGroup(change.Apply(refs), group)
    ensures !SameGroup(change.group, group) ==> (NamesGroup(refs, group) <==> NamesGroup(change.Apply(refs), group))
  {
    if change.Add? {
      if SameGroup(change.group, group) { AddPutsGroup(refs, change.group, group); }
      if NamesGroup(refs, group) { AddKeepsGroup(refs, change.group, group); }
      RefEditsExactly(refs, change.group);
    } else if !SameGroup(change.group, group) {
      DropKeepsGroup(refs, change.group, group);
    }
  }

  lemma {:induction false} ReplayKeepsGroup(init: seq<ObjectRef>, calls: seq<Call>, log: seq<nat>, i: nat,
                                            group: ObjectRef)
    requires forall l :: 0 <= l < |log| ==> log[l] < |calls|
    requires i < |log| && calls[log[i]].change.Add? && SameGroup(calls[log[i]].change.group, group)
    requires NotDroppedAfter(calls, log, i, group)
    ensures NamesGroup(Replay(init, calls, log), group)
    decreases |log|
  {
    var n := |log| - 1;
    ChangeKeepsGroup(calls[log[n]].change, Replay(init, calls, log[..n]), group);
    if i < n { ReplayKeepsGroup(init, calls, log[..n], i, group); }
  }

  /** A group whose addition succeeded, and which no later success drops, is in the stored
      list, whatever else was attempted in between. */
  lemma {:induction false} AddedGroupIsStored(init: seq<ObjectRef>, actions: seq<Action>, maxRetries: nat, c: nat)
    returns (i: nat)
    requires var w := Run(World([init], [], []), actions, maxRetries);
             c < |w.calls| && w.calls[c].status == Succeeded && w.calls[c].change.Add?
    ensures var w := Run(World([init], [], []), actions, maxRetries);
            && i < |w.log| && w.log[i] == c && LogIsSuccesses(w)
            && (NotDroppedAfter(w.calls, w.log, i, w.calls[c].change.group)
                ==> NamesGroup(w.past[|w.past| - 1], w.calls[c].change.group))
  {
    NoLostUpdate(init, actions, maxRetries);
    var w := Run(World([init], [], []), actions, maxRetries);
    i :| 0 <= i < |w.log| && w.log[i] == c;
    if NotDroppedAfter(w.calls, w.log, i, w.calls[c].change.group) {
      ReplayKeepsGroup(init, w.calls, w.log, i, w.calls[c].change.group);
    }
  }
}
