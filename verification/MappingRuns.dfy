/** Every run of the controllers on one port mapping. A reconcile reads the entry list,
    possibly stale, edits its copy, and later patches the whole list back: a JSON merge
    patch replaces arrays (section 2 of RFC 7396) and carries no version check. */
module MappingRuns {
  import opened Wrappers
  import opened Model
  import opened PortChecks
  import opened MappingChecks
  import opened Entries
  import opened Lifecycle

  /** The four ways the controllers edit the list: the binding controller upserts, the
      service controller overwrites an entry or appends one, both splice one out. */
  datatype Edit =
    | Put(service: Service)
    | Overwrite(service: Service)
    | Append(service: Service)
    | TakeOut(key: Key)
  {
    function Apply(items: seq<ServicePortsRef>): seq<ServicePortsRef>
    {
      match this
      case Put(s) => Upsert(items, s)
      case Overwrite(s) => if FindEntry(items, s.key) < |items| then Upsert(items, s) else items
      case Append(s) => if FindEntry(items, s.key) < |items| then items else items + [EntryFor(s)]
      case TakeOut(k) => Remove(items, k)
    }

    /** The one service whose entry the edit is about. */
    function Key(): Model.Key
    {
      match this
      case Put(s) => s.key
      case Overwrite(s) => s.key
      case Append(s) => s.key
      case TakeOut(k) => k
    }
  }

  /** The list as it has been at each write, the patches computed so far, the patches
      accepted so far in order, and whether the mapping is being deleted. */
  datatype Run = Run(
    past: seq<seq<ServicePortsRef>>,
    patches: seq<Patch>,
    accepted: seq<nat>,
    deleting: bool)
  {
    function Items(): seq<ServicePortsRef>
      requires past != []
    {
      past[|past| - 1]
    }
  }

  /** A prepared patch: the index of the list its reconcile read, and the list it sends. */
  datatype Patch = Patch(edit: Edit, read: nat, items: seq<ServicePortsRef>)

  datatype Event = Prepare(edit: Edit, read: nat) | Send(patch: nat) | MarkDeleted

  function Next(r: Run, e: Event): (r': Run)
    requires r.past != []
    ensures r'.past != []
  {
    match e
    case Prepare(edit, i) =>
      if i < |r.past| then r.(patches := r.patches + [Patch(edit, i, edit.Apply(r.past[i]))]) else r
    case Send(p) =>
      if p < |r.patches| && MappingUpdateAdmitted(PortMapping(r.patches[p].items, r.deleting))
      then r.(past := r.past + [r.patches[p].items], accepted := r.accepted + [p])
      else r
    case MarkDeleted => r.(deleting := true)
  }

  /** Each step by the fields: a prepared patch carries its edit of the list read; a sent one
      replaces the whole list exactly when the mapping is being deleted or the new list is
      admissible; nothing else changes. */
  lemma {:induction false} StepExactly(r: Run, e: Event)
    requires r.past != []
    ensures e.Prepare? && e.read < |r.past| ==>
              Next(r, e) == r.(patches := r.patches + [Patch(e.edit, e.read, e.edit.Apply(r.past[e.read]))])
    ensures e.Send? && e.patch < |r.patches| ==>
              Next(r, e) ==
              if r.deleting || InternalOK(r.patches[e.patch].items)
              then r.(past := r.past + [r.patches[e.patch].items], accepted := r.accepted + [e.patch]) else r
    ensures e.MarkDeleted? ==> Next(r, e) == r.(deleting := true)
    ensures (e.Prepare? && e.read >= |r.past|) || (e.Send? && e.patch >= |r.patches|) ==> Next(r, e) == r
  {
  }

  function After(r: Run, events: seq<Event>): (r': Run)
    requires r.past != []
    ensures r'.past != []
    decreases events
  {
    if events == [] then r else After(Next(r, events[0]), events[1..])
  }

  ghost predicate Inv(r: Run)
  {
    && r.past != [] && Healthy(PortMapping(r.Items(), r.deleting))
    && (forall i :: 0 <= i < |r.past| ==> UniqueKeys(r.past[i]))
    && (forall p :: 0 <= p < |r.patches| ==> UniqueKeys(r.patches[p].items))
  }

  lemma {:induction false} EditKeepsUnique(edit: Edit, items: seq<ServicePortsRef>)
    requires UniqueKeys(items)
    ensures UniqueKeys(edit.Apply(items))
  {
    match edit
    case Put(s) => UpsertKeepsUnique(items, s);
    case Overwrite(s) => UpsertKeepsUnique(items, s);
    case Append(s) => UpsertKeepsUnique(items, s);
    case TakeOut(k) => RemoveKeepsUnique(items, k);
  }

  lemma {:induction false} NextKeepsInv(r: Run, e: Event)
    requires Inv(r)
    ensures Inv(Next(r, e))
  {
    if e.Prepare? && e.read < |r.past| { EditKeepsUnique(e.edit, r.past[e.read]); }
  }

  lemma {:induction false} RunKeepsInv(r: Run, events: seq<Event>)
    requires Inv(r)
    ensures Inv(After(r, events))
    decreases events
  {
    if events != [] {
      NextKeepsInv(r, events[0]);
      RunKeepsInv(Next(r, events[0]), events[1..]);
    }
  }

  /** Over every run from a mapping with unique entries that the webhook accepts, every
      list ever stored has at most one entry per service, and the current one passes the
      whole-mapping check unless the mapping is being deleted. */
  lemma {:induction false} MappingInvariant(initial: PortMapping, events: seq<Event>)
    requires UniqueKeys(initial.items) && Healthy(initial)
    ensures var r := After(Run([initial.items], [], [], initial.deleting), events);
            && (forall i :: 0 <= i < |r.past| ==> UniqueKeys(r.past[i]))
            && (r.deleting || InternalOK(r.Items()))
  {
    RunKeepsInv(Run([initial.items], [], [], initial.deleting), events);
  }

  // ---------------------------------------------------------------------------
  // When an accepted edit is kept
  // ---------------------------------------------------------------------------

  /** The entry of a service in a list. */
  function EntryOf(items: seq<ServicePortsRef>, k: Key): Option<ServicePortsRef>
  {
    var i := FindEntry(items, k);
    if i < |items| then Some(items[i]) else None
  }

  /** Patches carry the lists they were computed from, and follow from them. */
  ghost predicate Prepared(r: Run)
  {
    && r.past != []
    && (forall p :: 0 <= p < |r.patches| ==>
          r.patches[p].read < |r.past| && r.patches[p].items == r.patches[p].edit.Apply(r.past[r.patches[p].read]))
    && (forall i :: 0 <= i < |r.accepted| ==> r.accepted[i] < |r.patches|)
  }

  predicate Sends(r: Run, p: nat)
  {
    p < |r.patches| && MappingUpdateAdmitted(PortMapping(r.patches[p].items, r.deleting))
  }

  lemma {:induction false} EntryOfAt(items: seq<ServicePortsRef>, k: Key, i: nat)
    requires i < |items| && items[i].IsFor(k) && forall j :: 0 <= j < i ==> !items[j].IsFor(k)
    ensures EntryOf(items, k) == Some(items[i])
  {
    var f := FindEntry(items, k);
    assert !(f < i) && !(i < f);
  }

  lemma {:induction false} EntryOfNone(items: seq<ServicePortsRef>, k: Key)
    requires forall j :: 0 <= j < |items| ==> !items[j].IsFor(k)
    ensures EntryOf(items, k) == None
  {
  }

  lemma {:induction false} UpsertKeepsOthers(items: seq<ServicePortsRef>, s: Service, k: Key)
    requires k != s.key
    ensures EntryOf(Upsert(items, s), k) == EntryOf(items, k)
  {
    var items', i := Upsert(items, s), FindEntry(items, k);
    assert forall j :: 0 <= j < |items| && !items[j].IsFor(s.key) ==> items'[j] == items[j];
    if i < |items| { EntryOfAt(items', k, i); } else { EntryOfNone(items', k); }
  }

  lemma {:induction false} RemoveKeepsOthers(items: seq<ServicePortsRef>, s: Key, k: Key)
    requires k != s
    ensures EntryOf(Remove(items, s), k) == EntryOf(items, k)
  {
    var items', i, n := Remove(items, s), FindEntry(items, k), FindEntry(items, s);
    if n < |items| {
      assert forall j :: 0 <= j < n ==> items'[j] == items[j];
      assert forall j :: n <= j < |items'| ==> items'[j] == items[j + 1];
      if i < |items| { EntryOfAt(items', k, if i < n then i else i - 1); } else { EntryOfNone(items', k); }
    }
  }

  /** What each edit does to its own service's entry: put it in, put it in if there is one, add
      it if there is none, or take it out. */
  lemma {:induction false} EditOwnEntry(edit: Edit, items: seq<ServicePortsRef>)
    requires UniqueKeys(items)
    ensures var before, now := EntryOf(items, edit.Key()), EntryOf(edit.Apply(items), edit.Key());
            match edit
            case Put(s) => now.Some? && now.value.ports == Converted(s.ingressPorts)
            case Overwrite(s) =>
              if before.None? then now == None else now == Some(before.value.(ports := Converted(s.ingressPorts)))
            case Append(s) => if before.Some? then now == before
                else now.Some? && now.value.ports == Converted(s.ingressPorts)
            case TakeOut(_) => now == None
  {
    match edit
    case Put(s) => UpsertOwnEntry(items, s);
    case Overwrite(s) => UpsertOwnEntry(items, s);
    case Append(s) => UpsertOwnEntry(items, s);
    case TakeOut(k) => RemoveKeepsUnique(items, k);
  }

  lemma {:induction false} UpsertOwnEntry(items: seq<ServicePortsRef>, s: Service)
    ensures var before, now := EntryOf(items, s.key), EntryOf(Upsert(items, s), s.key);
            && now.Some? && now.value.ports == Converted(s.ingressPorts)
            && (before.Some? ==> now.value == before.value.(ports := Converted(s.ingressPorts)))
  {
    UpsertExact(items, s);
  }

  /** An edit leaves every other service's entry as the list it was made from has it. */
  lemma {:induction false} EditKeepsOthers(edit: Edit, items: seq<ServicePortsRef>, k: Key)
    requires k != edit.Key()
    ensures EntryOf(edit.Apply(items), k) == EntryOf(items, k)
  {
    match edit
    case Put(s) => UpsertKeepsOthers(items, s, k);
    case Overwrite(s) => UpsertKeepsOthers(items, s, k);
    case Append(s) => UpsertKeepsOthers(items, s, k);
    case TakeOut(s) => RemoveKeepsOthers(items, s, k);
  }

  /** What an accepted patch leaves of any other service is what its read saw, to the entry:
      an edit accepted in between is kept exactly when that patch had read it. */
  lemma {:induction false} AcceptedPatchKeepsExactly(r: Run, p: nat, k: Key)
    requires Prepared(r) && Sends(r, p) && k != r.patches[p].edit.Key()
    ensures EntryOf(Next(r, Send(p)).Items(), k) == EntryOf(r.past[r.patches[p].read], k)
    ensures EntryOf(Next(r, Send(p)).Items(), k) == EntryOf(r.Items(), k) <==>
            EntryOf(r.past[r.patches[p].read], k) == EntryOf(r.Items(), k)
  {
    EditKeepsOthers(r.patches[p].edit, r.past[r.patches[p].read], k);
  }

  lemma {:induction false} NextKeepsPrepared(r: Run, e: Event)
    requires Prepared(r)
    ensures Prepared(Next(r, e))
    ensures r.past <= Next(r, e).past && r.patches <= Next(r, e).patches && r.accepted <= Next(r, e).accepted
  {
  }

  lemma {:induction false} RunKeepsPrepared(r: Run, events: seq<Event>)
    requires Prepared(r)
    ensures Prepared(After(r, events)) && r.patches <= After(r, events).patches
    decreases events
  {
    if events != [] {
      NextKeepsPrepared(r, events[0]);
      RunKeepsPrepared(Next(r, events[0]), events[1..]);
    }
  }

  /** No patch about the service is accepted in the run, and each accepted patch read the
      service's entry as it stood when the patch was accepted. */
  predicate SeesEntry(r: Run, events: seq<Event>, k: Key)
    requires r.past != []
    decreases events
  {
    events != [] ==>
      && (events[0].Send? && Sends(r, events[0].patch) ==>
            var patch := r.patches[events[0].patch];
            patch.edit.Key() != k && patch.read < |r.past| && EntryOf(r.past[patch.read], k) == EntryOf(r.Items(), k))
      && SeesEntry(Next(r, events[0]), events[1..], k)
  }

  predicate SendsNothingAbout(r: Run, events: seq<Event>, k: Key)
    requires r.past != []
    decreases events
  {
    events != [] ==>
      && (events[0].Send? && Sends(r, events[0].patch) ==> r.patches[events[0].patch].edit.Key() != k)
      && SendsNothingAbout(Next(r, events[0]), events[1..], k)
  }

  predicate EntryStays(r: Run, events: seq<Event>, k: Key, entry: Option<ServicePortsRef>)
    requires r.past != []
    decreases events
  {
    EntryOf(r.Items(), k) == entry && (events != [] ==> EntryStays(Next(r, events[0]), events[1..], k, entry))
  }

  /** Over every run without a patch about the service, its entry stays as it is throughout
      exactly when every patch accepted meanwhile had read that entry. */
  lemma {:induction false} EntryStaysExactly(r: Run, events: seq<Event>, k: Key)
    requires Prepared(r) && SendsNothingAbout(r, events, k)
    ensures EntryStays(r, events, k, EntryOf(r.Items(), k)) <==> SeesEntry(r, events, k)
    decreases events
  {
    if events != [] {
      var r' := Next(r, events[0]);
      NextKeepsPrepared(r, events[0]);
      EntryStaysExactly(r', events[1..], k);
      if events[0].Send? && Sends(r, events[0].patch) {
        AcceptedPatchKeepsExactly(r, events[0].patch, k);
      } else {
        assert r'.Items() == r.Items();
      }
    }
  }

  // ---------------------------------------------------------------------------
  // When the list is the replay of what was accepted
  // ---------------------------------------------------------------------------

  /** The list as the accepted edits would leave it, one after the other. */
  function Replay(items: seq<ServicePortsRef>, patches: seq<Patch>, accepted: seq<nat>): seq<ServicePortsRef>
    requires forall i :: 0 <= i < |accepted| ==> accepted[i] < |patches|
  {
    if accepted == [] then items
    else patches[accepted[|accepted| - 1]].edit.Apply(Replay(items, patches, accepted[..|accepted| - 1]))
  }

  /** Every accepted patch of the run read the list as it is when the patch is accepted. */
  predicate ReadsCurrent(r: Run, events: seq<Event>)
    requires r.past != []
    decreases events
  {
    events != [] ==>
      && (events[0].Send? && Sends(r, events[0].patch) ==>
            r.patches[events[0].patch].read < |r.past| && r.past[r.patches[events[0].patch].read] == r.Items())
      && ReadsCurrent(Next(r, events[0]), events[1..])
  }

  lemma {:induction false} ReplayPrefix(items: seq<ServicePortsRef>, patches: seq<Patch>, patches': seq<Patch>,
                                        accepted: seq<nat>)
    requires forall i :: 0 <= i < |accepted| ==> accepted[i] < |patches|
    requires patches <= patches'
    ensures Replay(items, patches, accepted) == Replay(items, patches', accepted)
  {
    if accepted != [] { ReplayPrefix(items, patches, patches', accepted[..|accepted| - 1]); }
  }

  lemma {:induction false} NextReplays(initial: seq<ServicePortsRef>, r: Run, e: Event)
    requires Prepared(r) && r.Items() == Replay(initial, r.patches, r.accepted)
    requires e.Send? && Sends(r, e.patch) ==> r.past[r.patches[e.patch].read] == r.Items()
    ensures Prepared(Next(r, e)) && Next(r, e).Items() == Replay(initial, Next(r, e).patches, Next(r, e).accepted)
  {
    var r' := Next(r, e);
    NextKeepsPrepared(r, e);
    ReplayPrefix(initial, r.patches, r'.patches, r.accepted);
    if e.Send? && Sends(r, e.patch) {
      assert r'.accepted[..|r.accepted|] == r.accepted;
    }
  }

  /** No accepted edit is lost over any run in which each accepted patch had read the list
      it replaces: the list is the sequential replay of exactly the accepted edits. */
  lemma {:induction false} CurrentReadsReplay(initial: seq<ServicePortsRef>, r: Run, events: seq<Event>)
    requires Prepared(r) && r.Items() == Replay(initial, r.patches, r.accepted) && ReadsCurrent(r, events)
    ensures Prepared(After(r, events))
    ensures After(r, events).Items() == Replay(initial, After(r, events).patches, After(r, events).accepted)
    decreases events
  {
    if events != [] {
      NextReplays(initial, r, events[0]);
      CurrentReadsReplay(initial, Next(r, events[0]), events[1..]);
    }
  }

  // ---------------------------------------------------------------------------
  // An accepted edit can be lost
  // ---------------------------------------------------------------------------

  /** Unlike a service's group list, this list can lose an accepted edit: after any admitted
      run, two binding reconciles that read the same list before either writes, of services
      without an entry in it, both succeed if admitted, and the earlier one's entry is gone. */
  lemma {:induction false} PatchCanBeLost(r: Run, a: Service, b: Service)
    requires Prepared(r) && a.key != b.key
    requires EntryOf(r.Items(), a.key) == None
    requires MappingUpdateAdmitted(PortMapping(Upsert(r.Items(), a), r.deleting))
    requires MappingUpdateAdmitted(PortMapping(Upsert(r.Items(), b), r.deleting))
    ensures var n, v := |r.patches|, |r.past| - 1;
            var r1 := After(r, [Prepare(Put(a), v), Prepare(Put(b), v), Send(n)]);
            var r2 := After(r, [Prepare(Put(a), v), Prepare(Put(b), v), Send(n), Send(n + 1)]);
            && r2.accepted == r.accepted + [n, n + 1]
            && EntryOf(r1.Items(), a.key).Some? && EntryOf(r2.Items(), a.key) == None
  {
    var n, v := |r.patches|, |r.past| - 1;
    var r2 := Next(Next(r, Prepare(Put(a), v)), Prepare(Put(b), v));
    FourSteps(r, Prepare(Put(a), v), Prepare(Put(b), v), Send(n), Send(n + 1));
    assert r2 == r.(patches := r.patches + [Patch(Put(a), v, Upsert(r.Items(), a)),
           Patch(Put(b), v, Upsert(r.Items(), b))]);
    SecondSendLoses(r2, n, v, a, b);
  }

  /** Two patches prepared from one list: the second takes the first one's entry away. */
  lemma {:induction false} SecondSendLoses(r: Run, n: nat, v: nat, a: Service, b: Service)
    requires Prepared(r) && |r.patches| == n + 2 && v == |r.past| - 1 && a.key != b.key
    requires r.patches[n].edit == Put(a) && r.patches[n + 1].edit == Put(b)
    requires r.patches[n].read == r.patches[n + 1].read == v && EntryOf(r.Items(), a.key) == None
    requires Sends(r, n) && Sends(r, n + 1)
    ensures var r1 := Next(r, Send(n)); var r2 := Next(r1, Send(n + 1));
            && r2.accepted == r.accepted + [n, n + 1]
            && EntryOf(r1.Items(), a.key).Some? && EntryOf(r2.Items(), a.key) == None
  {
    var r1 := Next(r, Send(n));
    SendEffect(r, n);
    assert r1.patches == r.patches && r1.past[v] == r.Items() && r1.Items() == Upsert(r.Items(), a);
    UpsertHasEntry(r.Items(), a);
    AcceptedPatchKeepsExactly(r1, n + 1, a.key);
    SendEffect(r1, n + 1);
    assert r1.accepted + [n + 1] == r.accepted + [n, n + 1];
  }

  lemma {:induction false} SendEffect(r: Run, p: nat)
    requires Prepared(r) && Sends(r, p)
    ensures Prepared(Next(r, Send(p)))
    ensures Next(r, Send(p)) == r.(past := r.past + [r.patches[p].items], accepted := r.accepted + [p])
  {
    NextKeepsPrepared(r, Send(p));
  }

  lemma {:induction false} UpsertHasEntry(items: seq<ServicePortsRef>, s: Service)
    ensures EntryOf(Upsert(items, s), s.key).Some?
  {
    UpsertExact(items, s);
  }

  lemma {:induction false} FourSteps(r: Run, a: Event, b: Event, c: Event, d: Event)
    requires r.past != []
    ensures After(r, [a, b, c]) == Next(Next(Next(r, a), b), c)
    ensures After(r, [a, b, c, d]) == Next(Next(Next(Next(r, a), b), c), d)
  {
    assert [a, b, c, d][1..] == [b, c, d] && [b, c, d][1..] == [c, d] && [c, d][1..] == [d] && [d][1..] == [];
    assert [a, b, c][1..] == [b, c] && [b, c][1..] == [c] && [c][1..] == [];
    var r1 := Next(r, a);
    var r2 := Next(r1, b);
    var r3 := Next(r2, c);
    assert After(r, [a, b, c]) == After(r1, [b, c]) == After(r2, [c]) == After(r3, []);
    assert After(r, [a, b, c, d]) == After(r1, [b, c, d]) == After(r2, [c, d]) == After(r3, [d]);
    assert After(r3, [d]) == After(Next(r3, d), []);
  }
}
