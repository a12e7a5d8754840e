/** cleanupStalePortMappings: the filter that drops the entries of services that are gone. */
module Cleanup {
  import opened Model
  import opened PortChecks
  import opened Entries

  /** The service an entry stands for, seen from the mapping's namespace. */
  function EntryService(item: ServicePortsRef, namespace: string): Key
  {
    item.ref.Resolve(namespace)
  }

  /** The entries of existing services, in order. */
  function Existing(items: seq<ServicePortsRef>, namespace: string, services: set<Key>): seq<ServicePortsRef>
  {
    if items == [] then []
    else
      var last := items[|items| - 1];
      Existing(items[..|items| - 1], namespace, services)
      + (if EntryService(last, namespace) in services then [last] else [])
  }

  method CleanupStalePortMappings(items: seq<ServicePortsRef>, namespace: string, services: set<Key>)
    returns (validPorts: seq<ServicePortsRef>, modified: bool)
    ensures validPorts == Existing(items, namespace, services)
    ensures modified <==> validPorts != items
  {
    validPorts, modified := [], false;
    for i := 0 to |items|
      invariant validPorts == Existing(items[..i], namespace, services)
      invariant if modified then |validPorts| < i else validPorts == items[..i]
    {
      assert items[..i + 1][..i] == items[..i];
      if EntryService(items[i], namespace) in services {
        validPorts := validPorts + [items[i]];
      } else {
        modified := true;
      }
    }
    assert items[..|items|] == items;
  }

  /** Positions of the kept entries: increasing, and exactly those of existing services. */
  ghost predicate KeptAt(items: seq<ServicePortsRef>, namespace: string, services: set<Key>,
                         kept: seq<ServicePortsRef>, at: seq<nat>)
  {
    && |at| == |kept| && (forall i, j :: 0 <= i < j < |at| ==> at[i] < at[j])
    && (forall i :: 0 <= i < |at| ==> at[i] < |items| && kept[i] == items[at[i]])
    && (forall k :: 0 <= k < |items| ==>
          var ref := items[k].ref;
          (k in at <==> Key(if ref.namespace == "" then namespace else ref.namespace, ref.name) in services))
  }

  lemma {:induction false} KeptAtSnoc(items: seq<ServicePortsRef>, item: ServicePortsRef, namespace: string,
                                      services: set<Key>,
                                     kept: seq<ServicePortsRef>, at: seq<nat>)
    requires KeptAt(items, namespace, services, kept, at)
    ensures EntryService(item, namespace) in services
            ==> KeptAt(items + [item], namespace, services, kept + [item], at + [|items|])
    ensures EntryService(item, namespace) !in services ==> KeptAt(items + [item], namespace, services, kept, at)
  {
    var all := items + [item];
    assert all[|items|] == item;
    if EntryService(item, namespace) in services {
      var at' := at + [|items|];
      assert at'[|at|] == |items|;
      assert forall i :: 0 <= i < |at| ==> at'[i] == at[i];
      forall k | 0 <= k < |all| && EntryService(all[k], namespace) in services ensures k in at' {
        assert k < |items| ==> k in at;
      }
    } else {
      forall k | 0 <= k < |all| && EntryService(all[k], namespace) in services ensures k in at {
        assert k < |items|;
      }
    }
  }

  /** The filter keeps the entries of existing services, all of them, in their order. */
  lemma {:induction false} CleanupKeepsOrder(items: seq<ServicePortsRef>, namespace: string, services: set<Key>)
    returns (at: seq<nat>)
    ensures KeptAt(items, namespace, services, Existing(items, namespace, services), at)
  {
    at := [];
    if items != [] {
      var n := |items| - 1;
      assert items == items[..n] + [items[n]];
      at := CleanupKeepsOrder(items[..n], namespace, services);
      KeptAtSnoc(items[..n], items[n], namespace, services, Existing(items[..n], namespace, services), at);
      if EntryService(items[n], namespace) in services {
        at := at + [n];
      }
    }
  }

  /** Cleaning up keeps a mapping admissible and its entries unique. */
  lemma {:induction false} CleanupKeepsInvariants(items: seq<ServicePortsRef>, namespace: string, services: set<Key>)
    ensures InternalOK(items) ==> InternalOK(Existing(items, namespace, services))
    ensures UniqueKeys(items) ==> UniqueKeys(Existing(items, namespace, services))
  {
    var at := CleanupKeepsOrder(items, namespace, services);
    var kept := Existing(items, namespace, services);
    if InternalOK(items) {
      forall k, l | 0 <= k < l < |kept| && kept[k].ref.name != kept[l].ref.name
        ensures EntriesDisjoint(kept[k], kept[l])
      {
        assert EntriesDisjoint(items[at[k]], items[at[l]]);
      }
    }
  }
}
