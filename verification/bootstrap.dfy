/** Cold-start assembly: rebuilding the tracked list from the load balancers found in AWS. The
    per-load-balancer goroutines are modelled as a sequential fold in discovery order. */
module Bootstrap {
  import opened Entities

  /** `NewALBIngressFromLoadBalancer`: the entity a load balancer belongs to, or None when the
      load balancer is not one of this cluster's (the `ok` flag is false). */
  type LoadBalancerReader = (string, LoadBalancer) -> Option<ALBIngress>

  /** Every entity the reader gives for a discovered load balancer holds at least one handle. The
      merge step reads `LoadBalancers[0]` of an entity already assembled, which would panic on an
      empty list. */
  ghost predicate YieldsHandles(cluster: string, fromLB: LoadBalancerReader, discovered: seq<LoadBalancer>)
  {
    forall k :: 0 <= k < |discovered| && fromLB(cluster, discovered[k]).Some? ==>
      |fromLB(cluster, discovered[k]).value.loadBalancers| > 0
  }

  ghost predicate HasHandles(list: seq<ALBIngress>)
  {
    forall j :: 0 <= j < |list| ==> |list[j].loadBalancers| > 0
  }

  /** The identities the discovered load balancers belong to. */
  ghost function DiscoveredIds(cluster: string, fromLB: LoadBalancerReader, discovered: seq<LoadBalancer>): set<Identity>
  {
    set k | 0 <= k < |discovered| && fromLB(cluster, discovered[k]).Some? :: fromLB(cluster, discovered[k]).value.id
  }

  // ---------------------------------------------------------------------------------------------
  // As written

  /** One discovered load balancer, as the code does it: skipped when the reader does not accept
      it; when its identity is already tracked, the tracked entity's own first handle is appended
      to its handles again; otherwise its entity is appended. */
  function AssembleStep(list: seq<ALBIngress>, found: Option<ALBIngress>): (r: seq<ALBIngress>)
    requires HasHandles(list)
    requires found.Some? ==> |found.value.loadBalancers| > 0
    ensures HasHandles(r)
    ensures UniqueIds(list) ==> UniqueIds(r)
  {
    match found
    case None => list
    case Some(e) =>
      var i := Find(list, e.id);
      if i >= 0 then
        var existing := list[i];
        list[i := existing.(loadBalancers := existing.loadBalancers + [existing.loadBalancers[0]])]
      else
        list + [e]
  }

  /** The list `assembleIngresses` leaves: every discovered load balancer folded in, in order. */
  function Assembled(cluster: string, fromLB: LoadBalancerReader, discovered: seq<LoadBalancer>): (r: seq<ALBIngress>)
    requires YieldsHandles(cluster, fromLB, discovered)
    ensures HasHandles(r) && UniqueIds(r)
  {
    if discovered == [] then []
    else
      var prefix := discovered[..|discovered| - 1];
      AssembleStep(Assembled(cluster, fromLB, prefix), fromLB(cluster, discovered[|discovered| - 1]))
  }

  /** The three cases of one step: a rejected load balancer changes nothing; a known identity keeps
      the count and the identities, and its entity gains exactly one handle, a copy of its first,
      with nothing else changed; a new identity is appended. */
  lemma AssembleStepCases(list: seq<ALBIngress>, found: Option<ALBIngress>)
    requires HasHandles(list)
    requires found.Some? ==> |found.value.loadBalancers| > 0
    ensures found.None? ==> AssembleStep(list, found) == list
    ensures found.Some? && Find(list, found.value.id) >= 0 ==>
      var r, i := AssembleStep(list, found), Find(list, found.value.id);
      |r| == |list| && Ids(r) == Ids(list) &&
      r[i].id == list[i].id && r[i].desired == list[i].desired && r[i].tainted == list[i].tainted &&
      |r[i].loadBalancers| == |list[i].loadBalancers| + 1 &&
      r[i].loadBalancers[..|list[i].loadBalancers|] == list[i].loadBalancers &&
      r[i].loadBalancers[|list[i].loadBalancers|] == list[i].loadBalancers[0] &&
      forall j :: 0 <= j < |list| && j != i ==> r[j] == list[j]
    ensures found.Some? && Find(list, found.value.id) < 0 ==>
      AssembleStep(list, found) == list + [found.value] &&
      Ids(AssembleStep(list, found)) == Ids(list) + {found.value.id}
  {
    if found.Some? {
      var r, i := AssembleStep(list, found), Find(list, found.value.id);
      if i >= 0 {
        forall x ensures x in Ids(r) <==> x in Ids(list) {
          if x in Ids(r) {
            var j :| 0 <= j < |r| && r[j].id == x;
            assert list[j].id == x;
          }
          if x in Ids(list) {
            var j :| 0 <= j < |list| && list[j].id == x;
            assert r[j].id == x;
          }
        }
      } else {
        assert r == list + [found.value];
      }
    }
  }

  lemma StepIds(list: seq<ALBIngress>, found: Option<ALBIngress>)
    requires HasHandles(list)
    requires found.Some? ==> |found.value.loadBalancers| > 0
    ensures Ids(AssembleStep(list, found)) == Ids(list) + (if found.Some? then {found.value.id} else {})
  {
  }

  lemma DiscoveredIdsStep(cluster: string, fromLB: LoadBalancerReader, discovered: seq<LoadBalancer>)
    requires discovered != []
    ensures var last := fromLB(cluster, discovered[|discovered| - 1]);
      DiscoveredIds(cluster, fromLB, discovered)
      == DiscoveredIds(cluster, fromLB, discovered[..|discovered| - 1]) + (if last.Some? then {last.value.id} else {})
  {
  }

  /** The assembled list holds exactly the identities of the accepted load balancers, one entity
      per identity. */
  lemma {:induction false} AssembledIds(cluster: string, fromLB: LoadBalancerReader, discovered: seq<LoadBalancer>)
    requires YieldsHandles(cluster, fromLB, discovered)
    ensures Ids(Assembled(cluster, fromLB, discovered)) == DiscoveredIds(cluster, fromLB, discovered)
    ensures |Assembled(cluster, fromLB, discovered)| == |DiscoveredIds(cluster, fromLB, discovered)|
  {
    if discovered != [] {
      var prefix := discovered[..|discovered| - 1];
      var last := fromLB(cluster, discovered[|discovered| - 1]);
      AssembledIds(cluster, fromLB, prefix);
      StepIds(Assembled(cluster, fromLB, prefix), last);
      DiscoveredIdsStep(cluster, fromLB, discovered);
    }
    UniqueIdsCount(Assembled(cluster, fromLB, discovered));
  }

  /** The merge records no handle of the load balancer it was given: a handle that no tracked
      entity held before the step is held by none after it. */
  lemma MergeDropsDiscoveredHandle(list: seq<ALBIngress>, e: ALBIngress)
    requires HasHandles(list) && |e.loadBalancers| > 0
    requires Find(list, e.id) >= 0
    requires forall j :: 0 <= j < |list| ==> e.loadBalancers[0] !in list[j].loadBalancers
    ensures forall j :: 0 <= j < |AssembleStep(list, Some(e))| ==>
      e.loadBalancers[0] !in AssembleStep(list, Some(e))[j].loadBalancers
  {
  }

  /** A reader that attributes every load balancer to ns/foo. */
  const OwnedByFoo: LoadBalancerReader := (cluster, lb) => Some(ALBIngress("ns/foo", None, [lb], false))

  /** Two load balancers of one ingress: the code tracks one entity holding the first handle twice,
      and the second load balancer is forgotten. */
  lemma DuplicateOwnerExample()
    ensures YieldsHandles("c", OwnedByFoo, [LoadBalancer("arn1", "a"), LoadBalancer("arn2", "b")])
    ensures Assembled("c", OwnedByFoo, [LoadBalancer("arn1", "a"), LoadBalancer("arn2", "b")])
         == [ALBIngress("ns/foo", None, [LoadBalancer("arn1", "a"), LoadBalancer("arn1", "a")], false)]
  {
    var lb1, lb2 := LoadBalancer("arn1", "a"), LoadBalancer("arn2", "b");
    var e1 := ALBIngress("ns/foo", None, [lb1], false);
    assert OwnedByFoo("c", lb1) == Some(e1);
    assert OwnedByFoo("c", lb2) == Some(ALBIngress("ns/foo", None, [lb2], false));
    assert [lb1, lb2][..1] == [lb1];
    assert [lb1][..0] == [];
    assert Assembled("c", OwnedByFoo, []) == [];
    assert Find([], "ns/foo") == -1;
    assert Assembled("c", OwnedByFoo, [lb1]) == AssembleStep([], Some(e1)) == [e1];
    assert Find([e1], "ns/foo") == 0;
    assert [lb1] + [lb1] == [lb1, lb1];
    assert Assembled("c", OwnedByFoo, [lb1, lb2])
        == AssembleStep([e1], Some(ALBIngress("ns/foo", None, [lb2], false)))
        == [e1.(loadBalancers := [lb1, lb1])];
  }

  // ---------------------------------------------------------------------------------------------
  // Corrected merge: the discovered load balancer is recorded

  function AssembleStepIntended(list: seq<ALBIngress>, found: Option<ALBIngress>): (r: seq<ALBIngress>)
    requires HasHandles(list)
    requires found.Some? ==> |found.value.loadBalancers| > 0
    ensures HasHandles(r)
    ensures UniqueIds(list) ==> UniqueIds(r)
    ensures |list| <= |r|
    ensures forall j :: 0 <= j < |list| ==>
      r[j].id == list[j].id && list[j].loadBalancers <= r[j].loadBalancers
  {
    match found
    case None => list
    case Some(e) =>
      var i := Find(list, e.id);
      if i >= 0 then
        var existing := list[i];
        list[i := existing.(loadBalancers := existing.loadBalancers + [e.loadBalancers[0]])]
      else
        list + [e]
  }

  function AssembledIntended(cluster: string, fromLB: LoadBalancerReader, discovered: seq<LoadBalancer>): (r: seq<ALBIngress>)
    requires YieldsHandles(cluster, fromLB, discovered)
    ensures HasHandles(r) && UniqueIds(r)
  {
    if discovered == [] then []
    else
      var prefix := discovered[..|discovered| - 1];
      AssembleStepIntended(AssembledIntended(cluster, fromLB, prefix), fromLB(cluster, discovered[|discovered| - 1]))
  }

  /** Some entity of identity `id` in `list` holds handle `h`. */
  ghost predicate HoldsHandle(list: seq<ALBIngress>, id: Identity, h: LoadBalancer)
  {
    exists j :: 0 <= j < |list| && list[j].id == id && h in list[j].loadBalancers
  }

  /** With the corrected merge, every accepted load balancer's handle is held by the one entity of
      its identity: two load balancers of one ingress end up together in that entity. */
  lemma {:induction false} AssembledIntendedRecordsEveryHandle(cluster: string, fromLB: LoadBalancerReader, discovered: seq<LoadBalancer>)
    requires YieldsHandles(cluster, fromLB, discovered)
    ensures forall k :: 0 <= k < |discovered| && fromLB(cluster, discovered[k]).Some? ==>
      HoldsHandle(AssembledIntended(cluster, fromLB, discovered),
        fromLB(cluster, discovered[k]).value.id, fromLB(cluster, discovered[k]).value.loadBalancers[0])
  {
    if discovered != [] {
      var n := |discovered| - 1;
      var prefix := discovered[..n];
      var before := AssembledIntended(cluster, fromLB, prefix);
      var after := AssembledIntended(cluster, fromLB, discovered);
      AssembledIntendedRecordsEveryHandle(cluster, fromLB, prefix);
      forall k | 0 <= k < |discovered| && fromLB(cluster, discovered[k]).Some?
        ensures HoldsHandle(after, fromLB(cluster, discovered[k]).value.id, fromLB(cluster, discovered[k]).value.loadBalancers[0])
      {
        var e := fromLB(cluster, discovered[k]).value;
        if k < n {
          assert prefix[k] == discovered[k];
          assert HoldsHandle(before, e.id, e.loadBalancers[0]);
          var j :| 0 <= j < |before| && before[j].id == e.id && e.loadBalancers[0] in before[j].loadBalancers;
          assert before[j].loadBalancers <= after[j].loadBalancers;
          assert after[j].id == e.id && e.loadBalancers[0] in after[j].loadBalancers;
        } else {
          var i := Find(before, e.id);
          if i >= 0 {
            assert after[i].loadBalancers == before[i].loadBalancers + [e.loadBalancers[0]];
            assert after[i].id == e.id && e.loadBalancers[0] in after[i].loadBalancers;
          } else {
            assert after[|before|] == e;
            assert e.loadBalancers[0] in after[|before|].loadBalancers;
          }
        }
      }
    }
  }
}
