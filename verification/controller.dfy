/** The ALB controller: the tracked entity list it keeps between update cycles, and the methods
    that rebuild it (`OnUpdate`, `ingressToDelete`, `assembleIngresses`) and converge it (`Reload`).
    A Go nil list is the empty sequence: every list here is built by appending to nil, so it is nil
    exactly when it is empty. */
module Controller {
  import opened Entities
  import opened Filter
  import opened Diff
  import opened Bootstrap

  class ALBController {
    var albIngresses: seq<ALBIngress>
    var clusterName: string
    var ingressClass: string

    /** `NewALBController`: nothing is tracked yet. */
    constructor (clusterName: string, ingressClass: string)
      ensures this.albIngresses == []
      ensures this.clusterName == clusterName && this.ingressClass == ingressClass
    {
      this.albIngresses := [];
      this.clusterName := clusterName;
      this.ingressClass := ingressClass;
    }

    /** `validIngress`, with this controller's configured class. */
    predicate ManagesIngress(ing: Ingress)
      reads this
    {
      ValidIngress(ingressClass, ing)
    }

    /** `OnUpdate`: on a cold start (empty list) the list is first assembled from `discovered`;
        then the built list is built from `ingresses`, the previous entities whose ingress is gone
        are found, and the list is replaced by the built list followed by those. */
    method OnUpdate(ingresses: seq<Ingress>, build: IngressBuilder,
                    discovered: seq<LoadBalancer>, fromLB: LoadBalancerReader)
      requires YieldsHandles(clusterName, fromLB, discovered)
      modifies this`albIngresses
      ensures var prev := if old(albIngresses) == [] then Assembled(clusterName, fromLB, discovered)
                          else old(albIngresses);
        albIngresses == NextList(prev, BuildList(ingressClass, build, prev, ingresses))
    {
      if |albIngresses| == 0 {
        AssembleIngresses(discovered, fromLB);
      }
      ghost var prev := albIngresses;

      var built: seq<ALBIngress> := [];
      for k := 0 to |ingresses|
        invariant albIngresses == prev
        invariant built == BuildList(ingressClass, build, prev, ingresses[..k])
      {
        assert ingresses[..k + 1][..k] == ingresses[..k];
        var ing := ingresses[k];
        if !ManagesIngress(ing) {
          continue;
        }
        var outcome := build(albIngresses, ing);
        if outcome.entity == None {
          continue;
        }
        var e := outcome.entity.value;
        if outcome.failed {
          e := e.(tainted := true);
        }
        built := built + [e];
      }
      assert ingresses[..|ingresses|] == ingresses;

      var deletable := IngressToDelete(built);
      if |deletable| > 0 {
        built := built + deletable;
      }
      albIngresses := built;
    }

    /** `ingressToDelete`: the previous entities that qualify for deletion against `newList`,
        stripped, in order. Stripping happens in place, so the controller's list holds the stripped
        entities afterwards; a tainted entity is never touched. */
    method IngressToDelete(newList: seq<ALBIngress>) returns (deletable: seq<ALBIngress>)
      modifies this`albIngresses
      ensures deletable == DeletableIngresses(old(albIngresses), newList)
      ensures |albIngresses| == |old(albIngresses)|
      ensures forall k :: 0 <= k < |albIngresses| ==>
        albIngresses[k] == if QualifiesForDeletion(old(albIngresses)[k], newList)
                           then StripDesiredState(old(albIngresses)[k]) else old(albIngresses)[k]
      ensures forall k :: 0 <= k < |albIngresses| && old(albIngresses)[k].tainted ==>
        albIngresses[k] == old(albIngresses)[k]
    {
      var prev := albIngresses;
      deletable := [];
      for k := 0 to |prev|
        invariant |albIngresses| == |prev|
        invariant deletable == DeletableIngresses(prev[..k], newList)
        invariant forall j :: 0 <= j < |prev| ==>
          albIngresses[j] == if j < k && QualifiesForDeletion(prev[j], newList)
                             then StripDesiredState(prev[j]) else prev[j]
      {
        assert prev[..k + 1][..k] == prev[..k];
        var ingress := albIngresses[k];
        if ingress.tainted {
          continue;
        }
        if Find(newList, ingress.id) < 0 {
          if |ingress.loadBalancers| > 0 {
            albIngresses := albIngresses[k := StripDesiredState(ingress)];
            deletable := deletable + [albIngresses[k]];
          }
        }
      }
      assert prev[..|prev|] == prev;
    }

    /** `assembleIngresses`: the list is reset and rebuilt from the load balancers `discovered` in
        AWS (a failed listing ends the process and is not modelled). */
    method AssembleIngresses(discovered: seq<LoadBalancer>, fromLB: LoadBalancerReader)
      requires YieldsHandles(clusterName, fromLB, discovered)
      modifies this`albIngresses
      ensures albIngresses == Assembled(clusterName, fromLB, discovered)
      ensures UniqueIds(albIngresses)
    {
      albIngresses := [];
      for k := 0 to |discovered|
        invariant YieldsHandles(clusterName, fromLB, discovered[..k])
        invariant albIngresses == Assembled(clusterName, fromLB, discovered[..k])
      {
        assert discovered[..k + 1][..k] == discovered[..k];
        var albIngress := fromLB(clusterName, discovered[k]);
        if albIngress == None {
          continue;
        }
        var i := Find(albIngresses, albIngress.value.id);
        if i >= 0 {
          var existing := albIngresses[i];
          albIngresses := albIngresses[i := existing.(loadBalancers := existing.loadBalancers + [existing.loadBalancers[0]])];
        } else {
          albIngresses := albIngresses + [albIngress.value];
        }
      }
      assert discovered[..|discovered|] == discovered;
    }

    /** `Reload`: every tracked entity is converged once by `reconcile`, independently of the
        others; the list keeps its length and order. */
    method Reload(reconcile: ALBIngress -> ALBIngress)
      modifies this`albIngresses
      ensures |albIngresses| == |old(albIngresses)|
      ensures forall k :: 0 <= k < |albIngresses| ==> albIngresses[k] == reconcile(old(albIngresses)[k])
    {
      var prev := albIngresses;
      for k := 0 to |prev|
        invariant |albIngresses| == |prev|
        invariant forall j :: 0 <= j < |prev| ==> albIngresses[j] == if j < k then reconcile(prev[j]) else prev[j]
      {
        albIngresses := albIngresses[k := reconcile(albIngresses[k])];
      }
    }
  }
}
