/** Values the controller works on: ingress resources, the load balancers found in AWS, and the
    tracked entity (ALBIngress) that ties one ingress to its load balancers. */
module Entities {

  datatype Option<+T> = None | Some(value: T)

  /** Go's fixed-width integers, as used for service ports. */
  newtype int32 = x: int | -0x8000_0000 <= x < 0x8000_0000
  newtype int64 = x: int | -0x8000_0000_0000_0000 <= x < 0x8000_0000_0000_0000

  /** The namespace/name key that matches an entity across update cycles. */
  type Identity = string

  /** The routing intent derived from an ingress; its inner structure is not part of this model. */
  type DesiredState = string

  /** An ingress resource as listed from Kubernetes. */
  datatype Ingress = Ingress(namespace: string, name: string, annotations: map<string, string>)

  /** An application load balancer as described by AWS. */
  datatype LoadBalancer = LoadBalancer(arn: string, name: string)

  /** A tracked entity. `desired` is None once the desired state has been stripped for teardown. */
  datatype ALBIngress = ALBIngress(
    id: Identity,
    desired: Option<DesiredState>,
    loadBalancers: seq<LoadBalancer>,
    tainted: bool)

  /** Clears the desired state, which tells convergence to tear the entity's resources down. */
  function StripDesiredState(e: ALBIngress): ALBIngress
  {
    e.(desired := None)
  }

  /** `ALBIngressesT.find`: the first index holding an entity with identity `id`, or -1. */
  function Find(list: seq<ALBIngress>, id: Identity): (i: int)
    ensures -1 <= i < |list|
    ensures 0 <= i ==> list[i].id == id
    ensures forall j :: 0 <= j < |list| && (i < 0 || j < i) ==> list[j].id != id
  {
    if list == [] then -1
    else if list[0].id == id then 0
    else
      var i := Find(list[1..], id);
      if i < 0 then -1 else i + 1
  }

  /** No two entities of a list share an identity. */
  ghost predicate UniqueIds(s: seq<ALBIngress>)
  {
    forall i, j :: 0 <= i < j < |s| ==> s[i].id != s[j].id
  }

  ghost function Ids(s: seq<ALBIngress>): set<Identity>
  {
    set e | e in s :: e.id
  }

  lemma UniqueIdsConcat(a: seq<ALBIngress>, c: seq<ALBIngress>)
    requires UniqueIds(a) && UniqueIds(c)
    requires forall i, j :: 0 <= i < |a| && 0 <= j < |c| ==> a[i].id != c[j].id
    ensures UniqueIds(a + c)
  {
  }

  /** A list whose identities are unique holds exactly one entity per identity. */
  lemma {:induction false} UniqueIdsCount(s: seq<ALBIngress>)
    requires UniqueIds(s)
    ensures |Ids(s)| == |s|
  {
    if s != [] {
      var s' := s[..|s| - 1];
      var x := s[|s| - 1];
      UniqueIdsCount(s');
      assert s == s' + [x];
      assert Ids(s) == Ids(s') + {x.id};
      forall e | e in s' ensures e.id != x.id {
        var k :| 0 <= k < |s'| && s'[k] == e;
        assert s[k] == e;
      }
      assert x.id !in Ids(s');
    }
  }
}
