/** The diff step of an update cycle: build the fresh entity list from the current ingresses, find
    the previous entities whose ingress is gone, and form the next list. */
module Diff {
  import opened Entities
  import opened Filter

  /** What `NewALBIngressFromIngress` returns: an entity or nil, and whether an error was reported. */
  datatype BuildOutcome = BuildOutcome(entity: Option<ALBIngress>, failed: bool)

  /** `NewALBIngressFromIngress`; besides the ingress it sees the controller's current list. */
  type IngressBuilder = (seq<ALBIngress>, Ingress) -> BuildOutcome

  // ---------------------------------------------------------------------------------------------
  // Building the fresh list

  /** What one ingress adds to the fresh list: nothing when it is filtered out or the builder gives
      nil; otherwise the built entity, tainted when the builder reported an error. */
  function Contribution(ingressClass: string, build: IngressBuilder, current: seq<ALBIngress>, ing: Ingress)
    : seq<ALBIngress>
  {
    if !ValidIngress(ingressClass, ing) then []
    else
      var outcome := build(current, ing);
      match outcome.entity
      case None => []
      case Some(e) => [if outcome.failed then e.(tainted := true) else e]
  }

  /** The fresh list built from `ingresses`, in their order. */
  function BuildList(ingressClass: string, build: IngressBuilder, current: seq<ALBIngress>, ingresses: seq<Ingress>)
    : seq<ALBIngress>
  {
    if ingresses == [] then []
    else
      BuildList(ingressClass, build, current, ingresses[..|ingresses| - 1])
      + Contribution(ingressClass, build, current, ingresses[|ingresses| - 1])
  }

  /** `e` is the entity the update cycle keeps for ingress `ing`: the ingress is managed, the
      builder gave an entity, and that entity is kept with `tainted` set exactly when the builder
      reported an error (or had already set it). */
  ghost predicate BuiltFrom(ingressClass: string, build: IngressBuilder, current: seq<ALBIngress>, ing: Ingress, e: ALBIngress)
  {
    var outcome := build(current, ing);
    ValidIngress(ingressClass, ing) && outcome.entity.Some? &&
    e.id == outcome.entity.value.id &&
    e.desired == outcome.entity.value.desired &&
    e.loadBalancers == outcome.entity.value.loadBalancers &&
    e.tainted == (outcome.failed || outcome.entity.value.tainted)
  }

  /** Building the list of a concatenation is concatenating the lists: the fresh list keeps the
      order of the ingresses, one ingress at a time. */
  lemma {:induction false} BuildListAppend(ingressClass: string, build: IngressBuilder, current: seq<ALBIngress>, s: seq<Ingress>, t: seq<Ingress>)
    ensures BuildList(ingressClass, build, current, s + t)
         == BuildList(ingressClass, build, current, s) + BuildList(ingressClass, build, current, t)
  {
    if t == [] {
      assert s + t == s;
    } else {
      var t' := t[..|t| - 1];
      assert (s + t)[..|s + t| - 1] == s + t';
      assert (s + t)[|s + t| - 1] == t[|t| - 1];
      BuildListAppend(ingressClass, build, current, s, t');
    }
  }

  /** Each entity of the fresh list was built from some managed ingress, and each managed ingress
      whose builder gives an entity contributes it; nothing else is in the list. */
  lemma {:induction false} BuildListMembers(ingressClass: string, build: IngressBuilder, current: seq<ALBIngress>, s: seq<Ingress>)
    ensures |BuildList(ingressClass, build, current, s)| <= |s|
    ensures forall e :: e in BuildList(ingressClass, build, current, s) <==>
      exists k :: 0 <= k < |s| && BuiltFrom(ingressClass, build, current, s[k], e)
  {
    if s != [] {
      var s' := s[..|s| - 1];
      var x := s[|s| - 1];
      BuildListMembers(ingressClass, build, current, s');
      forall e
        ensures e in BuildList(ingressClass, build, current, s) <==>
          exists k :: 0 <= k < |s| && BuiltFrom(ingressClass, build, current, s[k], e)
      {
        if e in BuildList(ingressClass, build, current, s) {
          if e in BuildList(ingressClass, build, current, s') {
            var k :| 0 <= k < |s'| && BuiltFrom(ingressClass, build, current, s'[k], e);
            assert s[k] == s'[k];
          } else {
            assert BuiltFrom(ingressClass, build, current, s[|s| - 1], e);
          }
        }
        if exists k :: 0 <= k < |s| && BuiltFrom(ingressClass, build, current, s[k], e) {
          var k :| 0 <= k < |s| && BuiltFrom(ingressClass, build, current, s[k], e);
          if k < |s'| {
            assert s'[k] == s[k];
          } else {
            var outcome := build(current, x);
            assert e == if outcome.failed then outcome.entity.value.(tainted := true) else outcome.entity.value;
          }
        }
      }
    }
  }

  // ---------------------------------------------------------------------------------------------
  // Entities whose ingress is gone

  /** A previous entity is torn down when it is not tainted, no entity of the fresh list has its
      identity, and it still owns load balancers. */
  predicate QualifiesForDeletion(e: ALBIngress, newList: seq<ALBIngress>)
  {
    !e.tainted && Find(newList, e.id) < 0 && |e.loadBalancers| > 0
  }

  /** What `ingressToDelete` returns: the qualifying previous entities, stripped, in their order. */
  function DeletableIngresses(prev: seq<ALBIngress>, newList: seq<ALBIngress>): seq<ALBIngress>
  {
    if prev == [] then []
    else
      var e := prev[|prev| - 1];
      DeletableIngresses(prev[..|prev| - 1], newList)
      + (if QualifiesForDeletion(e, newList) then [StripDesiredState(e)] else [])
  }

  /** The list an update cycle stores: the fresh list followed by the entities to tear down. */
  function NextList(prev: seq<ALBIngress>, built: seq<ALBIngress>): seq<ALBIngress>
  {
    built + DeletableIngresses(prev, built)
  }

  lemma {:induction false} DeletableAppend(s: seq<ALBIngress>, t: seq<ALBIngress>, newList: seq<ALBIngress>)
    ensures DeletableIngresses(s + t, newList) == DeletableIngresses(s, newList) + DeletableIngresses(t, newList)
  {
    if t == [] {
      assert s + t == s;
    } else {
      var t' := t[..|t| - 1];
      assert (s + t)[..|s + t| - 1] == s + t';
      assert (s + t)[|s + t| - 1] == t[|t| - 1];
      DeletableAppend(s, t', newList);
    }
  }

  /** Every entity handed out for teardown came from the previous list, qualified for deletion and
      was stripped: it is untainted, owns load balancers, has no desired state and its identity is
      not in the fresh list. */
  lemma {:induction false} DeletableSound(prev: seq<ALBIngress>, newList: seq<ALBIngress>)
    ensures |DeletableIngresses(prev, newList)| <= |prev|
    ensures forall e :: e in DeletableIngresses(prev, newList) ==>
      exists k :: 0 <= k < |prev| && QualifiesForDeletion(prev[k], newList) && e == StripDesiredState(prev[k])
    ensures forall e :: e in DeletableIngresses(prev, newList) ==>
      !e.tainted && e.desired == None && |e.loadBalancers| > 0 &&
      forall j :: 0 <= j < |newList| ==> newList[j].id != e.id
  {
    if prev != [] {
      var p' := prev[..|prev| - 1];
      DeletableSound(p', newList);
      forall e | e in DeletableIngresses(prev, newList)
        ensures exists k :: 0 <= k < |prev| && QualifiesForDeletion(prev[k], newList) && e == StripDesiredState(prev[k])
      {
        if e in DeletableIngresses(p', newList) {
          var k :| 0 <= k < |p'| && QualifiesForDeletion(p'[k], newList) && e == StripDesiredState(p'[k]);
          assert prev[k] == p'[k];
        } else {
          assert QualifiesForDeletion(prev[|prev| - 1], newList);
        }
      }
    }
  }

  /** Every previous entity that qualifies for deletion is handed out, stripped. */
  lemma {:induction false} DeletableComplete(prev: seq<ALBIngress>, newList: seq<ALBIngress>)
    ensures forall k :: 0 <= k < |prev| && QualifiesForDeletion(prev[k], newList) ==>
      StripDesiredState(prev[k]) in DeletableIngresses(prev, newList)
  {
    if prev != [] {
      var p' := prev[..|prev| - 1];
      DeletableComplete(p', newList);
      forall k | 0 <= k < |prev| && QualifiesForDeletion(prev[k], newList)
        ensures StripDesiredState(prev[k]) in DeletableIngresses(prev, newList)
      {
        if k < |p'| {
          assert prev[k] == p'[k];
        }
      }
    }
  }

  /** An entity already handed out for teardown qualifies again with the same fresh list, and
      stripping it again changes nothing. */
  lemma {:induction false} DeletableFixpoint(s: seq<ALBIngress>, newList: seq<ALBIngress>)
    requires forall e :: e in s ==> QualifiesForDeletion(e, newList) && e.desired == None
    ensures DeletableIngresses(s, newList) == s
  {
    if s != [] {
      var s' := s[..|s| - 1];
      var x := s[|s| - 1];
      forall e | e in s' ensures QualifiesForDeletion(e, newList) && e.desired == None {
        assert e in s;
      }
      DeletableFixpoint(s', newList);
      assert x in s;
      assert StripDesiredState(x) == x;
      assert DeletableIngresses(s, newList) == s' + [x];
      assert s == s' + [x];
    }
  }

  /** No entity of the fresh list qualifies for deletion against that same list. */
  lemma NothingDeletableAgainstItself(built: seq<ALBIngress>)
    ensures DeletableIngresses(built, built) == []
  {
    forall k | 0 <= k < |built| ensures Find(built, built[k].id) >= 0 {
    }
    NothingDeletableWhenAllFound(built, built);
  }

  lemma {:induction false} NothingDeletableWhenAllFound(s: seq<ALBIngress>, newList: seq<ALBIngress>)
    requires forall k :: 0 <= k < |s| ==> Find(newList, s[k].id) >= 0
    ensures DeletableIngresses(s, newList) == []
  {
    if s != [] {
      NothingDeletableWhenAllFound(s[..|s| - 1], newList);
    }
  }

  /** A previous entity that is not tainted, owns load balancers and whose identity is not built
      again stays in the next list, pending teardown: stripped, with its load balancers. */
  lemma PendingTeardown(prev: seq<ALBIngress>, built: seq<ALBIngress>, k: nat)
    requires k < |prev| && !prev[k].tainted && |prev[k].loadBalancers| > 0
    requires forall j :: 0 <= j < |built| ==> built[j].id != prev[k].id
    ensures exists e :: (e in NextList(prev, built) &&
      e.id == prev[k].id && e.desired == None && e.loadBalancers == prev[k].loadBalancers)
  {
    DeletableComplete(prev, built);
    assert StripDesiredState(prev[k]) in NextList(prev, built);
  }

  /** An identity that is not built again, and whose previous entities are all tainted or own no
      load balancer, is absent from the next list. For tainted entities this is the code as
      written: the entity is neither torn down nor kept. */
  lemma Dropped(prev: seq<ALBIngress>, built: seq<ALBIngress>, x: Identity)
    requires forall j :: 0 <= j < |built| ==> built[j].id != x
    requires forall k :: 0 <= k < |prev| && prev[k].id == x ==> prev[k].tainted || |prev[k].loadBalancers| == 0
    ensures forall e :: e in NextList(prev, built) ==> e.id != x
  {
    DeletableSound(prev, built);
  }

  /** Running the diff again with the same fresh list changes nothing: no spurious churn. */
  lemma NextListIdempotent(prev: seq<ALBIngress>, built: seq<ALBIngress>)
    ensures NextList(NextList(prev, built), built) == NextList(prev, built)
  {
    var d := DeletableIngresses(prev, built);
    DeletableAppend(built, d, built);
    NothingDeletableAgainstItself(built);
    DeletableSound(prev, built);
    forall e | e in d
      ensures QualifiesForDeletion(e, built) && e.desired == None
    {
      var i := Find(built, e.id);
    }
    DeletableFixpoint(d, built);
    calc {
      NextList(NextList(prev, built), built);
      built + DeletableIngresses(built + d, built);
      built + (DeletableIngresses(built, built) + DeletableIngresses(d, built));
      built + ([] + d);
      { assert [] + d == d; }
      NextList(prev, built);
    }
  }

  lemma {:induction false} DeletableUnique(prev: seq<ALBIngress>, newList: seq<ALBIngress>)
    requires UniqueIds(prev)
    ensures UniqueIds(DeletableIngresses(prev, newList))
  {
    if prev != [] {
      var p' := prev[..|prev| - 1];
      var x := prev[|prev| - 1];
      DeletableUnique(p', newList);
      DeletableSound(p', newList);
      if QualifiesForDeletion(x, newList) {
        var d' := DeletableIngresses(p', newList);
        forall i | 0 <= i < |d'|
          ensures d'[i].id != x.id
        {
          assert d'[i] in d';
          var k :| 0 <= k < |p'| && QualifiesForDeletion(p'[k], newList) && d'[i] == StripDesiredState(p'[k]);
          assert p'[k] == prev[k];
        }
        UniqueIdsConcat(d', [StripDesiredState(x)]);
      }
    }
  }

  /** When the previous list and the fresh list each hold an identity at most once, so does the
      next list. */
  lemma NextListUnique(prev: seq<ALBIngress>, built: seq<ALBIngress>)
    requires UniqueIds(prev) && UniqueIds(built)
    ensures UniqueIds(NextList(prev, built))
  {
    var d := DeletableIngresses(prev, built);
    DeletableUnique(prev, built);
    DeletableSound(prev, built);
    forall i, j | 0 <= i < |built| && 0 <= j < |d|
      ensures built[i].id != d[j].id
    {
      assert d[j] in d;
    }
    UniqueIdsConcat(built, d);
  }

  // ---------------------------------------------------------------------------------------------
  // Corrected diff: tainted entities whose ingress is gone are kept

  /** The previous entities carried into the next list when tainted entities are kept rather than
      dropped: qualifying ones stripped for teardown, tainted ones with no fresh entity unchanged. */
  function DeletableOrRetained(prev: seq<ALBIngress>, newList: seq<ALBIngress>): seq<ALBIngress>
  {
    if prev == [] then []
    else
      var e := prev[|prev| - 1];
      DeletableOrRetained(prev[..|prev| - 1], newList)
      + (if QualifiesForDeletion(e, newList) then [StripDesiredState(e)]
         else if e.tainted && Find(newList, e.id) < 0 then [e]
         else [])
  }

  function NextListRetainingTainted(prev: seq<ALBIngress>, built: seq<ALBIngress>): seq<ALBIngress>
  {
    built + DeletableOrRetained(prev, built)
  }

  /** The corrected diff carries exactly the entities the code hands out for teardown plus the
      previous tainted entities whose identity is not built again, unchanged. */
  lemma {:induction false} DeletableOrRetainedMembers(prev: seq<ALBIngress>, newList: seq<ALBIngress>)
    ensures forall e :: e in DeletableOrRetained(prev, newList) <==>
      e in DeletableIngresses(prev, newList) ||
      (e in prev && e.tainted && forall j :: 0 <= j < |newList| ==> newList[j].id != e.id)
  {
    if prev != [] {
      var p' := prev[..|prev| - 1];
      var x := prev[|prev| - 1];
      DeletableOrRetainedMembers(p', newList);
      assert prev == p' + [x];
      forall e
        ensures e in DeletableOrRetained(prev, newList) <==>
          e in DeletableIngresses(prev, newList) ||
          (e in prev && e.tainted && forall j :: 0 <= j < |newList| ==> newList[j].id != e.id)
      {
        if e.tainted && e == x && forall j :: 0 <= j < |newList| ==> newList[j].id != e.id {
          assert Find(newList, e.id) < 0;
        }
      }
    }
  }

  /** A tainted previous entity whose ingress is gone stays in the corrected next list, unchanged:
      still tainted and with its desired state. */
  lemma TaintedRetained(prev: seq<ALBIngress>, built: seq<ALBIngress>, k: nat)
    requires k < |prev| && prev[k].tainted
    requires forall j :: 0 <= j < |built| ==> built[j].id != prev[k].id
    ensures prev[k] in NextListRetainingTainted(prev, built)
  {
    DeletableOrRetainedMembers(prev, built);
  }
}
