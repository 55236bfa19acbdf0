# ALB ingress controller: reconciliation bookkeeping

A Dafny model of the bookkeeping at the heart of the AWS ALB ingress controller
(`controller/controller.go`). On every ingress update the controller (`ALBController`) decides
which tracked entities (`ALBIngress`: an identity, a desired state, the AWS load balancers it owns
and a `tainted` flag) it keeps:

- the **class filter** (`validIngress`) picks the ingresses it manages by their
  `kubernetes.io/ingress.class` annotation;
- the **diff step** (`OnUpdate` with `ingressToDelete`) builds a fresh entity list from the
  current ingresses (tainting partial builds), strips the desired state of previous entities
  whose identity is gone and that still own load balancers, appends them for teardown, drops the
  others, and replaces the controller's list wholesale;
- the **cold-start assembly** (`assembleIngresses`) rebuilds the list from the load balancers
  found in AWS, merging by identity;
- the **node-port lookup** (`GetServiceNodePort`) resolves a service and port to a NodePort, with
  three distinct errors;
- `Reload` converges every tracked entity once.

Modules: `Entities` (the values and `find`), `Filter`, `Services`, `Diff` (the fresh list, the
deletable list, the next list and their properties), `Bootstrap` (the assembly fold) and
`Controller` (the `ALBController` class whose methods update its `albIngresses` field).
`OnUpdate`, `IngressToDelete` and `AssembleIngresses` are loops proved against the functions
`BuildList`, `DeletableIngresses`, `NextList` and `Assembled`, and the lemmas of `Diff` and
`Bootstrap` prove what the controller promises about those functions.

Collaborators whose code is not part of this model are parameters: the ingress list
(`storeLister.Ingress.List()`), the service store (a map from namespace/name to service), the
builders `NewALBIngressFromIngress` (`IngressBuilder`, which also sees the controller's current
list, as the Go function receives the controller) and `NewALBIngressFromLoadBalancer`
(`LoadBalancerReader`), the result of `DescribeLoadBalancers`, and `Reconcile`. `find` is the
first index with an equal identity, or -1; `StripDesiredState` clears the desired state.

In three places the code does something other than what a reader of the controller would expect; the model follows the code:

- The cold-start assembly runs whenever the list is nil, not only on the first update. A Go slice built by
  appending to nil stays nil exactly when nothing was appended, so a cycle that ends with no
  entity makes the next cycle assemble again. The model states the test as "the list is empty".
- A tainted entity whose ingress disappears is dropped from the next list (see Findings), so the
  controller stops tracking it and its load balancers, instead of keeping it for visibility.
- Two load balancers of one identity do not both end up in the merged entity (see Findings).

## Model

| member | source | states |
|---|---|---|
| `Entities.Find` | controller/controller.go:217 | the result is the first index whose entity has the given identity, or -1 exactly when no entity has it |
| `Filter.ValidIngress` | controller/controller.go:101-109 | an ingress is managed iff no class is configured or its class annotation is present and equal to the configured class |
| `Services.GetServiceNodePort` | controller/controller.go:182-203 | not-found iff the key is absent; not-NodePort iff present with another type; port-not-found iff a NodePort service has no port equal to the backend port; every error names the requested key; success iff a NodePort service has a port equal to the backend port, and then the result is the NodePort of the first equal port |
| `Diff.BuildListMembers` | controller/controller.go:65-82 | an entity is in the fresh list iff some managed ingress's builder gave it, tainted when the builder reported an error or returned a tainted entity; filtered ingresses and nil builds add nothing; the list is no longer than the ingress list |
| `Diff.BuildListAppend` | controller/controller.go:65-82 | the fresh list follows the input order: the list of a concatenation is the concatenation of the lists |
| `Diff.DeletableAppend` | controller/controller.go:211-227 | the deletable list keeps the order of the previous list |
| `Diff.DeletableSound` | controller/controller.go:207-229 | every deletable entity is a stripped previous entity that was untainted, owned load balancers and whose identity is not in the new list; it has no desired state |
| `Diff.DeletableComplete` | controller/controller.go:216-225 | every previous entity that is untainted, absent from the new list and owns load balancers is handed out stripped |
| `Diff.DeletableFixpoint` | controller/controller.go:216-225 | entities already handed out for teardown qualify again against the same new list and are unchanged by a second strip |
| `Diff.NothingDeletableAgainstItself` | controller/controller.go:217 | no entity qualifies for deletion against a list that contains it |
| `Diff.NothingDeletableWhenAllFound` | controller/controller.go:217 | entities whose identity is found in the new list are never deletable |
| `Diff.PendingTeardown` | controller/controller.go:216-225 | an untainted previous entity with load balancers and no fresh entity of its identity stays in the next list, stripped, with its load balancers |
| `Diff.Dropped` | controller/controller.go:211-226 | an identity not built again whose previous entities are all tainted or own no load balancer is absent from the next list |
| `Diff.NextListIdempotent` | controller/controller.go:84-94 | running the diff again with the same fresh list yields the same next list |
| `Diff.DeletableUnique` | controller/controller.go:211-227 | the deletable list has unique identities when the previous list does |
| `Diff.NextListUnique` | controller/controller.go:84-94 | the next list has unique identities when the previous and fresh lists do |
| `Diff.DeletableOrRetainedMembers` | controller/controller.go:211-229 | corrected diff: it carries exactly the deletable entities plus the previous tainted entities with no fresh entity of their identity |
| `Diff.TaintedRetained` | controller/controller.go:213-215 | corrected diff: a tainted previous entity whose ingress is gone is kept unchanged in the next list |
| `Entities.UniqueIdsCount` | controller/controller.go:258-263 | helper used by `Bootstrap.AssembledIds`: a list with unique identities has exactly as many distinct identities as entities |
| `Bootstrap.AssembleStep` | controller/controller.go:253-263 | one assembly step keeps every entity's handle list non-empty and keeps identities unique |
| `Bootstrap.AssembleStepCases` | controller/controller.go:253-263 | a rejected load balancer changes nothing; a known identity keeps count and identities and its entity gains exactly one handle, a copy of its first; a new identity is appended |
| `Bootstrap.StepIds` | controller/controller.go:258-263 | a step adds the accepted load balancer's identity to the tracked identities and nothing else |
| `Bootstrap.Assembled` | controller/controller.go:237-266 | the assembled list has unique identities and every entity owns at least one load balancer |
| `Bootstrap.AssembledIds` | controller/controller.go:249-266 | the assembled list holds exactly one entity per identity of an accepted load balancer |
| `Bootstrap.MergeDropsDiscoveredHandle` | controller/controller.go:258-260 | as written, a merge records none of the discovered load balancer's handle |
| `Bootstrap.DuplicateOwnerExample` | controller/controller.go:249-266 | as written, two load balancers of ns/foo yield one entity holding the first handle twice |
| `Bootstrap.AssembleStepIntended` | controller/controller.go:258-260 | corrected step: keeps handles non-empty and identities unique, and only extends existing entities' handle lists |
| `Bootstrap.AssembledIntended` | controller/controller.go:249-266 | corrected assembly: unique identities, every entity owns a load balancer |
| `Bootstrap.AssembledIntendedRecordsEveryHandle` | controller/controller.go:258-260 | corrected assembly: every accepted load balancer's handle is held by the entity of its identity |
| `Controller.ALBController.constructor` | controller/controller.go:32-46 | a new controller tracks nothing |
| `Controller.ALBController.OnUpdate` | controller/controller.go:53-96 | the list becomes the fresh list followed by the deletable entities, computed against the assembled list when the previous list was empty and against the previous list otherwise |
| `Controller.ALBController.IngressToDelete` | controller/controller.go:207-229 | returns the deletable list; strips exactly the qualifying entities of the controller's list in place and never changes a tainted one |
| `Controller.ALBController.AssembleIngresses` | controller/controller.go:237-269 | the list becomes the assembly of the discovered load balancers, with unique identities |
| `Controller.ALBController.Reload` | controller/controller.go:112-129 | every tracked entity is reconciled once, independently; length and order are kept |

## Findings

The controller model (`OnUpdate`, `AssembleIngresses`) keeps the code's behaviour, since that is
what the system does; the corrected definitions stand beside it with their intended property
proved.

| source | as written | input that shows it | evidently intended | confidence | as-written member | corrected member |
|---|---|---|---|---|---|---|
| controller/controller.go:258-260 | the merge rebinds `albIngress` to the tracked entity and appends that entity's own first load balancer | load balancers arn1 and arn2 both owned by ns/foo: one entity with handles [arn1, arn1]; arn2 is forgotten | append the discovered load balancer to the tracked entity, so both handles are kept for cleanup | high, not executed | `Bootstrap.MergeDropsDiscoveredHandle` | `Bootstrap.AssembledIntendedRecordsEveryHandle` |
| controller/controller.go:213-215 | a tainted previous entity is skipped, so when its ingress is gone it is neither torn down nor carried into the next list | previous list [ns/bar, lb [arn1], tainted], no ingress ns/bar: the next list is empty and arn1 is no longer tracked | keep the tainted entity unchanged in the next list, neither torn down nor forgotten | medium, not executed | `Diff.Dropped` | `Diff.TaintedRetained` |

## Left out

- Concurrency: the goroutines and `sync.WaitGroup` of `Reload` and `assembleIngresses` are
  modelled as sequential loops; the unsynchronised appends of the assembly goroutines (a data
  race) and any other interleaving are not modelled.
- Entities are values. Go shares `*ALBIngress` pointers between the previous list and the
  deletable list; the model updates the controller's list in place and copies the stripped
  entity into the deletable list. `OnUpdate` overwrites the previous list right after, so the
  next state is the same.
- `NewALBController`'s AWS session and service setup, and the `DescribeLoadBalancers` call: the
  discovered load balancers are a parameter, and a failed listing (which ends the process) is
  not modelled.
- The bodies of `NewALBIngressFromIngress`, `NewALBIngressFromLoadBalancer`, `Reconcile`, `find`
  and `StripDesiredState` are not part of this model; they are parameters or stated by contract.
- `Bootstrap.Assembled` (and with it `Bootstrap.AssembledIds`, `Controller.ALBController.AssembleIngresses`
  and `Controller.ALBController.OnUpdate`) assumes `YieldsHandles` as the reader's contract: an entity
  built from a load balancer holds that load balancer. Go itself accepts a handle-less entity and
  only panics when a later load balancer of the same identity is merged into it (reading
  `LoadBalancers[0]`); readers that break the contract, and that panic, are not modelled.
- `GetServiceNodePort` ignores the store's lookup error as the code does; the store is a map.
- Metrics (`OnUpdateCount`, `ReloadCount`, `ManagedIngresses`), logging, `StateHandler`,
  `SetListers`, `OverrideFlags`, `SetConfig`, `ConfigureFlags`, `BackendDefaults`, `Name`,
  `Check`, `DefaultIngressClass`, `Info`: observation, I/O or constants.
- `Controller.ALBController.Reload`: its constant return values are not modelled.
- main.go (process start-up, flags, the HTTP server and the cluster-name length check).
