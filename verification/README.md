# k8s-restart orchestration engine, in Dafny

This project models `K8sService`, the part of the k8s-restart control API that decides
what to mutate in a Kubernetes cluster when an operator asks to stop, start or restart a
namespace, a deployment or a pod. It covers the `restart=ignore` opt-out label, the
pod → ReplicaSet → Deployment ownership walk with its fail-open treatment of failed reads,
and the recovery of a replica count from the `kubectl.kubernetes.io/last-applied-configuration`
annotation.

The cluster is an immutable `Cluster.Snapshot`. It holds maps from `Key(namespace, name)` to
deployments (match-labels, replicas, annotations), pods (labels, ordered owner references)
and ReplicaSets (ordered owner references). A null map or list in the API objects is `None`.

Each of the seven operations in `Engine` is a pure function. It reads the snapshot and
returns the mutating calls it issues, in order: `PatchReplicas(key, n)` for the
strategic-merge patch `{"spec":{"replicas":n}}`, and `DeletePod(key)`. `Cluster.Apply` runs
those calls against the snapshot. An operation whose direct read or patch of its named target
fails returns `Failure(NotFound(key))` before it issues any call. No operation reads an object
after it has mutated it: StartDeployment reads the deployment (line 113) before patching it
(line 129), and RestartPod reads the pod (line 134) before deleting it (line 154). So deciding
every call against the starting snapshot gives the same calls as interleaving reads with
calls.

A list call is an argument, `listed`: the keys the API server returned, each object of the
namespace once, in the server's order (`Cluster.IsListing`). For `RestartDeployment` this is
the listing of the whole namespace. The selector list call returns the entries of that listing
that match the selector (`Engine.ListMatching`). `Selector` shows that the selector string
built at line 96 selects exactly the pods that `Labels.Matches` accepts.

Deserialising the annotation is an argument `decode: string -> Option<Option<ReplicaCount>>`.
`None` means the deserialiser threw. `Some(None)` means the document, its spec or its replica
count is null. `Some(Some(n))` is a replica count. `Cluster.ReplicaCount` is a non-negative
32-bit `int`, for both a deployment's `replicas` and the counts that are decoded and patched.

Modules: `Wrappers` (Option, Result), `Labels` (the skip marker and selector matching),
`Selector` (the selector string), `Cluster` (the snapshot and API calls), `Ownership` (the
walk), `Engine` (the seven operations), `Properties` (the state after each operation, and
idempotence), `Scenarios` (two worked clusters).

Points where the code is followed:
- Lines 51 and 122 assign the nullable `lastApplied?.Spec?.Replicas` to an `int`. A null there
  is modelled as the initial value 0 from lines 44 and 115.
- `ShouldSkip(V1Deployment)` is false for null match-labels. Line 96 then throws on the
  null match-labels, because `Select` rejects a null source. `RestartDeployment` therefore fails with `NullMatchLabels` for such a
  deployment and issues no call.
- RestartDeployment's pod loop (line 100) checks only the pod's own labels. Unlike
  RestartNamespace (lines 67-85) and RestartPod (lines 135-152), it does no ownership walk.
  `Ownership.WalkRedundantForConsistentLabels` shows why this is harmless when each pod still
  carries its owner's match-labels: a marked owner then implies a marked pod.
- StopNamespace, StopDeployment, StartNamespace and StartDeployment apply no skip check.

## Model

| member | source | states |
|---|---|---|
| Labels.SkipMarkedIffIgnoreSpelling | Services/K8sService.cs:19-27 | a label map is skip-marked exactly when it is non-null and its `restart` value is `ignore` in some letter case (all six letters, each either case, nothing else) |
| Labels.LowerIsLetter | Services/K8sService.cs:22 | under the ASCII case-insensitive comparison, a character equals a lower-case letter exactly when it is that letter or its upper-case form |
| Labels.MarkerCarriesThroughSelector | Services/K8sService.cs:19-27 | labels that satisfy a skip-marked selector are skip-marked themselves |
| Labels.EmptySelectorMatchesAll | Services/K8sService.cs:96-97 | empty match-labels select every pod of the namespace, including pods with null labels |
| Selector.ParseFormat | Services/K8sService.cs:96 | the comma-joined `key=value` selector text parses back to exactly the requirements it was built from, for keys and values in Kubernetes label syntax |
| Selector.ParseTermsOfFormat | Services/K8sService.cs:96 | a non-empty list of valid requirements, joined with commas, splits back term by term into exactly that list |
| Selector.SatisfiesEnumeration | Services/K8sService.cs:96-97 | satisfying every listed requirement is the same as matching the map that the requirements enumerate |
| Selector.FormatEmptyIff | Services/K8sService.cs:96 | the selector text is empty exactly when there are no requirements |
| Selector.SelectorDenotesMatchLabels | Services/K8sService.cs:96-97 | the selector built from valid match-labels round-trips through the server's parse, selects exactly the label maps that match the match-labels, and is empty (select all) exactly when the match-labels are empty |
| Cluster.PatchMap | Services/K8sService.cs:34-35 | every patched deployment gets an entry; each entry's value is one that some patch in the sequence issued, and it is the value of the last patch of that deployment |
| Cluster.ApplyDeletes | Services/K8sService.cs:87 | a run of pod deletes removes exactly the deleted pods; deployments and ReplicaSets are unchanged |
| Cluster.ApplyPatches | Services/K8sService.cs:34-35 | a run of replica patches changes only the `replicas` of the patched deployments, to the last value patched; pods, ReplicaSets and all other deployment fields are unchanged |
| Cluster.PatchesKeepingReplicas | Services/K8sService.cs:34-35 | replica patches that each set a deployment to the count it already has leave the whole cluster unchanged |
| Ownership.FirstIndexOfKind | Services/K8sService.cs:70 | the index found holds the first reference of the kind, or is the length when no reference has the kind |
| Ownership.FirstOfKind | Services/K8sService.cs:70 | `FirstOrDefault` by kind on a nullable list: some reference exactly when the list is non-null and contains the kind, and then the first one |
| Ownership.WalkResolvesOwnedBy | Services/K8sService.cs:70-82 | the walk reaches deployment `dep` through ReplicaSet `rs` exactly when `rs` is named by the pod's first ReplicaSet reference, `dep` by that ReplicaSet's first Deployment reference, and both exist in the pod's namespace |
| Ownership.OwnerMarkedIff | Services/K8sService.cs:70-85 | the owner check blocks a delete exactly when the fully resolved owning deployment exists and carries the marker |
| Ownership.MissingReplicaSetFailsOpen | Services/K8sService.cs:73-84 | an unmarked pod whose first ReplicaSet reference names an unreadable ReplicaSet is not protected (fail-open) |
| Ownership.MissingDeploymentFailsOpen | Services/K8sService.cs:76-84 | an unmarked pod whose ReplicaSet's first Deployment reference names an unreadable deployment is not protected (fail-open) |
| Ownership.NoReplicaSetRefNotProtected | Services/K8sService.cs:70-71 | an unmarked pod whose owner references are null or hold no ReplicaSet is not protected: the walk stops and the pod is deleted |
| Ownership.NoDeploymentRefNotProtected | Services/K8sService.cs:75-77 | an unmarked pod whose ReplicaSet can be read but whose references are null or hold no Deployment is not protected |
| Ownership.ProtectedIgnoresPods | Services/K8sService.cs:62-89 | protection depends only on deployments and ReplicaSets, so deleting pods during the loop cannot change later decisions |
| Ownership.WalkRedundantForConsistentLabels | Services/K8sService.cs:65-85 | when a pod still matches its resolved owner's match-labels, the pod is protected exactly when it is itself marked |
| Engine.LastApplied | Services/K8sService.cs:45-46 | the annotation is found exactly when the annotation map is non-null and has the last-applied key, and then it is the value stored under that key |
| Engine.RecordedReplicas | Services/K8sService.cs:44-54 | the recorded count is the decoded `spec.replicas` when there is one; otherwise it is 0, and a non-zero count always comes from a decoded annotation |
| Engine.DeleteUnless | Services/K8sService.cs:98-102 | the pod loop deletes exactly the listed pods that the skip test does not hold for, each once, and issues no other call |
| Engine.ListMatching | Services/K8sService.cs:97 | the selector listing keeps exactly the listed pods whose labels match the selector, each once |
| Engine.StopNamespace | Services/K8sService.cs:29-37 | one zero-replica patch per deployment of the namespace and nothing else: no skip check, no delete, no other namespace |
| Engine.StartNamespace | Services/K8sService.cs:39-60 | one patch per deployment of the namespace, to that deployment's recorded count, and nothing else |
| Engine.RestartNamespace | Services/K8sService.cs:62-89 | one delete for each pod of the namespace that is neither marked nor owned by a marked deployment, and no other call |
| Engine.RestartDeployment | Services/K8sService.cs:91-103 | fails for a missing deployment; issues no call for a marked one; fails with `NullMatchLabels` for an unmarked one with null match-labels; otherwise deletes each unmarked pod of the namespace that matches the match-labels exactly once, without the ownership walk |
| Engine.StopDeployment | Services/K8sService.cs:105-109 | fails exactly when the named deployment is absent; otherwise issues exactly one call, a zero-replica patch of that deployment, whatever its marker |
| Engine.StartDeployment | Services/K8sService.cs:111-130 | fails exactly when the named deployment is absent; otherwise issues exactly one call, a patch of that deployment to its recorded count |
| Engine.RestartPod | Services/K8sService.cs:132-155 | fails exactly when the named pod is absent; otherwise issues at most one call: a delete of that pod, exactly when it is not protected |
| Properties.DeletesOnlyEffect | Services/K8sService.cs:87 | deleting exactly the namespace's pods that satisfy a test leaves every other pod, every deployment and every ReplicaSet in place |
| Properties.StopNamespaceEffect | Services/K8sService.cs:29-37 | afterwards every deployment of the namespace has 0 replicas; other namespaces, every other deployment field, pods and ReplicaSets are unchanged |
| Properties.StopNamespaceIdempotent | Services/K8sService.cs:29-37 | stopping a namespace twice gives the same cluster as stopping it once |
| Properties.StartNamespaceEffect | Services/K8sService.cs:39-60 | afterwards every deployment of the namespace has its recorded count; nothing else changes, and no pod is deleted |
| Properties.RecordedReplicasIgnoresReplicas | Services/K8sService.cs:44-54 | the recorded count depends on the annotations only, not on the live replica count |
| Properties.StartAfterStopNamespace | Services/K8sService.cs:29-60 | start after stop gives the same cluster as start alone: the count restored is the recorded one, not the count running before the stop |
| Properties.StartNamespaceIdempotent | Services/K8sService.cs:39-60 | starting a namespace twice gives the same cluster as starting it once |
| Properties.RestartNamespaceEffect | Services/K8sService.cs:62-89 | afterwards the pods left are the protected pods of the namespace plus all pods of other namespaces; deployments and ReplicaSets are unchanged |
| Properties.RestartNamespaceIdempotent | Services/K8sService.cs:62-89 | in the snapshot, restarting a namespace again under any listing deletes nothing more |
| Properties.RestartDeploymentMarkedIsNoOp | Services/K8sService.cs:93-94 | a marked deployment's restart issues zero calls and leaves the cluster unchanged |
| Properties.RestartDeploymentEffect | Services/K8sService.cs:96-102 | for an unmarked deployment, afterwards exactly the unmarked pods of the namespace that match its match-labels are gone; other namespaces, replica counts and ReplicaSets are unchanged |
| Properties.RestartDeploymentIdempotent | Services/K8sService.cs:91-103 | in the snapshot, after a successful restart of a deployment, a second restart under any listing succeeds and leaves the cluster unchanged |
| Properties.StopDeploymentEffect | Services/K8sService.cs:105-109 | afterwards the named deployment has 0 replicas and nothing else in the cluster has changed |
| Properties.StopDeploymentIdempotent | Services/K8sService.cs:105-109 | stopping a deployment twice gives the same cluster as stopping it once |
| Properties.StartDeploymentEffect | Services/K8sService.cs:111-130 | afterwards the named deployment has its recorded count and nothing else has changed |
| Properties.StartDeploymentIdempotent | Services/K8sService.cs:111-130 | starting an existing deployment twice gives the same cluster as starting it once |
| Properties.StartAfterStopDeployment | Services/K8sService.cs:105-130 | stop then start of a deployment gives the same cluster as start alone |
| Properties.RestartPodEffect | Services/K8sService.cs:132-155 | afterwards the named pod is gone exactly when it was not protected; nothing else changes |
| Properties.RestartPodIdempotent | Services/K8sService.cs:132-155 | in the snapshot, a second restart of the pod fails exactly when the first deleted it (the pod is no longer in the snapshot), and otherwise leaves the cluster unchanged |
| Properties.RestartPodDeletesWhenReplicaSetMissing | Services/K8sService.cs:137-154 | an unmarked pod whose ReplicaSet cannot be read is still deleted |
| Scenarios.ApiRestartDeletesItsPods | Services/K8sService.cs:91-103 | restarting `api` (selector `app=api`) deletes exactly its three pods in `ns1`, in any listing order, and patches nothing |
| Scenarios.ApiStopThenStart | Services/K8sService.cs:105-130 | stopping `api` sets 0 replicas and deletes no pod; starting it again restores the 3 replicas its last-applied document records |
| Scenarios.BatchRestartIsNoOp | Services/K8sService.cs:91-94 | a deployment with match-labels `restart: Ignore` is not restarted: zero calls |

## Left out

- The constructor and client configuration (lines 11-17), `async`/`await`, cancellation and
  transport are left out. Client calls are lookups and updates on the snapshot.
- JSON deserialisation (lines 50 and 121) is the `decode` argument. The patch-body text
  (lines 34, 56, 107 and 127) is the `PatchReplicas` value itself.
- Transport errors from list calls, and from the deletes and patches inside a batch, are left
  out. A snapshot has no concurrent writer, so every listed object still exists when it is
  patched or deleted. The only failures modelled are a missing direct target (lines 93, 108,
  113 and 134) and the null match-labels of line 96.
- Races with concurrent writers are left out: the snapshot is a single consistent state.
- Pod deletion is modelled as immediate removal, with no controller. On a cluster a deleted pod
  can still be read and listed during its grace period, carrying a deletion timestamp. Its
  ReplicaSet meanwhile creates a replacement. A second RestartPod in that window reads the pod
  (line 134) and deletes it again, and a second RestartNamespace or RestartDeployment also
  deletes the terminating pods and their replacements. Properties.RestartPodIdempotent,
  Properties.RestartNamespaceIdempotent and Properties.RestartDeploymentIdempotent therefore
  describe the snapshot only.
- Ownership.OwnerMarkedIff, Engine.RestartNamespace and Engine.RestartPod protect a pod whose
  marked owner can be read. The empty `catch` at lines 84 and 151 swallows every exception from
  the walk's reads, so a timeout or a Forbidden error on an existing marked owner also fails open
  and the pod is deleted. A snapshot cannot express such an error, so the model's protection is
  stronger than what the code guarantees under transport failures.
- Case-insensitive comparison covers ASCII letters only. `OrdinalIgnoreCase` also folds some
  non-ASCII characters, and those are left out.
- Null `Spec`, `Selector` or `Metadata` objects, and null label values, are assumed absent.
  The API server fills those in for Deployments, Pods and ReplicaSets.
- `Selector.ParseFormat` and `Selector.SelectorDenotesMatchLabels` assume label keys and values
  use Kubernetes label characters. The length limits and the rule that a label must begin and
  end with an alphanumeric are not modelled. The server's parser is modelled for equality
  terms only; set-based terms (`in`, `notin`, `!key`) are not modelled.
- `Engine.RecordedReplicas`: `decode` returns only 32-bit values. How an out-of-range JSON
  number fails to parse belongs to the deserialiser and is not modelled.
- `Engine.RecordedReplicas`: `decode` returns only non-negative counts. A last-applied document
  with a negative `spec.replicas` deserialises (line 122), and the code sends it in the patch
  (lines 127-129). The API server rejects a negative count, so the patch throws. StartDeployment
  then fails, and StartNamespace stops at that deployment (line 58) without patching the rest.
  The model does not represent that rejection.
- Program.cs (host start-up, Swagger, environment variables, the Basic-auth handler) and
  Controllers/K8sController.cs (routes returning fixed text, never calling the service) are
  not part of this model.
