/** The pod -> ReplicaSet -> Deployment ownership walk that decides whether a pod is
    protected from a restart, with its fail-open treatment of unreadable hops. */
module Ownership {
  import opened Wrappers
  import opened Labels
  import opened Cluster

  const ReplicaSetKind: string := "ReplicaSet"
  const DeploymentKind: string := "Deployment"

  /** Index `i` holds the first reference of `kind` in a non-null list. */
  ghost predicate IsFirstOfKind(refs: Option<seq<OwnerRef>>, kind: string, i: int) {
    && refs.Some?
    && 0 <= i < |refs.value|
    && refs.value[i].kind == kind
    && forall j :: 0 <= j < i ==> refs.value[j].kind != kind
  }

  /** Index of the first reference of `kind`, or `|refs|` when there is none. */
  function FirstIndexOfKind(refs: seq<OwnerRef>, kind: string): (i: nat)
    ensures i <= |refs|
    ensures i < |refs| ==> refs[i].kind == kind
    ensures forall j :: 0 <= j < i ==> refs[j].kind != kind
    decreases |refs|
  {
    if |refs| == 0 then 0
    else if refs[0].kind == kind then 0
    else 1 + FirstIndexOfKind(refs[1..], kind)
  }

  /** `OwnerReferences?.FirstOrDefault(o => o.Kind == kind)`: the first reference of the
      kind (ordinal comparison), or none when the list is null or has no such entry. */
  function FirstOfKind(refs: Option<seq<OwnerRef>>, kind: string): (r: Option<OwnerRef>)
    ensures r.Some? <==> exists i :: IsFirstOfKind(refs, kind, i)
    ensures forall i :: IsFirstOfKind(refs, kind, i) ==> r == Some(refs.value[i])
  {
    if refs.None? then None
    else
      var i := FirstIndexOfKind(refs.value, kind);
      if i < |refs.value| then
        assert IsFirstOfKind(refs, kind, i);
        Some(refs.value[i])
      else None
  }

  /** Where the walk stops. Unreadable hops are kept apart from absent references, although
      both fail open. */
  datatype Walk =
    | NoReplicaSetRef
    | ReplicaSetUnreadable(rs: Key)
    | NoDeploymentRef(rs: Key)
    | DeploymentUnreadable(rs: Key, dep: Key)
    | Resolved(rs: Key, dep: Key)

  /** The walk: first ReplicaSet reference of the pod, read in the pod's namespace, then
      that ReplicaSet's first Deployment reference, read in the same namespace. */
  function WalkOwners(s: Snapshot, ns: string, pod: Pod): Walk {
    match FirstOfKind(pod.ownerRefs, ReplicaSetKind)
    case None => NoReplicaSetRef
    case Some(rsRef) =>
      var rsKey := Key(ns, rsRef.name);
      if rsKey !in s.replicaSets then ReplicaSetUnreadable(rsKey)
      else
        match FirstOfKind(s.replicaSets[rsKey].ownerRefs, DeploymentKind)
        case None => NoDeploymentRef(rsKey)
        case Some(depRef) =>
          var depKey := Key(ns, depRef.name);
          if depKey !in s.deployments then DeploymentUnreadable(rsKey, depKey)
          else Resolved(rsKey, depKey)
  }

  /** The walk reached a deployment, and that deployment carries the marker. */
  predicate OwnerMarked(s: Snapshot, ns: string, pod: Pod) {
    var w := WalkOwners(s, ns, pod);
    w.Resolved? && DeploymentMarked(s.deployments[w.dep])
  }

  /** The skip resolution of RestartNamespace and RestartPod: the pod is marked, or else its
      resolved owning deployment is. */
  predicate Protected(s: Snapshot, ns: string, pod: Pod) {
    PodMarked(pod) || OwnerMarked(s, ns, pod)
  }

  /** Reference definition of ownership: the pod's first ReplicaSet reference names an
      existing ReplicaSet `rs` of `ns`, whose first Deployment reference names an existing
      deployment `dep` of `ns`. */
  ghost predicate OwnedBy(s: Snapshot, ns: string, pod: Pod, rs: Key, dep: Key) {
    && rs.ns == ns && dep.ns == ns
    && rs in s.replicaSets && dep in s.deployments
    && (exists i :: IsFirstOfKind(pod.ownerRefs, ReplicaSetKind, i) && pod.ownerRefs.value[i].name == rs.name)
    && (exists j :: IsFirstOfKind(s.replicaSets[rs].ownerRefs, DeploymentKind, j)
                      && s.replicaSets[rs].ownerRefs.value[j].name == dep.name)
  }

  /** The walk resolves to exactly the owners of the reference definition. */
  lemma WalkResolvesOwnedBy(s: Snapshot, ns: string, pod: Pod, rs: Key, dep: Key)
    ensures WalkOwners(s, ns, pod) == Resolved(rs, dep) <==> OwnedBy(s, ns, pod, rs, dep)
  {
    if OwnedBy(s, ns, pod, rs, dep) {
      var i :| IsFirstOfKind(pod.ownerRefs, ReplicaSetKind, i) && pod.ownerRefs.value[i].name == rs.name;
      var j :| IsFirstOfKind(s.replicaSets[rs].ownerRefs, DeploymentKind, j)
               && s.replicaSets[rs].ownerRefs.value[j].name == dep.name;
      assert FirstOfKind(pod.ownerRefs, ReplicaSetKind) == Some(pod.ownerRefs.value[i]);
      assert FirstOfKind(s.replicaSets[rs].ownerRefs, DeploymentKind) == Some(s.replicaSets[rs].ownerRefs.value[j]);
    }
  }

  /** The owner check succeeds exactly when some owner of the reference definition is
      marked: every hop must be present and readable. */
  lemma OwnerMarkedIff(s: Snapshot, ns: string, pod: Pod)
    ensures OwnerMarked(s, ns, pod) <==>
              exists rs, dep :: OwnedBy(s, ns, pod, rs, dep) && DeploymentMarked(s.deployments[dep])
  {
    var w := WalkOwners(s, ns, pod);
    if w.Resolved? {
      WalkResolvesOwnedBy(s, ns, pod, w.rs, w.dep);
    }
    forall rs, dep | OwnedBy(s, ns, pod, rs, dep)
      ensures w == Resolved(rs, dep)
    {
      WalkResolvesOwnedBy(s, ns, pod, rs, dep);
    }
  }

  /** Fail-open: an unmarked pod whose first ReplicaSet reference names a ReplicaSet that
      cannot be read is not protected. */
  lemma MissingReplicaSetFailsOpen(s: Snapshot, ns: string, pod: Pod, i: int)
    requires !PodMarked(pod)
    requires IsFirstOfKind(pod.ownerRefs, ReplicaSetKind, i)
    requires Key(ns, pod.ownerRefs.value[i].name) !in s.replicaSets
    ensures !Protected(s, ns, pod)
  {
    assert WalkOwners(s, ns, pod) == ReplicaSetUnreadable(Key(ns, pod.ownerRefs.value[i].name));
  }

  /** Fail-open: an unmarked pod whose ReplicaSet's first Deployment reference names a
      deployment that cannot be read is not protected. */
  lemma MissingDeploymentFailsOpen(s: Snapshot, ns: string, pod: Pod, i: int, j: int)
    requires !PodMarked(pod)
    requires IsFirstOfKind(pod.ownerRefs, ReplicaSetKind, i)
    requires Key(ns, pod.ownerRefs.value[i].name) in s.replicaSets
    requires IsFirstOfKind(s.replicaSets[Key(ns, pod.ownerRefs.value[i].name)].ownerRefs, DeploymentKind, j)
    requires Key(ns, s.replicaSets[Key(ns, pod.ownerRefs.value[i].name)].ownerRefs.value[j].name) !in s.deployments
    ensures !Protected(s, ns, pod)
  {
    var rsKey := Key(ns, pod.ownerRefs.value[i].name);
    var depKey := Key(ns, s.replicaSets[rsKey].ownerRefs.value[j].name);
    assert WalkOwners(s, ns, pod) == DeploymentUnreadable(rsKey, depKey);
  }

  /** An unmarked pod whose owner references hold no ReplicaSet (or are null) is not
      protected. */
  lemma NoReplicaSetRefNotProtected(s: Snapshot, ns: string, pod: Pod)
    requires !PodMarked(pod)
    requires forall i :: !IsFirstOfKind(pod.ownerRefs, ReplicaSetKind, i)
    ensures !Protected(s, ns, pod)
  {
    assert WalkOwners(s, ns, pod) == NoReplicaSetRef;
  }

  /** An unmarked pod whose ReplicaSet can be read but holds no Deployment reference (or a
      null list) is not protected. */
  lemma NoDeploymentRefNotProtected(s: Snapshot, ns: string, pod: Pod, i: int)
    requires !PodMarked(pod)
    requires IsFirstOfKind(pod.ownerRefs, ReplicaSetKind, i)
    requires Key(ns, pod.ownerRefs.value[i].name) in s.replicaSets
    requires forall j :: !IsFirstOfKind(s.replicaSets[Key(ns, pod.ownerRefs.value[i].name)].ownerRefs, DeploymentKind, j)
    ensures !Protected(s, ns, pod)
  {
    var rsKey := Key(ns, pod.ownerRefs.value[i].name);
    assert WalkOwners(s, ns, pod) == NoDeploymentRef(rsKey);
  }

  /** Protection reads only deployments and ReplicaSets, so deleting pods never changes it. */
  lemma ProtectedIgnoresPods(s: Snapshot, t: Snapshot, ns: string, pod: Pod)
    requires s.deployments == t.deployments && s.replicaSets == t.replicaSets
    ensures Protected(s, ns, pod) == Protected(t, ns, pod)
  {
  }

  /** When the pod still satisfies its resolved owner's match-labels (the template labels a
      Deployment stamps on its pods), the walk adds nothing: a marked owner implies a marked
      pod, so protection is the pod's own marker. */
  lemma WalkRedundantForConsistentLabels(s: Snapshot, ns: string, pod: Pod)
    requires forall rs, dep :: OwnedBy(s, ns, pod, rs, dep) && s.deployments[dep].matchLabels.Some?
               ==> Matches(s.deployments[dep].matchLabels.value, pod.labels)
    ensures Protected(s, ns, pod) <==> PodMarked(pod)
  {
    if OwnerMarked(s, ns, pod) {
      var w := WalkOwners(s, ns, pod);
      WalkResolvesOwnedBy(s, ns, pod, w.rs, w.dep);
      MarkerCarriesThroughSelector(s.deployments[w.dep].matchLabels.value, pod.labels);
    }
  }
}
