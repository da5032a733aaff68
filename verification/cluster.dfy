/** The cluster as an immutable snapshot of the three resource kinds the service touches,
    and the two mutating API calls it issues: a replica patch and a pod delete. */
module Cluster {
  import opened Wrappers
  import opened Labels

  /** A replica count the API server accepts: `spec.replicas` is a 32-bit `int` and
      validation rejects a negative one. */
  type ReplicaCount = x: int | 0 <= x < 0x8000_0000

  /** A namespaced object name. */
  datatype Key = Key(ns: string, name: string)

  /** One entry of `metadata.ownerReferences`. */
  datatype OwnerRef = OwnerRef(kind: string, name: string)

  /** `spec.selector.matchLabels`, `spec.replicas` and `metadata.annotations`. */
  datatype Deployment = Deployment(matchLabels: Option<StringMap>, replicas: ReplicaCount, annotations: Option<StringMap>)

  /** `metadata.labels` and `metadata.ownerReferences`, in their listed order. */
  datatype Pod = Pod(labels: Option<StringMap>, ownerRefs: Option<seq<OwnerRef>>)

  /** `metadata.ownerReferences` of a ReplicaSet. */
  datatype ReplicaSet = ReplicaSet(ownerRefs: Option<seq<OwnerRef>>)

  datatype Snapshot = Snapshot(
    deployments: map<Key, Deployment>,
    pods: map<Key, Pod>,
    replicaSets: map<Key, ReplicaSet>)

  /** A mutating API call: a strategic-merge patch `{"spec":{"replicas":n}}`, or a pod delete. */
  datatype Call = PatchReplicas(target: Key, replicas: ReplicaCount) | DeletePod(target: Key)

  /** A failure that aborts an operation before it mutates anything. */
  datatype Error =
    | NotFound(key: Key)          // a direct read or patch of the named target failed
    | NullMatchLabels(key: Key)   // the selector string was built from a null match-labels map

  /** `ShouldSkip(V1Deployment)`: the marker on the selector's match-labels. */
  predicate DeploymentMarked(d: Deployment) {
    IsSkipMarked(d.matchLabels)
  }

  /** `ShouldSkip(V1Pod)`: the marker on the pod's own labels. */
  predicate PodMarked(p: Pod) {
    IsSkipMarked(p.labels)
  }

  /** No element occurs twice. */
  predicate NoDuplicates<T(==)>(xs: seq<T>) {
    forall i, j :: 0 <= i < j < |xs| ==> xs[i] != xs[j]
  }

  /** `listed` is what a namespaced list call returns: each object of `ns` among `keys`,
      exactly once, in the server's order. */
  ghost predicate IsListing(listed: seq<Key>, keys: set<Key>, ns: string) {
    && NoDuplicates(listed)
    && (forall k :: k in listed <==> k in keys && k.ns == ns)
  }

  /** The cluster with one deployment's replica count replaced. */
  function SetReplicas(s: Snapshot, k: Key, n: ReplicaCount): Snapshot
    requires k in s.deployments
  {
    s.(deployments := s.deployments[k := s.deployments[k].(replicas := n)])
  }

  /** A later replica patch of the same deployment overrides an earlier one. */
  lemma SetReplicasTwice(s: Snapshot, k: Key, a: ReplicaCount, b: ReplicaCount)
    requires k in s.deployments
    ensures SetReplicas(SetReplicas(s, k, a), k, b) == SetReplicas(s, k, b)
  {
    assert s.deployments[k].(replicas := a).(replicas := b) == s.deployments[k].(replicas := b);
  }

  /** The effect of one call on the cluster. A patch touches only `replicas`. */
  function Step(s: Snapshot, c: Call): Snapshot {
    match c
    case DeletePod(k) => s.(pods := s.pods - {k})
    case PatchReplicas(k, n) => if k in s.deployments then SetReplicas(s, k, n) else s
  }

  /** The calls issued in order. */
  function Apply(s: Snapshot, calls: seq<Call>): Snapshot
    decreases |calls|
  {
    if |calls| == 0 then s else Apply(Step(s, calls[0]), calls[1..])
  }

  lemma ApplySingle(s: Snapshot, c: Call)
    ensures Apply(s, [c]) == Step(s, c)
  {
    assert [c][1..] == [];
  }

  /** The pods a call sequence deletes. */
  function Deleted(calls: seq<Call>): (d: set<Key>)
    ensures forall k :: k in d <==> DeletePod(k) in calls
    decreases |calls|
  {
    if |calls| == 0 then {}
    else
      assert forall c :: c in calls <==> c == calls[0] || c in calls[1..] by {
        assert calls == [calls[0]] + calls[1..];
      }
      (if calls[0].DeletePod? then {calls[0].target} else {}) + Deleted(calls[1..])
  }

  /** `calls[i]` is a replica patch and no later call patches the same deployment. */
  predicate IsLastPatch(calls: seq<Call>, i: int) {
    && 0 <= i < |calls|
    && calls[i].PatchReplicas?
    && forall j :: i < j < |calls| ==> !(calls[j].PatchReplicas? && calls[j].target == calls[i].target)
  }

  /** The replica count each patched deployment ends with: the last patch wins. */
  function PatchMap(calls: seq<Call>): (pm: map<Key, ReplicaCount>)
    ensures forall c :: c in calls && c.PatchReplicas? ==> c.target in pm
    ensures forall k :: k in pm ==> PatchReplicas(k, pm[k]) in calls
    ensures forall i :: IsLastPatch(calls, i) ==> calls[i].target in pm && pm[calls[i].target] == calls[i].replicas
    decreases |calls|
  {
    if |calls| == 0 then map[]
    else
      var rest := PatchMap(calls[1..]);
      assert forall i :: IsLastPatch(calls, i) && i > 0 ==> IsLastPatch(calls[1..], i - 1) by {
        forall i | IsLastPatch(calls, i) && i > 0 ensures IsLastPatch(calls[1..], i - 1) {
          assert calls[1..][i - 1] == calls[i];
          forall j | i - 1 < j < |calls| - 1
            ensures !(calls[1..][j].PatchReplicas? && calls[1..][j].target == calls[i].target)
          {
            assert calls[1..][j] == calls[j + 1];
          }
        }
      }
      match calls[0]
      case PatchReplicas(k, n) => if k in rest then rest else rest[k := n]
      case DeletePod(_) => rest
  }

  /** Deployments with the patched replica counts applied; every other field kept. */
  function Patched(deps: map<Key, Deployment>, pm: map<Key, ReplicaCount>): map<Key, Deployment> {
    map k | k in deps :: if k in pm then deps[k].(replicas := pm[k]) else deps[k]
  }

  /** Deletes remove exactly the deleted pods and change nothing else. */
  lemma {:induction false} ApplyDeletes(s: Snapshot, calls: seq<Call>)
    requires forall c :: c in calls ==> c.DeletePod?
    ensures Apply(s, calls) == s.(pods := s.pods - Deleted(calls))
    decreases |calls|
  {
    if |calls| > 0 {
      var c := calls[0];
      assert forall d :: d in calls[1..] ==> d in calls;
      ApplyDeletes(Step(s, c), calls[1..]);
      assert s.pods - {c.target} - Deleted(calls[1..]) == s.pods - Deleted(calls);
    }
  }

  lemma PatchedStep(deps: map<Key, Deployment>, k: Key, n: ReplicaCount, pm: map<Key, ReplicaCount>)
    ensures Patched(if k in deps then deps[k := deps[k].(replicas := n)] else deps, pm)
         == Patched(deps, if k in pm then pm else pm[k := n])
  {
  }

  /** Patches change only the replica counts of the patched deployments, to the last value
      patched, and nothing else in the snapshot. */
  lemma {:induction false} ApplyPatches(s: Snapshot, calls: seq<Call>)
    requires forall c :: c in calls ==> c.PatchReplicas?
    ensures Apply(s, calls) == s.(deployments := Patched(s.deployments, PatchMap(calls)))
    decreases |calls|
  {
    if |calls| > 0 {
      var c := calls[0];
      assert forall d :: d in calls[1..] ==> d in calls;
      ApplyPatches(Step(s, c), calls[1..]);
      PatchedStep(s.deployments, c.target, c.replicas, PatchMap(calls[1..]));
    }
  }

  /** Patches that set each deployment to the count it already has change nothing. */
  lemma PatchesKeepingReplicas(s: Snapshot, calls: seq<Call>)
    requires forall c :: c in calls ==>
               c.PatchReplicas? && c.target in s.deployments && s.deployments[c.target].replicas == c.replicas
    ensures Apply(s, calls) == s
  {
    ApplyPatches(s, calls);
    var pm := PatchMap(calls);
    forall k | k in s.deployments
      ensures Patched(s.deployments, pm)[k] == s.deployments[k]
    {
      if k in pm {
        assert PatchReplicas(k, pm[k]) in calls;
      }
    }
    assert Patched(s.deployments, pm) == s.deployments;
  }
}
