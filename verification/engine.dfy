/** The seven lifecycle operations of the service. Each reads the snapshot and returns the
    mutating calls it issues, in order; `Cluster.Apply` gives the cluster afterwards. No
    operation reads an object after it has mutated it (StartDeployment and RestartPod read
    their target before the one call on it), so deciding all calls against the initial
    snapshot is the same as interleaving reads and calls. */
module Engine {
  import opened Wrappers
  import opened Labels
  import opened Cluster
  import opened Ownership

  const LastAppliedAnnotation: string := "kubectl.kubernetes.io/last-applied-configuration"

  /** Deserialising a last-applied document and reading its `spec.replicas`: `None` when it
      throws, `Some(None)` when the document, its spec or its replica count is null. */
  type Decoder = string -> Option<Option<ReplicaCount>>

  /** The raw annotation, when the annotation map is non-null and has the key. */
  function LastApplied(d: Deployment): (r: Option<string>)
    ensures r.Some? <==> d.annotations.Some? && LastAppliedAnnotation in d.annotations.value
    ensures r.Some? ==> r.value == d.annotations.value[LastAppliedAnnotation]
  {
    if d.annotations.Some? && LastAppliedAnnotation in d.annotations.value
    then Some(d.annotations.value[LastAppliedAnnotation])
    else None
  }

  /** The recorded replica count: `spec.replicas` of the last-applied document, and 0 when
      the annotation is absent, does not parse, or has no replica count. */
  function RecordedReplicas(d: Deployment, decode: Decoder): (n: ReplicaCount)
    ensures LastApplied(d).Some? && decode(LastApplied(d).value).Some? && decode(LastApplied(d).value).value.Some?
            ==> n == decode(LastApplied(d).value).value.value
    ensures n != 0 ==> LastApplied(d).Some? && decode(LastApplied(d).value) == Some(Some(n))
  {
    match LastApplied(d)
    case None => 0
    case Some(json) =>
      match decode(json)
      case Some(Some(v)) => v
      case _ => 0
  }

  /** The per-pod loop: delete each listed pod, in order, unless `skip` holds of it. */
  function DeleteUnless(s: Snapshot, listed: seq<Key>, skip: Pod -> bool): (calls: seq<Call>)
    requires forall k :: k in listed ==> k in s.pods
    requires NoDuplicates(listed)
    ensures forall c :: c in calls <==> c.DeletePod? && c.target in listed && !skip(s.pods[c.target])
    ensures NoDuplicates(calls)
    ensures |calls| <= |listed|
    decreases |listed|
  {
    if |listed| == 0 then []
    else
      var rest := DeleteUnless(s, listed[1..], skip);
      assert forall k :: k in listed <==> k == listed[0] || k in listed[1..] by {
        assert listed == [listed[0]] + listed[1..];
      }
      if skip(s.pods[listed[0]]) then rest else [DeletePod(listed[0])] + rest
  }

  /** The pods a label-selector list call returns: the listed pods that satisfy the
      selector, in listing order. */
  function ListMatching(s: Snapshot, listed: seq<Key>, selector: StringMap): (r: seq<Key>)
    requires forall k :: k in listed ==> k in s.pods
    requires NoDuplicates(listed)
    ensures forall k :: k in r <==> k in listed && Matches(selector, s.pods[k].labels)
    ensures NoDuplicates(r)
    decreases |listed|
  {
    if |listed| == 0 then []
    else
      var rest := ListMatching(s, listed[1..], selector);
      assert forall k :: k in listed <==> k == listed[0] || k in listed[1..] by {
        assert listed == [listed[0]] + listed[1..];
      }
      if Matches(selector, s.pods[listed[0]].labels) then [listed[0]] + rest else rest
  }

  /** StopNamespace: one zero-replica patch per deployment of the namespace, without a skip
      check, and nothing else. */
  function StopNamespace(s: Snapshot, ns: string, listed: seq<Key>): (calls: seq<Call>)
    requires IsListing(listed, s.deployments.Keys, ns)
    ensures |calls| == |listed|
    ensures forall c :: c in calls <==>
              c.PatchReplicas? && c.target in s.deployments && c.target.ns == ns && c.replicas == 0
  {
    var calls := seq(|listed|, i requires 0 <= i < |listed| => PatchReplicas(listed[i], 0));
    assert forall k :: k in listed ==> PatchReplicas(k, 0) in calls by {
      forall k | k in listed ensures PatchReplicas(k, 0) in calls {
        var i :| 0 <= i < |listed| && listed[i] == k;
        assert calls[i] == PatchReplicas(k, 0);
      }
    }
    calls
  }

  /** StartNamespace: one patch per deployment of the namespace, to its recorded replica
      count, and nothing else. */
  function StartNamespace(s: Snapshot, ns: string, listed: seq<Key>, decode: Decoder): (calls: seq<Call>)
    requires IsListing(listed, s.deployments.Keys, ns)
    ensures |calls| == |listed|
    ensures forall c :: c in calls <==>
              && c.PatchReplicas? && c.target in s.deployments && c.target.ns == ns
              && c.replicas == RecordedReplicas(s.deployments[c.target], decode)
  {
    var calls := seq(|listed|, i requires 0 <= i < |listed| =>
                       PatchReplicas(listed[i], RecordedReplicas(s.deployments[listed[i]], decode)));
    assert forall k :: k in listed ==> PatchReplicas(k, RecordedReplicas(s.deployments[k], decode)) in calls by {
      forall k | k in listed ensures PatchReplicas(k, RecordedReplicas(s.deployments[k], decode)) in calls {
        var i :| 0 <= i < |listed| && listed[i] == k;
        assert calls[i] == PatchReplicas(k, RecordedReplicas(s.deployments[k], decode));
      }
    }
    calls
  }

  /** RestartNamespace: delete every pod of the namespace that is not protected, either by
      its own marker or by its resolved owning deployment's. */
  function RestartNamespace(s: Snapshot, ns: string, listed: seq<Key>): (calls: seq<Call>)
    requires IsListing(listed, s.pods.Keys, ns)
    ensures forall c :: c in calls <==>
              c.DeletePod? && c.target in s.pods && c.target.ns == ns && !Protected(s, ns, s.pods[c.target])
    ensures NoDuplicates(calls)
  {
    DeleteUnless(s, listed, p => Protected(s, ns, p))
  }

  /** RestartDeployment: read the deployment (absent: failure); a marked deployment is left
      alone; otherwise list the pods of the namespace matching its match-labels and delete
      those that are not marked themselves. The pod loop does no ownership walk. */
  function RestartDeployment(s: Snapshot, ns: string, name: string, listed: seq<Key>): (r: Result<seq<Call>, Error>)
    requires IsListing(listed, s.pods.Keys, ns)
    ensures Key(ns, name) !in s.deployments ==> r == Failure(NotFound(Key(ns, name)))
    ensures Key(ns, name) in s.deployments && DeploymentMarked(s.deployments[Key(ns, name)]) ==> r == Success([])
    ensures r.Failure? && Key(ns, name) in s.deployments ==> s.deployments[Key(ns, name)].matchLabels.None?
    ensures (&& Key(ns, name) in s.deployments
             && !DeploymentMarked(s.deployments[Key(ns, name)])
             && s.deployments[Key(ns, name)].matchLabels.None?)
            ==> r == Failure(NullMatchLabels(Key(ns, name)))
    ensures r.Success? ==> forall c :: c in r.value <==>
              && c.DeletePod? && c.target in s.pods && c.target.ns == ns
              && !DeploymentMarked(s.deployments[Key(ns, name)])
              && s.deployments[Key(ns, name)].matchLabels.Some?
              && Matches(s.deployments[Key(ns, name)].matchLabels.value, s.pods[c.target].labels)
              && !PodMarked(s.pods[c.target])
    ensures r.Success? ==> NoDuplicates(r.value)
  {
    var key := Key(ns, name);
    if key !in s.deployments then Failure(NotFound(key))
    else
      var dep := s.deployments[key];
      if DeploymentMarked(dep) then Success([])
      else if dep.matchLabels.None? then Failure(NullMatchLabels(key))
      else
        var selected := ListMatching(s, listed, dep.matchLabels.value);
        Success(DeleteUnless(s, selected, PodMarked))
  }

  /** StopDeployment: patch the named deployment to zero replicas, without a skip check;
      the patch fails when there is no such deployment. On success there is exactly one
      call; `Properties.StopDeploymentEffect` gives the cluster it leaves. */
  function StopDeployment(s: Snapshot, ns: string, name: string): (r: Result<seq<Call>, Error>)
    ensures r.Failure? <==> Key(ns, name) !in s.deployments
    ensures r.Success? ==> |r.value| == 1
    ensures r.Success? ==> forall c :: c in r.value ==> c.PatchReplicas? && c.target == Key(ns, name) && c.replicas == 0
  {
    var key := Key(ns, name);
    if key !in s.deployments then Failure(NotFound(key))
    else Success([PatchReplicas(key, 0)])
  }

  /** StartDeployment: read the named deployment (absent: failure) and patch it to its
      recorded replica count. On success there is exactly one call;
      `Properties.StartDeploymentEffect` gives the cluster it leaves. */
  function StartDeployment(s: Snapshot, ns: string, name: string, decode: Decoder): (r: Result<seq<Call>, Error>)
    ensures r.Failure? <==> Key(ns, name) !in s.deployments
    ensures r.Success? ==> |r.value| == 1
    ensures r.Success? ==> forall c :: c in r.value ==>
              c.PatchReplicas? && c.target == Key(ns, name) && c.replicas == RecordedReplicas(s.deployments[Key(ns, name)], decode)
  {
    var key := Key(ns, name);
    if key !in s.deployments then Failure(NotFound(key))
    else Success([PatchReplicas(key, RecordedReplicas(s.deployments[key], decode))])
  }

  /** RestartPod: read the named pod (absent: failure) and delete it unless it is protected. */
  function RestartPod(s: Snapshot, ns: string, name: string): (r: Result<seq<Call>, Error>)
    ensures r.Failure? <==> Key(ns, name) !in s.pods
    ensures r.Success? ==> forall c :: c in r.value <==>
              c == DeletePod(Key(ns, name)) && !Protected(s, ns, s.pods[Key(ns, name)])
    ensures r.Success? ==> |r.value| <= 1
  {
    var key := Key(ns, name);
    if key !in s.pods then Failure(NotFound(key))
    else if Protected(s, ns, s.pods[key]) then Success([])
    else Success([DeletePod(key)])
  }
}
