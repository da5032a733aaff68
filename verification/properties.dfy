/** What each operation does to the cluster: the state after its calls, what it leaves
    untouched, and how repeated or combined operations behave. */
module Properties {
  import opened Wrappers
  import opened Labels
  import opened Cluster
  import opened Ownership
  import opened Engine

  /** The pods left after deleting the pods `k` of `ns` for which `gone(k)` holds. */
  lemma DeletesOnlyEffect(s: Snapshot, calls: seq<Call>, ns: string, gone: Key -> bool)
    requires forall c :: c in calls <==> c.DeletePod? && c.target in s.pods && c.target.ns == ns && gone(c.target)
    ensures Apply(s, calls) == s.(pods := map k | k in s.pods && !(k.ns == ns && gone(k)) :: s.pods[k])
  {
    ApplyDeletes(s, calls);
    assert forall k :: k in Deleted(calls) <==> DeletePod(k) in calls;
  }

  /** StopNamespace sets every deployment of `ns` to zero replicas; deployments of other
      namespaces, every other deployment field, pods and ReplicaSets are unchanged. */
  lemma StopNamespaceEffect(s: Snapshot, ns: string, listed: seq<Key>)
    requires IsListing(listed, s.deployments.Keys, ns)
    ensures var t := Apply(s, StopNamespace(s, ns, listed));
      && t.pods == s.pods && t.replicaSets == s.replicaSets
      && t.deployments.Keys == s.deployments.Keys
      && forall k :: k in s.deployments ==>
           t.deployments[k] == if k.ns == ns then s.deployments[k].(replicas := 0) else s.deployments[k]
  {
    var calls := StopNamespace(s, ns, listed);
    ApplyPatches(s, calls);
    var pm := PatchMap(calls);
    assert forall k :: k in pm <==> k in s.deployments && k.ns == ns by {
      forall k | k in s.deployments && k.ns == ns ensures k in pm {
        assert PatchReplicas(k, 0) in calls;
      }
    }
    assert forall k :: k in pm ==> pm[k] == 0 by {
      forall k | k in pm ensures pm[k] == 0 {
        assert PatchReplicas(k, pm[k]) in calls;
      }
    }
  }

  /** Stopping a namespace a second time changes nothing. */
  lemma StopNamespaceIdempotent(s: Snapshot, ns: string, listed: seq<Key>, relisted: seq<Key>)
    requires IsListing(listed, s.deployments.Keys, ns)
    requires IsListing(relisted, s.deployments.Keys, ns)
    ensures var t := Apply(s, StopNamespace(s, ns, listed));
            t.deployments.Keys == s.deployments.Keys && Apply(t, StopNamespace(t, ns, relisted)) == t
  {
    var t := Apply(s, StopNamespace(s, ns, listed));
    StopNamespaceEffect(s, ns, listed);
    assert IsListing(relisted, t.deployments.Keys, ns);
    PatchesKeepingReplicas(t, StopNamespace(t, ns, relisted));
  }

  /** StartNamespace sets every deployment of `ns` to its recorded replica count and
      changes nothing else. */
  lemma StartNamespaceEffect(s: Snapshot, ns: string, listed: seq<Key>, decode: Decoder)
    requires IsListing(listed, s.deployments.Keys, ns)
    ensures var t := Apply(s, StartNamespace(s, ns, listed, decode));
      && t.pods == s.pods && t.replicaSets == s.replicaSets
      && t.deployments.Keys == s.deployments.Keys
      && forall k :: k in s.deployments ==>
           t.deployments[k] ==
             if k.ns == ns then s.deployments[k].(replicas := RecordedReplicas(s.deployments[k], decode))
             else s.deployments[k]
  {
    var calls := StartNamespace(s, ns, listed, decode);
    ApplyPatches(s, calls);
    var pm := PatchMap(calls);
    assert forall k :: k in pm <==> k in s.deployments && k.ns == ns by {
      forall k | k in s.deployments && k.ns == ns ensures k in pm {
        assert PatchReplicas(k, RecordedReplicas(s.deployments[k], decode)) in calls;
      }
    }
    assert forall k :: k in pm ==> pm[k] == RecordedReplicas(s.deployments[k], decode) by {
      forall k | k in pm ensures pm[k] == RecordedReplicas(s.deployments[k], decode) {
        assert PatchReplicas(k, pm[k]) in calls;
      }
    }
  }

  /** The recorded count is read from the annotations alone, so a replica patch keeps it. */
  lemma RecordedReplicasIgnoresReplicas(d: Deployment, n: ReplicaCount, decode: Decoder)
    ensures RecordedReplicas(d.(replicas := n), decode) == RecordedReplicas(d, decode)
  {
  }

  /** Per deployment, starting overwrites exactly the replica count stopping changed. */
  lemma StartOverridesStop(sd: map<Key, Deployment>, td: map<Key, Deployment>, ud: map<Key, Deployment>,
                           vd: map<Key, Deployment>, ns: string, decode: Decoder)
    requires td.Keys == sd.Keys && ud.Keys == sd.Keys && vd.Keys == sd.Keys
    requires forall k :: k in sd ==> td[k] == if k.ns == ns then sd[k].(replicas := 0) else sd[k]
    requires forall k :: k in td ==>
               ud[k] == if k.ns == ns then td[k].(replicas := RecordedReplicas(td[k], decode)) else td[k]
    requires forall k :: k in sd ==>
               vd[k] == if k.ns == ns then sd[k].(replicas := RecordedReplicas(sd[k], decode)) else sd[k]
    ensures ud == vd
  {
    forall k | k in sd
      ensures ud[k] == vd[k]
    {
      if k.ns == ns {
        RecordedReplicasIgnoresReplicas(sd[k], 0, decode);
      }
    }
  }

  /** Starting a stopped namespace restores the same counts as starting it directly: the
      stop loses nothing that start reads. */
  lemma StartAfterStopNamespace(s: Snapshot, ns: string, listed: seq<Key>, relisted: seq<Key>, decode: Decoder)
    requires IsListing(listed, s.deployments.Keys, ns)
    requires IsListing(relisted, s.deployments.Keys, ns)
    ensures var t := Apply(s, StopNamespace(s, ns, listed));
            && t.deployments.Keys == s.deployments.Keys
            && Apply(t, StartNamespace(t, ns, relisted, decode)) == Apply(s, StartNamespace(s, ns, relisted, decode))
  {
    var t := Apply(s, StopNamespace(s, ns, listed));
    StopNamespaceEffect(s, ns, listed);
    assert IsListing(relisted, t.deployments.Keys, ns);
    StartNamespaceEffect(t, ns, relisted, decode);
    StartNamespaceEffect(s, ns, relisted, decode);
    var u := Apply(t, StartNamespace(t, ns, relisted, decode));
    var v := Apply(s, StartNamespace(s, ns, relisted, decode));
    StartOverridesStop(s.deployments, t.deployments, u.deployments, v.deployments, ns, decode);
  }

  /** Starting a namespace a second time changes nothing. */
  lemma StartNamespaceIdempotent(s: Snapshot, ns: string, listed: seq<Key>, relisted: seq<Key>, decode: Decoder)
    requires IsListing(listed, s.deployments.Keys, ns)
    requires IsListing(relisted, s.deployments.Keys, ns)
    ensures var t := Apply(s, StartNamespace(s, ns, listed, decode));
            t.deployments.Keys == s.deployments.Keys && Apply(t, StartNamespace(t, ns, relisted, decode)) == t
  {
    var t := Apply(s, StartNamespace(s, ns, listed, decode));
    StartNamespaceEffect(s, ns, listed, decode);
    assert IsListing(relisted, t.deployments.Keys, ns);
    var calls := StartNamespace(t, ns, relisted, decode);
    forall c | c in calls
      ensures c.PatchReplicas? && c.target in t.deployments && t.deployments[c.target].replicas == c.replicas
    {
      RecordedReplicasIgnoresReplicas(s.deployments[c.target], RecordedReplicas(s.deployments[c.target], decode), decode);
    }
    PatchesKeepingReplicas(t, calls);
  }

  /** After RestartNamespace the remaining pods are the protected pods of `ns` and all pods of
      other namespaces; deployments and ReplicaSets are unchanged. */
  lemma RestartNamespaceEffect(s: Snapshot, ns: string, listed: seq<Key>)
    requires IsListing(listed, s.pods.Keys, ns)
    ensures var t := Apply(s, RestartNamespace(s, ns, listed));
      && t.deployments == s.deployments && t.replicaSets == s.replicaSets
      && t.pods == map k | k in s.pods && (k.ns != ns || Protected(s, ns, s.pods[k])) :: s.pods[k]
  {
    var calls := RestartNamespace(s, ns, listed);
    DeletesOnlyEffect(s, calls, ns, k => k in s.pods && !Protected(s, ns, s.pods[k]));
  }

  /** Restarting a namespace a second time deletes nothing more from the snapshot, where a
      deleted pod is gone at once and no controller replaces it. */
  lemma RestartNamespaceIdempotent(s: Snapshot, ns: string, listed: seq<Key>, relisted: seq<Key>)
    requires IsListing(listed, s.pods.Keys, ns)
    ensures var t := Apply(s, RestartNamespace(s, ns, listed));
            IsListing(relisted, t.pods.Keys, ns) ==> Apply(t, RestartNamespace(t, ns, relisted)) == t
  {
    var t := Apply(s, RestartNamespace(s, ns, listed));
    RestartNamespaceEffect(s, ns, listed);
    if IsListing(relisted, t.pods.Keys, ns) {
      forall k | k in t.pods && k.ns == ns ensures Protected(t, ns, t.pods[k]) {
        ProtectedIgnoresPods(s, t, ns, s.pods[k]);
      }
      RestartNamespaceEffect(t, ns, relisted);
      var u := Apply(t, RestartNamespace(t, ns, relisted));
      assert u.pods == t.pods;
    }
  }

  /** A marked deployment is never restarted: no call at all, so the cluster is unchanged. */
  lemma RestartDeploymentMarkedIsNoOp(s: Snapshot, ns: string, name: string, listed: seq<Key>)
    requires IsListing(listed, s.pods.Keys, ns)
    requires Key(ns, name) in s.deployments && DeploymentMarked(s.deployments[Key(ns, name)])
    ensures RestartDeployment(s, ns, name, listed) == Success([])
    ensures Apply(s, RestartDeployment(s, ns, name, listed).value) == s
  {
  }

  /** RestartDeployment of an unmarked deployment removes exactly the unmarked pods of `ns`
      that satisfy its match-labels; pods of other namespaces, deployments (replica counts
      included) and ReplicaSets are unchanged. */
  lemma RestartDeploymentEffect(s: Snapshot, ns: string, name: string, listed: seq<Key>)
    requires IsListing(listed, s.pods.Keys, ns)
    requires Key(ns, name) in s.deployments && !DeploymentMarked(s.deployments[Key(ns, name)])
    requires s.deployments[Key(ns, name)].matchLabels.Some?
    ensures var r := RestartDeployment(s, ns, name, listed);
      var sel := s.deployments[Key(ns, name)].matchLabels.value;
      && r.Success?
      && Apply(s, r.value) ==
           s.(pods := map k | k in s.pods && !(k.ns == ns && Matches(sel, s.pods[k].labels) && !PodMarked(s.pods[k]))
                        :: s.pods[k])
  {
    var sel := s.deployments[Key(ns, name)].matchLabels.value;
    var r := RestartDeployment(s, ns, name, listed);
    DeletesOnlyEffect(s, r.value, ns, k => k in s.pods && Matches(sel, s.pods[k].labels) && !PodMarked(s.pods[k]));
  }

  /** Restarting a deployment a second time deletes nothing more from the snapshot: the pods
      it would select are already gone (no controller replaces them), and the deployment
      itself is unchanged. */
  lemma RestartDeploymentIdempotent(s: Snapshot, ns: string, name: string, listed: seq<Key>, relisted: seq<Key>)
    requires IsListing(listed, s.pods.Keys, ns)
    requires RestartDeployment(s, ns, name, listed).Success?
    ensures var t := Apply(s, RestartDeployment(s, ns, name, listed).value);
      IsListing(relisted, t.pods.Keys, ns) ==>
        && RestartDeployment(t, ns, name, relisted).Success?
        && Apply(t, RestartDeployment(t, ns, name, relisted).value) == t
  {
    var key := Key(ns, name);
    var t := Apply(s, RestartDeployment(s, ns, name, listed).value);
    if IsListing(relisted, t.pods.Keys, ns) {
      if DeploymentMarked(s.deployments[key]) {
        RestartDeploymentMarkedIsNoOp(s, ns, name, listed);
        RestartDeploymentMarkedIsNoOp(t, ns, name, relisted);
      } else {
        var sel := s.deployments[key].matchLabels.value;
        RestartDeploymentEffect(s, ns, name, listed);
        RestartDeploymentEffect(t, ns, name, relisted);
        var u := Apply(t, RestartDeployment(t, ns, name, relisted).value);
        assert u.pods == t.pods;
      }
    }
  }

  /** StopDeployment sets the named deployment to zero replicas and changes nothing else;
      it fails, changing nothing, when there is no such deployment. */
  lemma StopDeploymentEffect(s: Snapshot, ns: string, name: string)
    ensures var r := StopDeployment(s, ns, name);
      r.Success? ==>
        && Key(ns, name) in s.deployments
        && Apply(s, r.value) == SetReplicas(s, Key(ns, name), 0)
  {
    var r := StopDeployment(s, ns, name);
    if r.Success? {
      ApplySingle(s, PatchReplicas(Key(ns, name), 0));
    }
  }

  /** Stopping a deployment a second time changes nothing. */
  lemma StopDeploymentIdempotent(s: Snapshot, ns: string, name: string)
    requires Key(ns, name) in s.deployments
    ensures var t := Apply(s, StopDeployment(s, ns, name).value);
            StopDeployment(t, ns, name).Success? && Apply(t, StopDeployment(t, ns, name).value) == t
  {
    var key := Key(ns, name);
    StopDeploymentEffect(s, ns, name);
    var t := SetReplicas(s, key, 0);
    StopDeploymentEffect(t, ns, name);
    SetReplicasTwice(s, key, 0, 0);
  }

  /** StartDeployment sets the named deployment to its recorded replica count and changes
      nothing else; it fails, changing nothing, when there is no such deployment. */
  lemma StartDeploymentEffect(s: Snapshot, ns: string, name: string, decode: Decoder)
    ensures var r := StartDeployment(s, ns, name, decode);
      r.Success? ==>
        && Key(ns, name) in s.deployments
        && Apply(s, r.value) == SetReplicas(s, Key(ns, name), RecordedReplicas(s.deployments[Key(ns, name)], decode))
  {
    var r := StartDeployment(s, ns, name, decode);
    if r.Success? {
      ApplySingle(s, r.value[0]);
    }
  }

  /** Starting a deployment a second time changes nothing. */
  lemma StartDeploymentIdempotent(s: Snapshot, ns: string, name: string, decode: Decoder)
    requires Key(ns, name) in s.deployments
    ensures var t := Apply(s, StartDeployment(s, ns, name, decode).value);
      && StartDeployment(t, ns, name, decode).Success?
      && Apply(t, StartDeployment(t, ns, name, decode).value) == t
  {
    var key := Key(ns, name);
    var d := s.deployments[key];
    var n := RecordedReplicas(d, decode);
    StartDeploymentEffect(s, ns, name, decode);
    var t := SetReplicas(s, key, n);
    StartDeploymentEffect(t, ns, name, decode);
    RecordedReplicasIgnoresReplicas(d, n, decode);
    SetReplicasTwice(s, key, n, n);
  }

  /** Stop followed by start restores the recorded count, whatever the count was before. */
  lemma StartAfterStopDeployment(s: Snapshot, ns: string, name: string, decode: Decoder)
    requires Key(ns, name) in s.deployments
    ensures var t := Apply(s, StopDeployment(s, ns, name).value);
      && StartDeployment(t, ns, name, decode).Success?
      && Apply(t, StartDeployment(t, ns, name, decode).value) == Apply(s, StartDeployment(s, ns, name, decode).value)
  {
    var key := Key(ns, name);
    var d := s.deployments[key];
    StopDeploymentEffect(s, ns, name);
    var t := SetReplicas(s, key, 0);
    StartDeploymentEffect(t, ns, name, decode);
    StartDeploymentEffect(s, ns, name, decode);
    assert RecordedReplicas(t.deployments[key], decode) == RecordedReplicas(d, decode) by {
      RecordedReplicasIgnoresReplicas(d, 0, decode);
    }
    SetReplicasTwice(s, key, 0, RecordedReplicas(d, decode));
  }

  /** RestartPod removes the named pod exactly when it is not protected, and nothing else. */
  lemma RestartPodEffect(s: Snapshot, ns: string, name: string)
    ensures var r := RestartPod(s, ns, name);
      r.Success? ==> (Apply(s, r.value) ==
        if Protected(s, ns, s.pods[Key(ns, name)]) then s else s.(pods := s.pods - {Key(ns, name)}))
  {
    var r := RestartPod(s, ns, name);
    if r.Success? {
      ApplyDeletes(s, r.value);
      assert forall k :: k in Deleted(r.value) <==> DeletePod(k) in r.value;
    }
  }

  /** Restarting a pod a second time changes nothing in the snapshot: a pod the first call
      deleted is no longer in it, so the second call fails, and a protected pod stays
      protected and is kept again. (On a cluster a deleted pod lingers while it terminates.) */
  lemma RestartPodIdempotent(s: Snapshot, ns: string, name: string)
    requires Key(ns, name) in s.pods
    ensures var t := Apply(s, RestartPod(s, ns, name).value);
      var r := RestartPod(t, ns, name);
      && (r.Failure? <==> !Protected(s, ns, s.pods[Key(ns, name)]))
      && (r.Success? ==> Apply(t, r.value) == t)
  {
    var key := Key(ns, name);
    RestartPodEffect(s, ns, name);
    var t := Apply(s, RestartPod(s, ns, name).value);
    if Protected(s, ns, s.pods[key]) {
      assert t == s;
      RestartPodEffect(t, ns, name);
    } else {
      assert key !in t.pods;
    }
  }

  /** Fail-open end to end: an unmarked pod whose first ReplicaSet reference names a
      ReplicaSet that cannot be read is deleted by RestartPod. */
  lemma RestartPodDeletesWhenReplicaSetMissing(s: Snapshot, ns: string, name: string, i: int)
    requires Key(ns, name) in s.pods && !PodMarked(s.pods[Key(ns, name)])
    requires IsFirstOfKind(s.pods[Key(ns, name)].ownerRefs, ReplicaSetKind, i)
    requires Key(ns, s.pods[Key(ns, name)].ownerRefs.value[i].name) !in s.replicaSets
    ensures RestartPod(s, ns, name) == Success([DeletePod(Key(ns, name))])
  {
    MissingReplicaSetFailsOpen(s, ns, s.pods[Key(ns, name)], i);
  }
}
