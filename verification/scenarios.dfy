/** Two worked clusters: a deployment `api` with three pods, and a deployment `batch` whose
    match-labels carry the marker in mixed case. */
module Scenarios {
  import opened Wrappers
  import opened Labels
  import opened Cluster
  import opened Ownership
  import opened Engine
  import opened Properties

  const ApiJson: string := "{\"spec\":{\"replicas\":3}}"

  function ApiCluster(): Snapshot {
    var labels := Some(map["app" := "api"]);
    Snapshot(
      map[Key("ns1", "api") := Deployment(Some(map["app" := "api"]), 3, Some(map[LastAppliedAnnotation := ApiJson]))],
      map[Key("ns1", "api-1") := Pod(labels, None),
          Key("ns1", "api-2") := Pod(labels, None),
          Key("ns1", "api-3") := Pod(labels, None)],
      map[])
  }

  const ApiPods: set<Key> := {Key("ns1", "api-1"), Key("ns1", "api-2"), Key("ns1", "api-3")}

  /** Every pod of the `api` cluster matches the deployment's selector and is unmarked. */
  lemma ApiPodsSelected()
    ensures ApiCluster().pods.Keys == ApiPods
    ensures forall k :: k in ApiCluster().pods ==>
              && Matches(map["app" := "api"], ApiCluster().pods[k].labels)
              && !PodMarked(ApiCluster().pods[k])
  {
    var s := ApiCluster();
    var sel := map["app" := "api"];
    assert SkipKey !in sel;
    forall k | k in s.pods
      ensures Matches(sel, s.pods[k].labels) && !PodMarked(s.pods[k])
    {
      assert s.pods[k] == Pod(Some(sel), None);
    }
  }

  /** Restarting `api` deletes exactly its three pods, whatever the listing order, and
      patches nothing. */
  lemma ApiRestartDeletesItsPods(listed: seq<Key>)
    requires IsListing(listed, ApiCluster().pods.Keys, "ns1")
    ensures var r := RestartDeployment(ApiCluster(), "ns1", "api", listed);
      && r.Success?
      && forall c :: c in r.value <==> c.DeletePod? && c.target in ApiPods
  {
    var s := ApiCluster();
    var sel := map["app" := "api"];
    assert s.deployments[Key("ns1", "api")].matchLabels == Some(sel);
    assert SkipKey !in sel;
    ApiPodsSelected();
  }

  /** Stop then start brings `api` back to the three replicas its last-applied document records. */
  lemma ApiStopThenStart(decode: Decoder)
    requires decode(ApiJson) == Some(Some(3))
    ensures var t := Apply(ApiCluster(), StopDeployment(ApiCluster(), "ns1", "api").value);
      && t.deployments[Key("ns1", "api")].replicas == 0
      && t.pods == ApiCluster().pods
      && StartDeployment(t, "ns1", "api", decode).Success?
      && var u := Apply(t, StartDeployment(t, "ns1", "api", decode).value);
         Key("ns1", "api") in u.deployments && u.deployments[Key("ns1", "api")].replicas == 3
  {
    var s := ApiCluster();
    StopDeploymentEffect(s, "ns1", "api");
    var t := Apply(s, StopDeployment(s, "ns1", "api").value);
    StartDeploymentEffect(t, "ns1", "api", decode);
    assert LastApplied(t.deployments[Key("ns1", "api")]) == Some(ApiJson);
  }

  function BatchCluster(): Snapshot {
    var marked := Some(map["app" := "batch", "restart" := "Ignore"]);
    Snapshot(
      map[Key("ns1", "batch") := Deployment(marked, 2, None)],
      map[Key("ns1", "batch-1") := Pod(marked, None)],
      map[])
  }

  /** A deployment whose match-labels hold `restart: Ignore` is not restarted: zero calls. */
  lemma BatchRestartIsNoOp(listed: seq<Key>)
    requires IsListing(listed, BatchCluster().pods.Keys, "ns1")
    ensures RestartDeployment(BatchCluster(), "ns1", "batch", listed) == Success([])
  {
    var v := "Ignore";
    assert Lower(v[0]) == 'i';
    assert EqualsIgnoreCase(v, SkipValue);
  }
}
