/** What the index sees whenever the ring is at rest, in the terms of placement and selection. */
module WorldViews {
  import opened PutPhase
  import opened Losses
  import opened Takeover
  import opened World
  import Ring
  import RingRuns
  import RingOutcomes
  import RingRest

  lemma FormedView(net: Ring.Net)
    requires RingRuns.Reachable(net) && RingRuns.Settled(net) && net.dead == 0
    ensures FullView(View(net), net.size)
  {
    RingOutcomes.FormedRing(net);
    RingRest.IdKept(net, net.size);
  }

  lemma BereavedView(net: Ring.Net)
    requires RingRuns.Reachable(net) && RingRuns.Settled(net) && 0 < net.dead < net.size
    ensures LossView(View(net), net.size, net.dead)
  {
    RingOutcomes.IndexAfterLoss(net);
    RingRest.IdKept(net, net.size);
    RingRest.DeathIsSurvivable(net);
  }

  lemma InheritedView(net: Ring.Net)
    requires RingRuns.Reachable(net) && RingRuns.Settled(net) && net.dead == net.size
    ensures TakeoverView(View(net), net.size)
  {
    RingOutcomes.IndexAfterTakeover(net);
    RingRest.IdKept(net, net.size - 1);
  }

  lemma LeaderFirst(leader: nat, reporters: seq<nat>)
    requires leader >= 1 && RingOutcomes.ReportedOnce(reporters, leader)
    ensures AllSurvivors(leader + 1, [leader] + reporters)
  {
    var order := [leader] + reporters;
    assert leader !in reporters;
    forall n: nat
      ensures n in order <==> 1 <= n < leader + 1
    {
      assert n in order <==> n == leader || n in reporters;
    }
    assert forall k :: 0 <= k < |reporters| ==> order[k + 1] == reporters[k] && reporters[k] in reporters;
  }

  /** Who has reported to the new index: first itself, then the others in the order they came. */
  function Reporters(net: Ring.Net): seq<nat>
    requires net.size >= 1
  {
    [net.size - 1] + Ring.At(net, net.size - 1).reporters
  }

  lemma AllHaveReported(net: Ring.Net)
    requires RingRuns.Reachable(net) && RingRuns.Settled(net) && net.dead == net.size
    ensures AllSurvivors(net.size, Reporters(net))
  {
    RingOutcomes.IndexAfterTakeover(net);
    LeaderFirst(net.size - 1, Ring.At(net, net.size - 1).reporters);
  }
}
