/**
 Properties of the exclusive router that relate several calls: capacity,
 duplicates, reset, and how the routing rule reacts to each operation.
 */
module RouterProperties {
  import opened RouterTypes
  import opened ExclusiveRouter

  /** Whether a message is routed by router `r`, by the reference rule. */
  predicate RoutedBy(r: Router, msg: NetworkMessage)
    requires Valid(r)
  {
    Routes(r.forwardTopicReports, Excluded(r), msg)
  }

  /** The outcome of a sequence of `AddTopicToExclude` calls. */
  datatype AddManyResult = AddManyResult(router: Router, added: seq<bool>)

  /** Calls `AddTopicToExclude` for each id in turn. */
  function AddMany(r: Router, ids: seq<uint32>): (res: AddManyResult)
    requires Valid(r)
    ensures Valid(res.router)
    ensures |res.added| == |ids|
    decreases |ids|
  {
    if |ids| == 0 then
      AddManyResult(r, [])
    else
      var first := AddTopicToExclude(r, ids[0]);
      var rest := AddMany(first.router, ids[1..]);
      AddManyResult(rest.router, [first.added] + rest.added)
  }

  /** While there is room, every add succeeds and the ids are appended in order. */
  lemma {:induction false} AddManyWithinCapacity(r: Router, ids: seq<uint32>)
    requires Valid(r)
    requires r.topicListLength as nat + |ids| <= TopicListSize
    ensures forall k :: 0 <= k < |ids| ==> AddMany(r, ids).added[k]
    ensures Excluded(AddMany(r, ids).router) == Excluded(r) + ids
    ensures AddMany(r, ids).router.forwardTopicReports == r.forwardTopicReports
    decreases |ids|
  {
    if |ids| > 0 {
      var first := AddTopicToExclude(r, ids[0]);
      AddManyWithinCapacity(first.router, ids[1..]);
      assert Excluded(r) + [ids[0]] + ids[1..] == Excluded(r) + ids;
    }
  }

  /**
   The capacity is exactly 1000: a fresh router accepts 1000 ids, and the
   next add returns false and leaves the full list as it is.
   */
  lemma CapacityIsExactlyOneThousand(forwardTopicReports: bool, gateways: seq<GatewayRef>,
                                     ids: seq<uint32>, extra: uint32)
    requires |gateways| == GatewayCount
    requires |ids| == 1000
    ensures forall k :: 0 <= k < |ids| ==> AddMany(Create(forwardTopicReports, gateways), ids).added[k]
    ensures Excluded(AddMany(Create(forwardTopicReports, gateways), ids).router) == ids
    ensures AddTopicToExclude(AddMany(Create(forwardTopicReports, gateways), ids).router, extra)
            == AddResult(AddMany(Create(forwardTopicReports, gateways), ids).router, false)
  {
    var r0 := Create(forwardTopicReports, gateways);
    AddManyWithinCapacity(r0, ids);
    var full := AddMany(r0, ids).router;
    assert |Excluded(full)| == 1000;
  }

  /** Duplicates are not detected: adding the same id twice takes two slots. */
  lemma DuplicatesConsumeTwoSlots(r: Router, topicId: uint32)
    requires Valid(r)
    requires r.topicListLength as nat + 2 <= TopicListSize
    ensures AddTopicToExclude(r, topicId).added
    ensures AddTopicToExclude(AddTopicToExclude(r, topicId).router, topicId).added
    ensures Excluded(AddTopicToExclude(AddTopicToExclude(r, topicId).router, topicId).router)
            == Excluded(r) + [topicId, topicId]
  {
  }

  /** Once `addTopicToExclude` reports success, no message with that id is routed. */
  lemma AddedTopicIsNotRouted(r: Router, topicId: uint32, msg: NetworkMessage)
    requires Valid(r)
    requires AddTopicToExclude(r, topicId).added
    requires msg.topicId == topicId
    ensures !RoutedBy(AddTopicToExclude(r, topicId).router, msg)
  {
  }

  /** Adding an id changes the decision for that id only. */
  lemma AddLeavesOtherTopicsAlone(r: Router, topicId: uint32, msg: NetworkMessage)
    requires Valid(r)
    requires msg.topicId != topicId
    ensures RoutedBy(AddTopicToExclude(r, topicId).router, msg) <==> RoutedBy(r, msg)
  {
  }

  /** The hop check comes first: an exhausted budget is never routed, whatever the id or list. */
  lemma ExhaustedHopsNeverRouted(r: Router, msg: NetworkMessage)
    requires Valid(r)
    requires msg.maxStepsToForward <= 0
    ensures !RoutedBy(r, msg)
  {
  }

  /** A topic report (id 0) is held back when the router does not forward reports. */
  lemma ReportsHeldBackUnlessForwarded(r: Router, msg: NetworkMessage)
    requires Valid(r)
    requires msg.maxStepsToForward > 0
    requires msg.topicId == 0
    ensures RoutedBy(r, msg) <==> r.forwardTopicReports && 0 !in Excluded(r)
  {
  }

  /** A freshly built router routes every message with hops left that is not a held-back report. */
  lemma FreshRouterRoutesEverything(forwardTopicReports: bool, gateways: seq<GatewayRef>, msg: NetworkMessage)
    requires |gateways| == GatewayCount
    ensures RoutedBy(Create(forwardTopicReports, gateways), msg)
            <==> msg.maxStepsToForward > 0 && !(msg.topicId == 0 && !forwardTopicReports)
  {
  }

  /**
   A router built with the default arguments routes exactly the messages with
   hops left whose id is not 0: it holds back topic reports.
   */
  lemma DefaultRouterHoldsBackReports(msg: NetworkMessage)
    ensures RoutedBy(CreateDefault(), msg) <==> msg.maxStepsToForward > 0 && msg.topicId != 0
  {
  }

  /**
   After a reset nothing is excluded any more: each message is routed exactly
   when it has hops left and is not a held-back report, and the next add
   succeeds because there is room again.
   */
  lemma ResetForgetsExclusions(r: Router, msg: NetworkMessage, topicId: uint32)
    requires Valid(r)
    ensures RoutedBy(ResetTopics(r), msg)
            <==> msg.maxStepsToForward > 0 && !(msg.topicId == 0 && !r.forwardTopicReports)
    ensures AddTopicToExclude(ResetTopics(r), topicId).added
    ensures Excluded(AddTopicToExclude(ResetTopics(r), topicId).router) == [topicId]
  {
  }

  /** Resetting twice is the same as resetting once. */
  lemma ResetIsIdempotent(r: Router)
    requires Valid(r)
    ensures ResetTopics(ResetTopics(r)) == ResetTopics(r)
  {
  }

  /**
   Entries of the array beyond the used length never influence routing: two
   routers that agree on the flag and the used prefix decide alike.
   */
  lemma StaleSlotsAreIgnored(r1: Router, r2: Router, msg: NetworkMessage)
    requires Valid(r1) && Valid(r2)
    requires r1.forwardTopicReports == r2.forwardTopicReports
    requires r1.topicListLength == r2.topicListLength
    requires forall k :: 0 <= k < r1.topicListLength as nat ==> r1.topicList[k] == r2.topicList[k]
    ensures RoutedBy(r1, msg) <==> RoutedBy(r2, msg)
  {
  }
}
