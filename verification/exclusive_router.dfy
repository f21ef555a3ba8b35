/**
 The exclusive router: a RODOS router that, in addition to the hop and
 topic-report rules, refuses to forward messages whose topic id is on a
 bounded exclusion list.

 The router object is modelled as an immutable value; every member that
 mutates the object in the C++ class returns the successor value instead.
 */
module ExclusiveRouter {
  import opened RouterTypes

  /** The maximum number of topics that can be excluded. */
  const TopicListSize: nat := 1000

  /** The number of gateway pointers the constructor accepts. */
  const GatewayCount: nat := 4

  /**
   Router state: the flag inherited from the base router, the gateways it was
   built with, the whole fixed-size id array, and how many of its leading
   entries are in use.
   */
  datatype Router = Router(
    forwardTopicReports: bool,
    gateways: seq<GatewayRef>,
    topicList: seq<uint32>,
    topicListLength: uint16
  )

  /** The object invariant: the array has its fixed size and the length stays within it. */
  predicate Valid(r: Router)
  {
    |r.gateways| == GatewayCount &&
    |r.topicList| == TopicListSize &&
    r.topicListLength as nat <= TopicListSize
  }

  /** The ids currently excluded: the used prefix of the array, in insertion order. */
  function Excluded(r: Router): seq<uint32>
    requires Valid(r)
  {
    r.topicList[..r.topicListLength]
  }

  /**
   The routing rule, stated independently of the scan that implements it: a
   message crosses to another gateway exactly when it has hops left, is not a
   topic report that the router is told to hold back, and its id is not excluded.
   */
  predicate Routes(forwardTopicReports: bool, excluded: seq<uint32>, msg: NetworkMessage)
  {
    msg.maxStepsToForward > 0 &&
    !(msg.topicId == 0 && !forwardTopicReports) &&
    msg.topicId !in excluded
  }

  /**
   The constructor: the report flag and the gateways go to the base router,
   and the exclusion list starts empty. The array's initial contents are
   modelled as zero; they are never consulted before being overwritten.
   */
  function Create(forwardTopicReports: bool, gateways: seq<GatewayRef>): (r: Router)
    requires |gateways| == GatewayCount
    ensures Valid(r)
    ensures Excluded(r) == []
    ensures r.forwardTopicReports == forwardTopicReports
    ensures r.gateways == gateways
  {
    Router(forwardTopicReports, gateways, seq(TopicListSize, _ => 0), 0)
  }

  /**
   The constructor called with all its default arguments: topic reports are
   not forwarded and all four gateway pointers are null.
   */
  function CreateDefault(): (r: Router)
    ensures Valid(r)
    ensures Excluded(r) == []
    ensures !r.forwardTopicReports
    ensures forall k :: 0 <= k < |r.gateways| ==> r.gateways[k] == NullGateway
  {
    Create(false, [NullGateway, NullGateway, NullGateway, NullGateway])
  }

  /** The outcome of `AddTopicToExclude`: the successor state and the returned flag. */
  datatype AddResult = AddResult(router: Router, added: bool)

  /**
   Appends `topicId` to the exclusion list. When the list is full the call
   returns false and nothing changes; otherwise the id goes into the first
   unused slot and the length grows by one. Duplicates are not checked.
   */
  function AddTopicToExclude(r: Router, topicId: uint32): (res: AddResult)
    requires Valid(r)
    ensures Valid(res.router)
    ensures res.added <==> r.topicListLength as nat < TopicListSize
    ensures !res.added ==> res.router == r
    ensures res.added ==>
      && res.router.topicListLength as nat == r.topicListLength as nat + 1
      && res.router.topicList[r.topicListLength] == topicId
      && Excluded(res.router) == Excluded(r) + [topicId]
      && forall k :: 0 <= k < TopicListSize && k != r.topicListLength as nat ==>
           res.router.topicList[k] == r.topicList[k]
    ensures res.added <==> Excluded(res.router) == Excluded(r) + [topicId]
    ensures res.router.forwardTopicReports == r.forwardTopicReports
    ensures res.router.gateways == r.gateways
  {
    if r.topicListLength as nat >= TopicListSize then
      AddResult(r, false)
    else
      var r' := r.(topicList := r.topicList[r.topicListLength := topicId],
                   topicListLength := r.topicListLength + 1);
      assert Excluded(r') == Excluded(r) + [topicId];
      AddResult(r', true)
  }

  /**
   The template overload taking a topic: it excludes the topic's id, with the
   same capacity rule and the same effect as the id overload.
   */
  function AddTopicToExcludeTopic(r: Router, topic: Topic): (res: AddResult)
    requires Valid(r)
    ensures Valid(res.router)
    ensures res.added <==> r.topicListLength as nat < TopicListSize
    ensures !res.added ==> res.router == r
    ensures res.added ==> Excluded(res.router) == Excluded(r) + [topic.topicId]
    ensures res.router.forwardTopicReports == r.forwardTopicReports
    ensures res.router.gateways == r.gateways
  {
    AddTopicToExclude(r, topic.topicId)
  }

  /**
   Empties the exclusion list by setting its length to zero. The array
   contents stay as they were but are no longer consulted.
   */
  function ResetTopics(r: Router): (r': Router)
    requires Valid(r)
    ensures Valid(r')
    ensures Excluded(r') == []
    ensures r'.topicList == r.topicList
    ensures r'.forwardTopicReports == r.forwardTopicReports
    ensures r'.gateways == r.gateways
  {
    r.(topicListLength := 0)
  }

  /**
   The routing decision for `msg` arriving on link `linkid`. The hop budget is
   checked first, then the topic-report rule, then a linear scan of the used
   part of the list. The 16-bit counter of the scan cannot wrap, because the
   length never exceeds the capacity. The link id is not consulted.
   */
  method ShouldRouteThisMsg(r: Router, msg: NetworkMessage, linkid: uint32) returns (route: bool)
    requires Valid(r)
    ensures route <==> Routes(r.forwardTopicReports, Excluded(r), msg)
  {
    if msg.maxStepsToForward <= 0 {
      return false;
    }
    if msg.topicId == 0 && !r.forwardTopicReports {
      return false;
    }
    var i: uint16 := 0;
    while i < r.topicListLength
      invariant i <= r.topicListLength
      invariant msg.topicId !in r.topicList[..i]
    {
      if msg.topicId == r.topicList[i] {
        assert msg.topicId == Excluded(r)[i];
        return false;
      }
      assert r.topicList[..i + 1] == r.topicList[..i] + [r.topicList[i]];
      i := i + 1;
    }
    assert r.topicList[..i] == Excluded(r);
    return true;
  }
}
