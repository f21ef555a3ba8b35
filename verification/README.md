# Exclusive router — a verified Dafny model

This project models the exclusive router of the DataLink satellite communication
stack: a RODOS router sitting between transport gateways that decides, for every
network message, whether it may be relayed from one gateway to another. On top of
the base router's rules (a message with no hops left is dropped; topic-discovery
reports, topic id 0, are dropped unless the router forwards them) it keeps a
bounded exclusion list of up to 1000 topic ids, filled with `addTopicToExclude`,
emptied with `resetTopics`, and scanned linearly by `shouldRouteThisMsg`.

Files:
- `router_types.dfy` (module `RouterTypes`): 32- and 16-bit unsigned integers,
  the two fields of a network message the router reads, topics, gateway references.
- `exclusive_router.dfy` (module `ExclusiveRouter`): the router state with its
  invariant `Valid`, the reference routing rule `Routes`, and the four operations.
- `router_properties.dfy` (module `RouterProperties`): properties relating several
  calls — capacity, duplicates, reset, and the effect of each operation on routing.

The router object is a value of datatype `Router`: the inherited
`forwardTopicReports` flag, the four gateway pointers, the whole 1000-slot id array
and the 16-bit length. Members that mutate the object in the C++ class return the
successor value; `shouldRouteThisMsg` takes the state as an input and returns only
the decision, so it cannot change the router. The excluded ids are the used prefix
of the array (`Excluded`). The reference rule is

    Routes(fwd, excluded, msg) <==> msg.maxStepsToForward > 0
                                 && !(msg.topicId == 0 && !fwd)
                                 && msg.topicId !in excluded

and the scanning method is proved equal to it for every state and message.

## Model

| member | source | states |
|---|---|---|
| ExclusiveRouter.Create | src/exclusive_router.cpp:12-14 | the constructor passes the report flag and the gateways through unchanged and yields a valid router whose exclusion list is empty |
| ExclusiveRouter.CreateDefault | src/exclusive_router.hpp:23 | the constructor's default arguments give a valid router that does not forward topic reports, has four null gateways and an empty exclusion list |
| ExclusiveRouter.AddTopicToExclude | src/exclusive_router.cpp:16-26 | keeps the invariant; returns true exactly when the length was below 1000; on false the state is unchanged; on true the id is at index `len`, every other slot is unchanged, the length grows by one and the excluded list is the old one with the id appended; true iff the id was appended (the header's promise) |
| ExclusiveRouter.AddTopicToExcludeTopic | src/exclusive_router.hpp:32-38 | the topic overload has the same capacity rule and effect as the id overload applied to the topic's id |
| ExclusiveRouter.ResetTopics | src/exclusive_router.cpp:28-30 | keeps the invariant, empties the excluded list, leaves the array contents, flag and gateways unchanged |
| ExclusiveRouter.ShouldRouteThisMsg | src/exclusive_router.cpp:32-44 | the hop check, report check and linear scan decide exactly the reference rule `Routes`: route iff hops > 0, not a held-back report, and the id is not in the used prefix; the link id plays no part |
| RouterProperties.AddManyWithinCapacity | src/exclusive_router.cpp:18-24 | while the list has room, a run of adds all succeed and append the ids in order |
| RouterProperties.CapacityIsExactlyOneThousand | src/exclusive_router.hpp:13-18 | a fresh router accepts 1000 ids, its excluded list is exactly those ids, and the 1001st add returns false with the state unchanged |
| RouterProperties.DuplicatesConsumeTwoSlots | src/exclusive_router.cpp:16-24 | the same id added twice succeeds twice and occupies two slots |
| RouterProperties.AddedTopicIsNotRouted | src/exclusive_router.hpp:25-30 | after a successful add, no message with that topic id is routed |
| RouterProperties.AddLeavesOtherTopicsAlone | src/exclusive_router.cpp:16-24 | adding an id does not change the decision for any message with a different id |
| RouterProperties.ExhaustedHopsNeverRouted | src/exclusive_router.cpp:34 | a message with hop budget <= 0 is never routed, whatever its id or the list |
| RouterProperties.ReportsHeldBackUnlessForwarded | src/exclusive_router.cpp:35 | with hops left, a topic report is routed iff reports are forwarded and 0 is not excluded |
| RouterProperties.FreshRouterRoutesEverything | src/exclusive_router.hpp:18 | a fresh router routes exactly the messages with hops left that are not held-back reports |
| RouterProperties.DefaultRouterHoldsBackReports | src/exclusive_router.hpp:23 | a default-built router routes exactly the messages with hops > 0 and topic id other than 0 |
| RouterProperties.ResetForgetsExclusions | src/exclusive_router.hpp:40-43 | after a reset no id is excluded any more, and the next add succeeds and is the only excluded id |
| RouterProperties.ResetIsIdempotent | src/exclusive_router.cpp:28-30 | resetting twice gives the same state as resetting once |
| RouterProperties.StaleSlotsAreIgnored | src/exclusive_router.cpp:37-40 | array slots past the length, left behind by a reset, never influence the decision |

## Left out

- `src/datalink_main.cpp`: process wiring (UART and UDP gateways, the base router
  instance, a thread polling the estimation process over UDP IPC); it has no
  decision logic of its own.
- The RODOS base classes `Router`, `Gateway`, `NetworkMessage` and `Topic` are not
  part of this model. Only the two message fields the router reads, the inherited
  `forwardTopicReports` flag and the gateway pointers (as opaque identities) appear.
  How the base router relays a message once it is allowed through is not modelled.
- The bridge, topic bus, self-echo suppression and heartbeat forwarding do not appear
  in the modelled source files and are not modelled.
- Serialisation, framing, transport I/O, scheduling and concurrency between gateways.
- The width of `maxStepsToForward` is not modelled (it is an unbounded integer):
  the router only compares it with zero.
- The initial contents of the id array are modelled as zeros; `StaleSlotsAreIgnored`
  shows that no contents beyond the used length can affect a decision.
- The topic overload of `addTopicToExclude` reads the id with `topic->topicId` on a
  reference; the model takes the topic's id, which is evidently what is meant.
