/**
 The values the exclusion router reads from the RODOS middleware: fixed-width
 topic identifiers, the two fields of a network message the routing decision
 consults, topics (by identifier only) and opaque gateway references.
 */
module RouterTypes {

  /** An unsigned 32-bit integer, the width of a RODOS topic identifier. */
  newtype uint32 = x: int | 0 <= x < 0x1_0000_0000

  /** A 16-bit unsigned integer, the width of the router's list length and scan counter. */
  newtype uint16 = x: int | 0 <= x < 0x1_0000

  /**
   The part of a RODOS network message the router looks at. Topic id 0 marks a
   topic-discovery report; `maxStepsToForward` is the remaining hop budget.
   */
  datatype NetworkMessage = NetworkMessage(topicId: uint32, maxStepsToForward: int)

  /** A topic, identified by its id; its payload type plays no part in routing. */
  datatype Topic = Topic(topicId: uint32)

  /**
   A gateway pointer handed to the router's constructor. The router never
   dereferences it, so a gateway is just an identity, or the null pointer.
   */
  datatype GatewayRef = NullGateway | GatewayAt(handle: nat)
}
