/** The message shapes exchanged between SimulationClient, SimulationServer
    and SimulationPotential. Each Python message is a dictionary whose
    'status_code' entry is one of the integer codes of CommunicationCodes;
    here each kind of dictionary is one constructor, and `Code` gives back the
    integer that the dictionary carries. */
module Protocol {
  import opened CommunicationCodes

  /** A client's message to the coordinating server; `P` is a curve point. */
  datatype ClientRequest<P> =
    | FirstContact(clientName: string)
    | HasMidpoint(nodeNumber: int, newNodePosition: P, clientName: string)
    | HasNoTask(clientName: string)
  {
    function Code(): (c: int)
      ensures 0 <= c < 10
      ensures FirstContact? <==> c == CLIENT_FIRST_CONTACT
      ensures HasMidpoint? <==> c == CLIENT_HAS_MIDPOINT_DATA
      ensures HasNoTask? <==> c == CLIENT_HAS_NO_TASK
    {
      match this
      case FirstContact(_) => CLIENT_FIRST_CONTACT
      case HasMidpoint(_, _, _) => CLIENT_HAS_MIDPOINT_DATA
      case HasNoTask(_) => CLIENT_HAS_NO_TASK
    }
  }

  /** A status code the client has no branch for. */
  type OtherReplyCode = c: int | c != SERVER_GIVES_NEW_TASK && c != SERVER_REQUEST_CALLBACK witness 0

  /** The server's answer to one client message. `OtherReply` stands for a
      dictionary with any other status code; the server never builds one, but
      the client has a rule for it. */
  datatype ServerReply<P> =
    | GivesNewTask(nodeNumber: int, leftEndPoint: P, rightEndPoint: P)
    | RequestCallback
    | OtherReply(statusCode: OtherReplyCode)
  {
    function Code(): (c: int)
      ensures GivesNewTask? <==> c == SERVER_GIVES_NEW_TASK
      ensures RequestCallback? <==> c == SERVER_REQUEST_CALLBACK
      ensures OtherReply? ==> c == statusCode
    {
      match this
      case GivesNewTask(_, _, _) => SERVER_GIVES_NEW_TASK
      case RequestCallback => SERVER_REQUEST_CALLBACK
      case OtherReply(c) => c
    }
  }

  /** A point sent to a potential server together with its index on the
      curve (the Python pair `[curve[i], i]`). */
  datatype TaggedPoint<P> = TaggedPoint(point: P, tag: int)

  /** A value computed by a potential server together with the tag of the
      point it was computed at (the Python pair `[value, point[1]]`). */
  datatype TaggedValue<V> = TaggedValue(value: V, tag: int)

  /** A status code the potential server has no branch for. */
  type OtherRequestCode = c: int | c != CLIENT_PROVIDES_POINT && c != CLIENT_ASKS_FOR_VALUES && c != KILL witness 0

  /** A client's message to one of its potential servers. `OtherRequest`
      stands for any status code the potential server has no branch for. */
  datatype PotentialRequest<P> =
    | ProvidesPoints(points: seq<TaggedPoint<P>>)
    | AsksForValues
    | Kill
    | OtherRequest(statusCode: OtherRequestCode)
  {
    function Code(): (c: int)
      ensures ProvidesPoints? <==> c == CLIENT_PROVIDES_POINT
      ensures AsksForValues? <==> c == CLIENT_ASKS_FOR_VALUES
      ensures Kill? <==> c == KILL
      ensures OtherRequest? ==> c == statusCode
    {
      match this
      case ProvidesPoints(_) => CLIENT_PROVIDES_POINT
      case AsksForValues => CLIENT_ASKS_FOR_VALUES
      case Kill => KILL
      case OtherRequest(c) => c
    }
  }

  /** The stored answer of a potential server (status SERVER_PROVIDES_VALUES). */
  datatype PotentialReply<V> = ProvidesValues(values: seq<TaggedValue<V>>)
}
