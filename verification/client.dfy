/** The main loop of `SimulationClient.start_client`
    (SimulationClient/SimulationClient.py): the client registers with the
    coordinating server, then answers each server reply by computing a local
    geodesic, asking again, or resending its last message, until the server
    becomes unreachable or the geodesic computation fails. Each connection
    is an input (the reply received, or the exception raised), and
    `find_geodesic_midpoint` is an oracle that may return `None`. */
module SimulationClient {
  import opened Wrappers
  import opened Protocol
  import LinearAlgebra
  import MetricValues

  type Point = seq<real>

  /** What one connection to the coordinating server produced: the reply,
      or the exception raised while connecting, sending or receiving. */
  datatype Connection = Answered(reply: ServerReply<Point>) | SocketError | EndOfFile

  /** What the client reads from its configuration and environment: its
      ID, `local_number_of_nodes`, which of its potential servers would
      accept a connection (for `shutdown_metric`), and the geodesic solver
      applied to the left and right end points and the tangent direction. */
  datatype ClientSetup = ClientSetup(
    id: string,
    localNodes: int,
    reachable: seq<bool>,
    geodesic: (Point, Point, Point) -> Option<Point>)

  /** `tangent_direction = (1 / float(ln + 1)) * (right - left)`. The
      factor is computed first, so ln = -1 divides by zero whatever the
      points; the subtraction then broadcasts (a point of length 1 stands
      for its entry in every coordinate), and other unequal lengths cannot
      be subtracted. */
  function TangentDirection(left: Point, right: Point, localNodes: int): (r: Result<Point>)
    ensures localNodes + 1 == 0 ==> r == Failure(ZeroDivisionError)
    ensures localNodes + 1 != 0 && !LinearAlgebra.Broadcastable(|right|, |left|) ==> r.Failure? && r.error.ValueError?
    ensures r.Success? <==> localNodes + 1 != 0 && LinearAlgebra.Broadcastable(|right|, |left|)
    ensures r.Success? ==> |r.value| == LinearAlgebra.BroadcastLength(|right|, |left|)
    ensures r.Success? ==> forall k :: 0 <= k < |r.value| ==>
      r.value[k] == (1.0 / (localNodes + 1) as real) * (LinearAlgebra.Entry(right, k) - LinearAlgebra.Entry(left, k))
  {
    if localNodes + 1 == 0 then Failure(ZeroDivisionError)
    else
      var difference :- LinearAlgebra.BroadcastSub(right, left);
      Success(LinearAlgebra.Scale(1.0 / (localNodes + 1) as real, difference))
  }

  /** ln + 1 steps of the tangent lead from the left end point to the right
      one, both broadcast to the tangent's length: the tangent is the step
      of the evenly spaced local line. */
  lemma {:induction false} TangentSpansSegment(left: Point, right: Point, localNodes: nat)
    requires LinearAlgebra.Broadcastable(|right|, |left|)
    ensures var (l, r) := LinearAlgebra.Ends(left, right);
      TangentDirection(left, right, localNodes) == Success(LinearAlgebra.Tangent(l, r, localNodes))
      && LinearAlgebra.Add(l, LinearAlgebra.Scale((localNodes + 1) as real, TangentDirection(left, right, localNodes).value)) == r
  {
    var (l, r) := LinearAlgebra.Ends(left, right);
    var t := TangentDirection(left, right, localNodes).value;
    assert t == LinearAlgebra.Tangent(l, r, localNodes) by {
      forall k | 0 <= k < |t|
        ensures t[k] == LinearAlgebra.Tangent(l, r, localNodes)[k]
      {
      }
    }
    LinearAlgebra.LineEnds(l, r, localNodes);
  }

  /** How the client reacts to a reply: send a message, or leave the loop
      without replying. */
  datatype Decision = Send(message: ClientRequest<Point>) | Stop

  /** The body of the main loop up to the next connection. A new task is
      answered with the midpoint for the same node and the client's ID, or
      ends the loop when the solver gives `None`; a callback request is
      answered with CLIENT_HAS_NO_TASK; any other status code resends the
      previous message unchanged. */
  function ReplyRule(setup: ClientSetup, reply: ServerReply<Point>, previous: ClientRequest<Point>): (r: Result<Decision>)
    ensures reply.GivesNewTask? ==>
      match TangentDirection(reply.leftEndPoint, reply.rightEndPoint, setup.localNodes)
      case Failure(e) => r == Failure(e)
      case Success(tangent) =>
        match setup.geodesic(reply.leftEndPoint, reply.rightEndPoint, tangent)
        case None => r == Success(Stop)
        case Some(result) => r == Success(Send(HasMidpoint(reply.nodeNumber, result, setup.id)))
    ensures reply.RequestCallback? ==> r == Success(Send(HasNoTask(setup.id)))
    ensures reply.OtherReply? ==> r == Success(Send(previous))
  {
    match reply
    case GivesNewTask(node, left, right) =>
      var tangent :- TangentDirection(left, right, setup.localNodes);
      (match setup.geodesic(left, right, tangent)
       case None => Success(Stop)
       case Some(result) => Success(Send(HasMidpoint(node, result, setup.id))))
    case RequestCallback => Success(Send(HasNoTask(setup.id)))
    case OtherReply(_) => Success(Send(previous))
  }

  /** Why the client stopped: the server could not be reached (and KILL was
      then sent to the potential servers), the geodesic solver failed, or it
      is still waiting for a reply when the connections run out. */
  datatype Ending = ServerUnreachable(shutdown: seq<MetricValues.Attempt>) | GeodesicFailed | Waiting

  /** The messages sent to the coordinating server, in order, and why the
      client stopped. */
  datatype ClientRun = ClientRun(sent: seq<ClientRequest<Point>>, ending: Ending)

  /** The loop from a received reply on; `previous` is the last message
      sent, and `later` the outcomes of the following connections. */
  function Loop(setup: ClientSetup, reply: ServerReply<Point>, previous: ClientRequest<Point>, later: seq<Connection>)
    : (r: Result<ClientRun>)
    ensures r.Success? ==> |r.value.sent| <= |later|
    ensures r.Success? && r.value.ending.ServerUnreachable? ==>
      r.value.ending.shutdown == MetricValues.ShutdownMetric(setup.reachable)
    ensures r.Failure? ==> r.error.ValueError? || r.error == ZeroDivisionError
    decreases |later|
  {
    var decision :- ReplyRule(setup, reply, previous);
    match decision
    case Stop => Success(ClientRun([], GeodesicFailed))
    case Send(message) =>
      if |later| == 0 then Success(ClientRun([], Waiting))
      else
        match later[0]
        case Answered(next) =>
          var rest :- Loop(setup, next, message, later[1..]);
          Success(ClientRun([message] + rest.sent, rest.ending))
        case _ => Success(ClientRun([message], ServerUnreachable(MetricValues.ShutdownMetric(setup.reachable))))
  }

  /** `start_client` given the outcomes of successive connections. Only a
      socket error is caught at first contact: an end of file there raises. */
  function StartClient(setup: ClientSetup, connections: seq<Connection>): (r: Result<ClientRun>)
    ensures r.Success? ==> |r.value.sent| > 0 && r.value.sent[0] == FirstContact(setup.id)
    ensures r.Success? ==> |r.value.sent| <= |connections| + 1
    ensures r.Success? && r.value.ending.ServerUnreachable? ==>
      r.value.ending.shutdown == MetricValues.ShutdownMetric(setup.reachable)
    ensures |connections| > 0 && connections[0].EndOfFile? ==> r == Failure(EOFError)
  {
    var first := FirstContact(setup.id);
    if |connections| == 0 then Success(ClientRun([first], Waiting))
    else
      match connections[0]
      case SocketError => Success(ClientRun([first], ServerUnreachable(MetricValues.ShutdownMetric(setup.reachable))))
      case EndOfFile => Failure(EOFError)
      case Answered(reply) =>
        var rest :- Loop(setup, reply, first, connections[1..]);
        Success(ClientRun([first] + rest.sent, rest.ending))
  }

  /** A failed connection ends the loop: after the message that could not
      be delivered nothing more is sent, and the ending is one KILL attempt
      per potential server, in order, delivered to exactly the reachable
      ones. */
  lemma {:induction false} ConnectionFailureShutsDown(setup: ClientSetup, reply: ServerReply<Point>, previous: ClientRequest<Point>,
                                   failure: Connection, later: seq<Connection>)
    requires !failure.Answered?
    requires ReplyRule(setup, reply, previous).Success?
    requires ReplyRule(setup, reply, previous).value.Send?
    ensures Loop(setup, reply, previous, [failure] + later)
      == Success(ClientRun([ReplyRule(setup, reply, previous).value.message],
                           ServerUnreachable(MetricValues.ShutdownMetric(setup.reachable))))
  {
    assert ([failure] + later)[0] == failure;
  }

  /** A `None` from the geodesic solver ends the loop with no reply sent and
      no shutdown of the potential servers. */
  lemma {:induction false} GeodesicFailureStops(setup: ClientSetup, node: int, left: Point, right: Point,
                             previous: ClientRequest<Point>, later: seq<Connection>)
    requires TangentDirection(left, right, setup.localNodes).Success?
    requires setup.geodesic(left, right, TangentDirection(left, right, setup.localNodes).value).None?
    ensures Loop(setup, GivesNewTask(node, left, right), previous, later) == Success(ClientRun([], GeodesicFailed))
  {
  }

  /** The messages the client sends are exactly its answers to the replies
      it receives: message i + 1 is the reply rule applied to reply i and
      message i. */
  lemma {:induction false} SentFollowsRule(setup: ClientSetup, reply: ServerReply<Point>, previous: ClientRequest<Point>,
                                           later: seq<Connection>, i: nat)
    requires Loop(setup, reply, previous, later).Success?
    requires i < |Loop(setup, reply, previous, later).value.sent|
    ensures i == 0 ==> ReplyRule(setup, reply, previous) == Success(Send(Loop(setup, reply, previous, later).value.sent[0]))
    ensures i > 0 ==> later[i - 1].Answered?
    ensures i > 0 ==> var sent := Loop(setup, reply, previous, later).value.sent;
      ReplyRule(setup, later[i - 1].reply, sent[i - 1]) == Success(Send(sent[i]))
    decreases i
  {
    var message := ReplyRule(setup, reply, previous).value.message;
    if i > 0 {
      var next := later[0].reply;
      var rest := Loop(setup, next, message, later[1..]).value;
      assert Loop(setup, reply, previous, later).value.sent == [message] + rest.sent;
      SentFollowsRule(setup, next, message, later[1..], i - 1);
      if i > 1 {
        assert later[1..][i - 2] == later[i - 1];
      }
    }
  }

  /** Every message the loop sends names the client: a midpoint and a
      request for work carry its ID, and a resent message is the previous
      one, which does. */
  lemma {:induction false} LoopSendsOwnId(setup: ClientSetup, reply: ServerReply<Point>, previous: ClientRequest<Point>,
                                          later: seq<Connection>)
    requires previous.clientName == setup.id
    ensures var r := Loop(setup, reply, previous, later);
      r.Success? ==> forall i :: 0 <= i < |r.value.sent| ==> r.value.sent[i].clientName == setup.id
    decreases |later|
  {
    var r := Loop(setup, reply, previous, later);
    if r.Success? && |r.value.sent| > 0 {
      var message := ReplyRule(setup, reply, previous).value.message;
      assert message.clientName == setup.id;
      if later[0].Answered? {
        var rest := Loop(setup, later[0].reply, message, later[1..]);
        assert rest.Success?;
        LoopSendsOwnId(setup, later[0].reply, message, later[1..]);
        var sent := r.value.sent;
        assert sent == [message] + rest.value.sent;
        forall i | 0 <= i < |sent|
          ensures sent[i].clientName == setup.id
        {
          if i == 0 {
            assert sent[0] == message;
          } else {
            assert sent[i] == rest.value.sent[i - 1];
          }
        }
      } else {
        assert r.value.sent == [message];
      }
    }
  }

  /** Everything `start_client` sends to the coordinating server carries
      the client's own ID, from the first contact on. */
  lemma {:induction false} ClientSendsOwnId(setup: ClientSetup, connections: seq<Connection>)
    ensures var r := StartClient(setup, connections);
      r.Success? ==> forall i :: 0 <= i < |r.value.sent| ==> r.value.sent[i].clientName == setup.id
  {
    var r := StartClient(setup, connections);
    if r.Success? && |connections| > 0 && connections[0].Answered? {
      var first := FirstContact(setup.id);
      var rest := Loop(setup, connections[0].reply, first, connections[1..]);
      LoopSendsOwnId(setup, connections[0].reply, first, connections[1..]);
      assert r.value.sent == [first] + rest.value.sent;
      forall i | 0 <= i < |r.value.sent|
        ensures r.value.sent[i].clientName == setup.id
      {
        if i > 0 {
          assert r.value.sent[i] == rest.value.sent[i - 1];
        }
      }
    }
  }
}
