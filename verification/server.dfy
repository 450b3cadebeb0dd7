/** The coordinating server (SimulationServer/SimulationServer.py): one pass
    of the `run_simulation` loop as a step function over the client monitor
    and the global curve, the node-count formula, and the accessors guarded
    by FINISHED. The Curve class is not part of this model: the server is
    parametric in the curve operations it calls. The wall clock is an input
    of each pass. */
module SimulationServer {
  import opened Wrappers
  import opened Protocol
  import MetricValues

  /** `total_number_of_nodes`: g global segments of l local nodes each,
      consecutive segments sharing an end node. */
  function TotalNodes(globalNodes: int, localNodes: int): int
  {
    globalNodes * (localNodes - 1) + 1
  }

  /** The count built segment by segment: one node to start with, and each
      further segment adds its l - 1 nodes after the shared one. */
  function NodesBySegments(segments: nat, localNodes: int): int
  {
    if segments == 0 then 1 else NodesBySegments(segments - 1, localNodes) + (localNodes - 1)
  }

  lemma {:induction false} TotalNodesBySegments(segments: nat, localNodes: int)
    ensures TotalNodes(segments, localNodes) == NodesBySegments(segments, localNodes)
    ensures TotalNodes(segments, localNodes) == segments * localNodes - (segments - 1)
    decreases segments
  {
    if segments > 0 {
      TotalNodesBySegments(segments - 1, localNodes);
      assert segments * (localNodes - 1) == (segments - 1) * (localNodes - 1) + (localNodes - 1);
    }
  }

  /** The operations of `SimulationUtilities.Curve` the server calls, on a
      curve of type C whose points have type P. `nextMovableNode` may update
      the curve's bookkeeping, so it returns the curve as well. */
  datatype CurveOps<!C, !P> = CurveOps(
    setNodePosition: (C, int, P) -> C,
    allNodesMoved: C -> bool,
    movement: C -> real,
    setNodeMovable: C -> C,
    nextMovableNode: C -> Picked<C>,
    getPoints: C -> seq<P>)

  datatype Picked<C> = Picked(node: Option<int>, curve: C)

  /** An outstanding task: when it was sent and which node. */
  datatype Task = Task(sentAt: real, node: int)

  /** `client_monitor`: each registered client name with its outstanding
      task, or `None` when it has none (or was presumed dead). The model
      lists the names in the order they were registered; the dictionary
      itself yields them in hash order. */
  type Monitor = seq<(string, Option<Task>)>

  predicate DistinctNames(m: Monitor)
  {
    forall i, j :: 0 <= i < j < |m| ==> m[i].0 != m[j].0
  }

  function Names(m: Monitor): (names: seq<string>)
    ensures |names| == |m| && forall i :: 0 <= i < |m| ==> names[i] == m[i].0
  {
    seq(|m|, i requires 0 <= i < |m| => m[i].0)
  }

  /** `client_monitor[name]`: `None` for a missing name (a KeyError). */
  function Lookup(m: Monitor, name: string): (r: Option<Option<Task>>)
    ensures r.None? <==> name !in Names(m)
    ensures r.Some? ==> exists i :: 0 <= i < |m| && m[i] == (name, r.value)
  {
    if |m| == 0 then None
    else if m[0].0 == name then Some(m[0].1)
    else
      var r := Lookup(m[1..], name);
      assert Names(m) == [m[0].0] + Names(m[1..]);
      if r.Some? then
        ghost var i :| 0 <= i < |m[1..]| && m[1..][i] == (name, r.value);
        assert m[i + 1] == (name, r.value);
        r
      else r
  }

  /** `client_monitor[name] = entry`: a present name keeps its place, a new
      one goes at the end. */
  function Assign(m: Monitor, name: string, entry: Option<Task>): (r: Monitor)
    ensures name in Names(m) ==> Names(r) == Names(m)
    ensures name !in Names(m) ==> Names(r) == Names(m) + [name]
    ensures Lookup(r, name) == Some(entry)
    ensures forall other :: other != name ==> Lookup(r, other) == Lookup(m, other)
  {
    if |m| == 0 then
      AssignFront(m, name, entry);
      [(name, entry)]
    else if m[0].0 == name then
      AssignFront(m, name, entry);
      [(name, entry)] + m[1..]
    else
      var rest := Assign(m[1..], name, entry);
      AssignBehind(m, name, entry, rest);
      [m[0]] + rest
  }

  /** What `Assign(m, name, entry)` promises of its result `r`. */
  ghost predicate Assigned(m: Monitor, name: string, entry: Option<Task>, r: Monitor)
  {
    && (name in Names(m) ==> Names(r) == Names(m))
    && (name !in Names(m) ==> Names(r) == Names(m) + [name])
    && Lookup(r, name) == Some(entry)
    && forall other :: other != name ==> Lookup(r, other) == Lookup(m, other)
  }

  /** Assigning to an empty monitor, or to the name of its first entry,
      puts the new entry first in place of any old one. */
  lemma {:induction false} AssignFront(m: Monitor, name: string, entry: Option<Task>)
    requires |m| == 0 || m[0].0 == name
    ensures Assigned(m, name, entry, [(name, entry)] + (if |m| == 0 then [] else m[1..]))
  {
    var tail: Monitor := if |m| == 0 then [] else m[1..];
    var r := [(name, entry)] + tail;
    NamesCons((name, entry), tail);
    assert r[1..] == tail;
    if |m| > 0 {
      NamesCons(m[0], tail);
      assert [m[0]] + tail == m;
    }
  }

  /** Assigning behind a first entry with another name: keeping that entry in
      front of the assigned remainder assigns in the whole monitor. */
  lemma {:induction false} AssignBehind(m: Monitor, name: string, entry: Option<Task>, rest: Monitor)
    requires |m| > 0 && m[0].0 != name
    requires Assigned(m[1..], name, entry, rest)
    ensures Assigned(m, name, entry, [m[0]] + rest)
  {
    AssignBehindNames(m, name, rest);
    assert name in Names(m) <==> name in Names(m[1..]);
    if name !in Names(m[1..]) {
      assert [m[0].0] + (Names(m[1..]) + [name]) == [m[0].0] + Names(m[1..]) + [name];
    }
    AssignBehindLookup(m, name, entry, rest);
  }

  /** The names of a monitor are its first name followed by the rest's. */
  lemma {:induction false} AssignBehindNames(m: Monitor, name: string, rest: Monitor)
    requires |m| > 0
    ensures Names(m) == [m[0].0] + Names(m[1..])
    ensures Names([m[0]] + rest) == [m[0].0] + Names(rest)
  {
    NamesCons(m[0], m[1..]);
    assert [m[0]] + m[1..] == m;
    NamesCons(m[0], rest);
  }

  /** The names of an entry put in front are its name put in front. */
  lemma {:induction false} NamesCons(x: (string, Option<Task>), m: Monitor)
    ensures Names([x] + m) == [x.0] + Names(m)
  {
    var a := Names([x] + m);
    var b := [x.0] + Names(m);
    assert |a| == |b|;
    forall i | 0 <= i < |a|
      ensures a[i] == b[i]
    {
      if i > 0 {
        assert ([x] + m)[i] == m[i - 1];
      }
    }
  }

  /** Looking up any name but the first entry's passes on to the rest. */
  lemma {:induction false} AssignBehindLookup(m: Monitor, name: string, entry: Option<Task>, rest: Monitor)
    requires |m| > 0 && m[0].0 != name
    requires Lookup(rest, name) == Some(entry)
    requires forall other :: other != name ==> Lookup(rest, other) == Lookup(m[1..], other)
    ensures Lookup([m[0]] + rest, name) == Some(entry)
    ensures forall other :: other != name ==> Lookup([m[0]] + rest, other) == Lookup(m, other)
  {
    assert ([m[0]] + rest)[1..] == rest;
  }

  lemma {:induction false} AssignKeepsDistinct(m: Monitor, name: string, entry: Option<Task>)
    requires DistinctNames(m)
    ensures DistinctNames(Assign(m, name, entry))
  {
    var r := Assign(m, name, entry);
    forall i, j | 0 <= i < j < |r|
      ensures r[i].0 != r[j].0
    {
      assert Names(r)[i] == r[i].0 && Names(r)[j] == r[j].0;
      if name !in Names(m) && j == |m| {
        assert Names(m)[i] == m[i].0;
      } else {
        assert Names(m)[i] == m[i].0 && Names(m)[j] == m[j].0;
      }
    }
  }

  /** The loop state between connections. */
  datatype ServerState<C> = ServerState(monitor: Monitor, curve: C)

  /** The first branch of the loop body. A midpoint is stored only when the
      sender still has an outstanding task (from a client presumed dead it
      is ignored); a midpoint from a name never registered is a KeyError.
      First contact registers the sender with no task. */
  function Receive<C, P>(ops: CurveOps<C, P>, s: ServerState<C>, request: ClientRequest<P>): (r: Result<ServerState<C>>)
    ensures request.HasMidpoint? ==>
      match Lookup(s.monitor, request.clientName)
      case None => r == Failure(KeyError(request.clientName))
      case Some(None) => r == Success(s)
      case Some(Some(_)) =>
        r == Success(s.(curve := ops.setNodePosition(s.curve, request.nodeNumber, request.newNodePosition)))
    ensures request.FirstContact? ==> r == Success(s.(monitor := Assign(s.monitor, request.clientName, None)))
    ensures request.HasNoTask? ==> r == Success(s)
  {
    match request
    case HasMidpoint(node, position, name) =>
      (match Lookup(s.monitor, name)
       case None => Failure(KeyError(name))
       case Some(entry) =>
         if entry.Some? then Success(s.(curve := ops.setNodePosition(s.curve, node, position)))
         else Success(s))
    case FirstContact(name) => Success(s.(monitor := Assign(s.monitor, name, None)))
    case HasNoTask(_) => Success(s)
  }

  /** The convergence check: `None` when the loop breaks (every node moved
      and the movement below the tolerance); otherwise the curve, with every
      node made movable again when all had moved. */
  function Converge<C, P>(ops: CurveOps<C, P>, tolerance: real, curve: C): (r: Option<C>)
    ensures r.None? <==> ops.allNodesMoved(curve) && ops.movement(curve) < tolerance
    ensures r.Some? && ops.allNodesMoved(curve) ==> r.value == ops.setNodeMovable(curve)
    ensures r.Some? && !ops.allNodesMoved(curve) ==> r.value == curve
  {
    if ops.allNodesMoved(curve) then
      if ops.movement(curve) < tolerance then None else Some(ops.setNodeMovable(curve))
    else Some(curve)
  }

  predicate TimedOut(entry: Option<Task>, now: real, timeout: real)
  {
    entry.Some? && now - entry.value.sentAt > timeout
  }

  /** Entry i is late and no later entry is. */
  predicate LastTimedOut(m: Monitor, now: real, timeout: real, i: int)
  {
    && 0 <= i < |m| && TimedOut(m[i].1, now, timeout)
    && forall j :: i < j < |m| ==> !TimedOut(m[j].1, now, timeout)
  }

  /** What the timeout scan produces: the monitor with every late task
      cleared, and the node of the last late task seen. */
  datatype Expired = Expired(monitor: Monitor, node: Option<int>)

  /** The scan over `client_monitor`, taken in the model's registration
      order: every task older than the timeout is cleared, and the node of
      the last one found is remembered for reissue. */
  function ExpireTimeouts(m: Monitor, now: real, timeout: real): (r: Expired)
    ensures |r.monitor| == |m|
    ensures forall i :: 0 <= i < |m| ==> r.monitor[i].0 == m[i].0
    ensures forall i :: 0 <= i < |m| ==>
      r.monitor[i].1 == (if TimedOut(m[i].1, now, timeout) then None else m[i].1)
    ensures r.node.None? <==> forall i :: 0 <= i < |m| ==> !TimedOut(m[i].1, now, timeout)
    ensures r.node.Some? ==> exists i :: LastTimedOut(m, now, timeout, i) && r.node.value == m[i].1.value.node
    decreases |m|
  {
    if |m| == 0 then Expired([], None)
    else
      var front := ExpireTimeouts(m[..|m| - 1], now, timeout);
      var (name, entry) := m[|m| - 1];
      assert forall i :: 0 <= i < |m| - 1 ==> m[..|m| - 1][i] == m[i];
      if TimedOut(entry, now, timeout) then
        Expired(front.monitor + [(name, None)], Some(entry.value.node))
      else
        var r := Expired(front.monitor + [(name, entry)], front.node);
        if front.node.Some? then
          ghost var i :| LastTimedOut(m[..|m| - 1], now, timeout, i) && front.node.value == m[..|m| - 1][i].1.value.node;
          assert LastTimedOut(m, now, timeout, i);
          r
        else r
  }

  /** Python's `points[k]` on a list: negative indices count from the end. */
  function PointAt<P>(points: seq<P>, k: int): (r: Result<P>)
    ensures r.Success? <==> MetricValues.NormaliseIndex(|points|, k).Some?
    ensures r.Failure? ==> r.error == IndexError
    ensures r.Success? ==> r.value == points[MetricValues.NormaliseIndex(|points|, k).value]
  {
    match MetricValues.NormaliseIndex(|points|, k)
    case None => Failure(IndexError)
    case Some(i) => Success(points[i])
  }

  /** The outcome of one pass: either the loop broke (nothing is sent on
      that connection), or a reply was sent and the loop goes on. */
  datatype Outcome<C, P> =
    | Converged(curve: C, monitor: Monitor)
    | Replied(state: ServerState<C>, reply: ServerReply<P>)

  /** The dispatch at the end of a pass: issue node k with its two curve
      neighbours and record the task under the requester's name, or ask the
      client to call back, leaving the monitor alone. */
  function Dispatch<C, P>(ops: CurveOps<C, P>, s: ServerState<C>, node: Option<int>, name: string, now: real)
    : (r: Result<Outcome<C, P>>)
    ensures node.None? ==> r == Success(Replied(s, RequestCallback))
    ensures node.Some? ==> (r.Success? <==>
      PointAt(ops.getPoints(s.curve), node.value - 1).Success? && PointAt(ops.getPoints(s.curve), node.value + 1).Success?)
    ensures r.Failure? ==> r.error == IndexError
    ensures node.Some? && r.Success? ==>
      r.value == Replied(s.(monitor := Assign(s.monitor, name, Some(Task(now, node.value)))),
                         GivesNewTask(node.value, PointAt(ops.getPoints(s.curve), node.value - 1).value,
                                      PointAt(ops.getPoints(s.curve), node.value + 1).value))
  {
    match node
    case None => Success(Replied(s, RequestCallback))
    case Some(k) =>
      var points := ops.getPoints(s.curve);
      var left :- PointAt(points, k - 1);
      var right :- PointAt(points, k + 1);
      Success(Replied(s.(monitor := Assign(s.monitor, name, Some(Task(now, k)))), GivesNewTask(k, left, right)))
  }

  /** The node to issue: the last timed-out task if there is one, otherwise
      the curve's next movable node (which is only asked in that case). */
  function ChooseNode<C, P>(ops: CurveOps<C, P>, curve: C, expired: Expired): (r: Picked<C>)
    ensures expired.node.Some? ==> r == Picked(expired.node, curve)
    ensures expired.node.None? ==> r == ops.nextMovableNode(curve)
  {
    if expired.node.Some? then Picked(expired.node, curve) else ops.nextMovableNode(curve)
  }

  /** One pass of the `run_simulation` loop for a client message received
      at time `now`. */
  function Step<C, P>(ops: CurveOps<C, P>, tolerance: real, timeout: real, s: ServerState<C>,
                      request: ClientRequest<P>, now: real): (r: Result<Outcome<C, P>>)
  {
    var received :- Receive(ops, s, request);
    match Converge(ops, tolerance, received.curve)
    case None => Success(Converged(received.curve, received.monitor))
    case Some(curve) =>
      var expired := ExpireTimeouts(received.monitor, now, timeout);
      var picked := ChooseNode(ops, curve, expired);
      Dispatch(ops, ServerState(expired.monitor, picked.curve), picked.node, request.clientName, now)
  }

  /** The loop breaks exactly when, after the message is taken in, every
      node has moved and the movement is below the tolerance. */
  lemma {:induction false} StepConverges<C, P>(ops: CurveOps<C, P>, tolerance: real, timeout: real, s: ServerState<C>,
                            request: ClientRequest<P>, now: real)
    requires Receive(ops, s, request).Success?
    ensures var curve := Receive(ops, s, request).value.curve;
      var r := Step(ops, tolerance, timeout, s, request, now);
      (r.Success? && r.value.Converged?) <==> (ops.allNodesMoved(curve) && ops.movement(curve) < tolerance)
  {
  }

  /** A pass that replies has gone through the dispatch, with the monitor
      after the timeout scan and the node chosen from it. */
  lemma {:induction false} StepReplied<C, P>(ops: CurveOps<C, P>, tolerance: real, timeout: real, s: ServerState<C>,
                          request: ClientRequest<P>, now: real)
    requires Step(ops, tolerance, timeout, s, request, now).Success?
    requires Step(ops, tolerance, timeout, s, request, now).value.Replied?
    ensures Receive(ops, s, request).Success?
    ensures Converge(ops, tolerance, Receive(ops, s, request).value.curve).Some?
    ensures var received := Receive(ops, s, request).value;
      var expired := ExpireTimeouts(received.monitor, now, timeout);
      var picked := ChooseNode(ops, Converge(ops, tolerance, received.curve).value, expired);
      Step(ops, tolerance, timeout, s, request, now)
        == Dispatch(ops, ServerState(expired.monitor, picked.curve), picked.node, request.clientName, now)
  {
  }

  /** A dispatch that hands out a task issues the node it was given, with
      that node's two neighbours, and records the task for the requester. */
  lemma {:induction false} DispatchIssues<C, P>(ops: CurveOps<C, P>, st: ServerState<C>, node: Option<int>, name: string, now: real)
    requires Dispatch(ops, st, node, name, now).Success?
    requires Dispatch(ops, st, node, name, now).value.Replied?
    requires Dispatch(ops, st, node, name, now).value.reply.GivesNewTask?
    ensures node == Some(Dispatch(ops, st, node, name, now).value.reply.nodeNumber)
    ensures Dispatch(ops, st, node, name, now).value.state.curve == st.curve
    ensures IssuedTask(ops, Dispatch(ops, st, node, name, now).value, name, now)
  {
  }

  /** The reply hands out node k with the curve points k - 1 and k + 1, and
      the requester's monitor entry is the task (now, k). */
  ghost predicate IssuedTask<C, P>(ops: CurveOps<C, P>, o: Outcome<C, P>, name: string, now: real)
    requires o.Replied? && o.reply.GivesNewTask?
  {
    var k := o.reply.nodeNumber;
    var points := ops.getPoints(o.state.curve);
    && Success(o.reply.leftEndPoint) == PointAt(points, k - 1)
    && Success(o.reply.rightEndPoint) == PointAt(points, k + 1)
    && Lookup(o.state.monitor, name) == Some(Some(Task(now, k)))
  }

  /** Issuing node k answers with k and the curve points k - 1 and k + 1,
      and records (now, k) for the requester; a timed-out node is issued in
      preference to the curve's next movable node. */
  lemma {:induction false} StepIssues<C, P>(ops: CurveOps<C, P>, tolerance: real, timeout: real, s: ServerState<C>,
                         request: ClientRequest<P>, now: real)
    ensures var r := Step(ops, tolerance, timeout, s, request, now);
      r.Success? && r.value.Replied? && r.value.reply.GivesNewTask? ==>
        IssuedTask(ops, r.value, request.clientName, now)
        && var received := Receive(ops, s, request).value;
           var expired := ExpireTimeouts(received.monitor, now, timeout);
           expired.node.Some? ==> r.value.reply.nodeNumber == expired.node.value
  {
    var r := Step(ops, tolerance, timeout, s, request, now);
    if r.Success? && r.value.Replied? && r.value.reply.GivesNewTask? {
      StepReplied(ops, tolerance, timeout, s, request, now);
      var received := Receive(ops, s, request).value;
      var expired := ExpireTimeouts(received.monitor, now, timeout);
      var picked := ChooseNode(ops, Converge(ops, tolerance, received.curve).value, expired);
      var before := ServerState(expired.monitor, picked.curve);
      DispatchIssues(ops, before, picked.node, request.clientName, now);
      var o := Dispatch(ops, before, picked.node, request.clientName, now).value;
      assert r.value == o;
    }
  }

  /** A callback request leaves every monitor entry as the message left it:
      had any task timed out, its node would have been issued instead. */
  lemma {:induction false} CallbackKeepsMonitor<C, P>(ops: CurveOps<C, P>, tolerance: real, timeout: real,
                                                      s: ServerState<C>, request: ClientRequest<P>, now: real)
    requires Step(ops, tolerance, timeout, s, request, now).Success?
    requires Step(ops, tolerance, timeout, s, request, now).value.Replied?
    requires Step(ops, tolerance, timeout, s, request, now).value.reply.RequestCallback?
    ensures Step(ops, tolerance, timeout, s, request, now).value.state.monitor == Receive(ops, s, request).value.monitor
  {
    var received := Receive(ops, s, request).value;
    var m := received.monitor;
    var curve := Converge(ops, tolerance, received.curve).value;
    var expired := ExpireTimeouts(m, now, timeout);
    var picked := ChooseNode(ops, curve, expired);
    var before := ServerState(expired.monitor, picked.curve);
    assert Step(ops, tolerance, timeout, s, request, now) == Dispatch(ops, before, picked.node, request.clientName, now);
    assert picked.node.None?;
    assert expired.node.None?;
    assert expired.monitor == m by {
      forall i | 0 <= i < |m|
        ensures expired.monitor[i] == m[i]
      {
        assert !TimedOut(m[i].1, now, timeout);
      }
    }
  }

  /** A midpoint from a client that was presumed dead changes neither the
      curve nor the monitor before the dispatch. */
  lemma {:induction false} DeadClientIgnored<C, P>(ops: CurveOps<C, P>, s: ServerState<C>, node: int, position: P, name: string)
    requires Lookup(s.monitor, name) == Some(None)
    ensures Receive(ops, s, HasMidpoint(node, position, name)) == Success(s)
  {
  }

  /** Taking in a message touches only the sender's entry: first contact
      registers it with no task and every other message leaves the monitor
      as it was; the curve moves only for the midpoint of a registered
      sender with an outstanding task, and a midpoint from a name never
      registered is the one failure. */
  lemma {:induction false} ReceiveTouchesOnlySender<C, P>(ops: CurveOps<C, P>, s: ServerState<C>, request: ClientRequest<P>)
    ensures var r := Receive(ops, s, request);
      r.Failure? <==> request.HasMidpoint? && request.clientName !in Names(s.monitor)
    ensures var r := Receive(ops, s, request);
      r.Success? ==> forall other :: other != request.clientName ==> Lookup(r.value.monitor, other) == Lookup(s.monitor, other)
    ensures var r := Receive(ops, s, request);
      r.Success? && request.FirstContact? ==> Lookup(r.value.monitor, request.clientName) == Some(None)
    ensures var r := Receive(ops, s, request);
      r.Success? && !request.FirstContact? ==> r.value.monitor == s.monitor
    ensures var r := Receive(ops, s, request);
      var entry := Lookup(s.monitor, request.clientName);
      r.Success? && !(request.HasMidpoint? && entry.Some? && entry.value.Some?) ==> r.value.curve == s.curve
    ensures var r := Receive(ops, s, request);
      r.Success? && DistinctNames(s.monitor) ==> DistinctNames(r.value.monitor)
  {
    if request.FirstContact? && DistinctNames(s.monitor) {
      AssignKeepsDistinct(s.monitor, request.clientName, None);
    }
  }

  /** The timeout scan keeps every name in its place. */
  lemma {:induction false} ExpireKeepsNames(m: Monitor, now: real, timeout: real)
    ensures Names(ExpireTimeouts(m, now, timeout).monitor) == Names(m)
    ensures DistinctNames(m) ==> DistinctNames(ExpireTimeouts(m, now, timeout).monitor)
  {
    var e := ExpireTimeouts(m, now, timeout).monitor;
    assert Names(e) == Names(m);
  }

  /** The names of `after` are those of `before`, with `name` added at the
      end only if it was not already there. */
  ghost predicate NamesGrowBy(before: Monitor, after: Monitor, name: string)
  {
    || Names(after) == Names(before)
    || (name !in Names(before) && Names(after) == Names(before) + [name])
  }

  lemma {:induction false} NamesGrowTwice(a: Monitor, b: Monitor, c: Monitor, name: string)
    requires NamesGrowBy(a, b, name) && NamesGrowBy(b, c, name)
    ensures NamesGrowBy(a, c, name)
  {
    if Names(b) != Names(a) {
      assert Names(b)[|Names(a)|] == name;
    }
  }

  /** The dispatch adds the requester's name at most once. */
  lemma {:induction false} DispatchKeepsNames<C, P>(ops: CurveOps<C, P>, st: ServerState<C>, node: Option<int>, name: string, now: real)
    requires Dispatch(ops, st, node, name, now).Success?
    ensures NamesGrowBy(st.monitor, Dispatch(ops, st, node, name, now).value.state.monitor, name)
    ensures DistinctNames(st.monitor) ==> DistinctNames(Dispatch(ops, st, node, name, now).value.state.monitor)
  {
    if node.Some? {
      if DistinctNames(st.monitor) {
        AssignKeepsDistinct(st.monitor, name, Some(Task(now, node.value)));
      }
    }
  }

  /** A pass that replies keeps the monitor's names in order and adds the
      requester at the end only if it was not registered; so a monitor
      without duplicate names keeps none. */
  lemma {:induction false} StepKeepsNames<C, P>(ops: CurveOps<C, P>, tolerance: real, timeout: real, s: ServerState<C>,
                                               request: ClientRequest<P>, now: real)
    ensures var r := Step(ops, tolerance, timeout, s, request, now);
      r.Success? && r.value.Replied? ==> NamesGrowBy(s.monitor, r.value.state.monitor, request.clientName)
    ensures var r := Step(ops, tolerance, timeout, s, request, now);
      r.Success? && r.value.Replied? && DistinctNames(s.monitor) ==> DistinctNames(r.value.state.monitor)
  {
    var r := Step(ops, tolerance, timeout, s, request, now);
    if r.Success? && r.value.Replied? {
      StepReplied(ops, tolerance, timeout, s, request, now);
      var received := Receive(ops, s, request).value;
      ReceiveTouchesOnlySender(ops, s, request);
      assert NamesGrowBy(s.monitor, received.monitor, request.clientName);
      var expired := ExpireTimeouts(received.monitor, now, timeout);
      ExpireKeepsNames(received.monitor, now, timeout);
      var picked := ChooseNode(ops, Converge(ops, tolerance, received.curve).value, expired);
      var before := ServerState(expired.monitor, picked.curve);
      DispatchKeepsNames(ops, before, picked.node, request.clientName, now);
      assert r == Dispatch(ops, before, picked.node, request.clientName, now);
      NamesGrowTwice(s.monitor, expired.monitor, r.value.state.monitor, request.clientName);
    }
  }

  /** The server object: the curve, FINISHED and OUTPUT_FILENAME. */
  datatype Server<C> = Server(state: ServerState<C>, finished: bool, outputFile: string)

  /** `run_simulation` on the messages of successive connections and the
      times they arrive: FINISHED is set when the loop breaks; if the
      messages run out first, the loop is still waiting. */
  function Run<C, P>(ops: CurveOps<C, P>, tolerance: real, timeout: real, server: Server<C>,
                     inputs: seq<(ClientRequest<P>, real)>): (r: Result<Server<C>>)
    ensures r.Success? && r.value.finished ==> server.finished || |inputs| > 0
    ensures r.Success? ==> r.value.outputFile == server.outputFile
    decreases |inputs|
  {
    if |inputs| == 0 then Success(server)
    else
      var o :- Step(ops, tolerance, timeout, server.state, inputs[0].0, inputs[0].1);
      match o
      case Converged(curve, monitor) => Success(server.(state := ServerState(monitor, curve), finished := true))
      case Replied(state, _) => Run(ops, tolerance, timeout, server.(state := state), inputs[1..])
  }

  /** `get_curve`: the curve once FINISHED, otherwise `None`. */
  function GetCurve<C>(server: Server<C>): (r: Option<C>)
    ensures r.Some? <==> server.finished
    ensures r.Some? ==> r.value == server.state.curve
  {
    if server.finished then Some(server.state.curve) else None
  }

  /** `set_output_file`: takes effect only once FINISHED. */
  function SetOutputFile<C>(server: Server<C>, name: string): (r: Server<C>)
    ensures r.state == server.state && r.finished == server.finished
    ensures r.outputFile == if server.finished then name else server.outputFile
  {
    if server.finished then server.(outputFile := name) else server
  }

  /** Before the loop has broken, the accessors change and reveal nothing. */
  lemma {:induction false} GuardsBeforeFinish<C, P>(ops: CurveOps<C, P>, tolerance: real, timeout: real,
                                                    server: Server<C>, inputs: seq<(ClientRequest<P>, real)>, name: string)
    requires !server.finished
    ensures var r := Run(ops, tolerance, timeout, server, inputs);
      r.Success? && !r.value.finished ==>
        GetCurve(r.value).None? && SetOutputFile(r.value, name).outputFile == server.outputFile
  {
  }

  /** One pass of the loop as a function of the state and the message with
      its arrival time. */
  type PassFunction<!C, !P> = (ServerState<C>, (ClientRequest<P>, real)) -> Result<Outcome<C, P>>

  function Pass<C, P>(ops: CurveOps<C, P>, tolerance: real, timeout: real): PassFunction<C, P>
  {
    (s, input: (ClientRequest<P>, real)) => Step(ops, tolerance, timeout, s, input.0, input.1)
  }

  /** Reference for the loop, counted from the front: the state after the
      first k passes, provided every one of them replied; `None` if one of
      them failed or broke the loop. */
  ghost function Replay<C, P>(step: PassFunction<C, P>, s: ServerState<C>,
                              inputs: seq<(ClientRequest<P>, real)>, k: nat): Option<ServerState<C>>
    requires k <= |inputs|
  {
    if k == 0 then Some(s)
    else match Replay(step, s, inputs, k - 1)
      case None => None
      case Some(t) =>
        match step(t, inputs[k - 1])
        case Success(Replied(next, _)) => Some(next)
        case _ => None
  }

  /** Pass k is the first to break the loop: all passes before it replied
      and this one converged. */
  ghost predicate BreaksAt<C, P>(step: PassFunction<C, P>, s: ServerState<C>,
                                 inputs: seq<(ClientRequest<P>, real)>, k: int)
  {
    && 0 <= k < |inputs|
    && Replay(step, s, inputs, k).Some?
    && var o := step(Replay(step, s, inputs, k).value, inputs[k]);
       o.Success? && o.value.Converged?
  }

  /** The state FINISHED leaves when pass k breaks the loop: that pass's
      monitor and curve (`s` itself when pass k does not break it). */
  ghost function StateAtBreak<C, P>(step: PassFunction<C, P>, s: ServerState<C>,
                                    inputs: seq<(ClientRequest<P>, real)>, k: int): ServerState<C>
  {
    if 0 <= k < |inputs| && Replay(step, s, inputs, k).Some? then
      match step(Replay(step, s, inputs, k).value, inputs[k])
      case Success(Converged(curve, monitor)) => ServerState(monitor, curve)
      case _ => s
    else s
  }

  /** Pass k is the first to fail, with error e: all passes before it replied. */
  ghost predicate FailsAt<C, P>(step: PassFunction<C, P>, s: ServerState<C>,
                                inputs: seq<(ClientRequest<P>, real)>, k: int, e: PyError)
  {
    && 0 <= k < |inputs|
    && Replay(step, s, inputs, k).Some?
    && step(Replay(step, s, inputs, k).value, inputs[k]) == Failure(e)
  }

  /** After a first pass that replied with `next`, the reference runs on
      from `next` over the remaining messages. */
  lemma {:induction false} ReplayShift<C, P>(step: PassFunction<C, P>, s: ServerState<C>,
                                             inputs: seq<(ClientRequest<P>, real)>, next: ServerState<C>, reply: ServerReply<P>, k: nat)
    requires k < |inputs|
    requires step(s, inputs[0]) == Success(Replied(next, reply))
    ensures Replay(step, s, inputs, k + 1) == Replay(step, next, inputs[1..], k)
    decreases k
  {
    if k > 0 {
      ReplayShift(step, s, inputs, next, reply, k - 1);
      assert inputs[1..][k - 1] == inputs[k];
    }
  }

  /** After a first pass that did not reply, the reference has stopped. */
  lemma {:induction false} ReplayStopped<C, P>(step: PassFunction<C, P>, s: ServerState<C>,
                                               inputs: seq<(ClientRequest<P>, real)>, k: nat)
    requires k < |inputs|
    requires !step(s, inputs[0]).Success?
          || !step(s, inputs[0]).value.Replied?
    ensures Replay(step, s, inputs, k + 1).None?
    decreases k
  {
    if k > 0 {
      ReplayStopped(step, s, inputs, k - 1);
    }
  }

  /** Moving past a first pass that replied shifts every later pass down by one. */
  lemma {:induction false} PassShift<C, P>(step: PassFunction<C, P>, s: ServerState<C>,
                                           inputs: seq<(ClientRequest<P>, real)>, next: ServerState<C>, reply: ServerReply<P>, k: nat)
    requires 0 < k < |inputs|
    requires step(s, inputs[0]) == Success(Replied(next, reply))
    ensures BreaksAt(step, s, inputs, k) <==> BreaksAt(step, next, inputs[1..], k - 1)
    ensures BreaksAt(step, s, inputs, k) ==>
      StateAtBreak(step, s, inputs, k) == StateAtBreak(step, next, inputs[1..], k - 1)
    ensures forall e :: FailsAt(step, s, inputs, k, e) <==> FailsAt(step, next, inputs[1..], k - 1, e)
  {
    ReplayShift(step, s, inputs, next, reply, k - 1);
    assert inputs[1..][k - 1] == inputs[k];
  }

  /** What the reference says of a result `r` of the loop from `server`:
      the first pass to break it leaves its curve and monitor with FINISHED
      set, the first pass to fail raises its error, and a run of replies
      leaves the state after the last of them; one of the three holds. */
  ghost predicate AgreesWithReplay<C, P>(step: PassFunction<C, P>, server: Server<C>,
                                         inputs: seq<(ClientRequest<P>, real)>, r: Result<Server<C>>)
  {
    var s := server.state;
    && (forall k :: BreaksAt(step, s, inputs, k) ==>
          r == Success(Server(StateAtBreak(step, s, inputs, k), true, server.outputFile)))
    && (forall k, e :: FailsAt(step, s, inputs, k, e) ==> r == Failure(e))
    && (Replay(step, s, inputs, |inputs|).Some? ==>
          r == Success(Server(Replay(step, s, inputs, |inputs|).value, false, server.outputFile)))
    && (|| (exists k :: BreaksAt(step, s, inputs, k))
        || (exists k, e :: FailsAt(step, s, inputs, k, e))
        || Replay(step, s, inputs, |inputs|).Some?)
  }

  /** A first pass that replied: whatever agrees with the reference on the
      remaining messages agrees with it on all of them. */
  lemma {:induction false} AgreesAfterReply<C, P>(step: PassFunction<C, P>, server: Server<C>,
                                                  inputs: seq<(ClientRequest<P>, real)>, next: ServerState<C>,
                                                  reply: ServerReply<P>, r: Result<Server<C>>)
    requires |inputs| > 0
    requires step(server.state, inputs[0]) == Success(Replied(next, reply))
    requires AgreesWithReplay(step, server.(state := next), inputs[1..], r)
    ensures AgreesWithReplay(step, server, inputs, r)
  {
    var s := server.state;
    var rest := server.(state := next);
    var tail := inputs[1..];
    forall k | BreaksAt(step, s, inputs, k)
      ensures r == Success(Server(StateAtBreak(step, s, inputs, k), true, server.outputFile))
    {
      assert k != 0;
      PassShift(step, s, inputs, next, reply, k);
      assert BreaksAt(step, next, tail, k - 1);
    }
    forall k, e | FailsAt(step, s, inputs, k, e)
      ensures r == Failure(e)
    {
      assert k != 0;
      PassShift(step, s, inputs, next, reply, k);
      assert FailsAt(step, next, tail, k - 1, e);
    }
    ReplayShift(step, s, inputs, next, reply, |inputs| - 1);
    if exists k :: BreaksAt(step, next, tail, k) {
      var k :| BreaksAt(step, next, tail, k);
      PassShift(step, s, inputs, next, reply, k + 1);
    } else if exists k, e :: FailsAt(step, next, tail, k, e) {
      var k, e :| FailsAt(step, next, tail, k, e);
      PassShift(step, s, inputs, next, reply, k + 1);
      assert FailsAt(step, s, inputs, k + 1, e);
    }
  }

  /** What the loop yields when its first pass does not reply. */
  function Stopped<C, P>(server: Server<C>, o: Result<Outcome<C, P>>): Result<Server<C>>
    requires !(o.Success? && o.value.Replied?)
  {
    match o
    case Failure(e) => Failure(e)
    case Success(Converged(curve, monitor)) => Success(Server(ServerState(monitor, curve), true, server.outputFile))
  }

  /** A first pass that broke the loop or failed is the one the reference
      stops at. */
  lemma {:induction false} AgreesAfterStop<C, P>(step: PassFunction<C, P>, server: Server<C>,
                                                 inputs: seq<(ClientRequest<P>, real)>)
    requires |inputs| > 0
    requires var o := step(server.state, inputs[0]);
      !(o.Success? && o.value.Replied?)
    ensures AgreesWithReplay(step, server, inputs,
      Stopped(server, step(server.state, inputs[0])))
  {
    var s := server.state;
    var o := step(s, inputs[0]);
    forall k | 0 < k <= |inputs|
      ensures Replay(step, s, inputs, k).None?
    {
      ReplayStopped(step, s, inputs, k - 1);
    }
    if o.Success? {
      assert BreaksAt(step, s, inputs, 0);
    } else {
      assert FailsAt(step, s, inputs, 0, o.error);
    }
  }

  /** `run_simulation` against the reference: FINISHED is set exactly when
      some pass is the first to break the loop, and the server then holds
      that pass's curve and monitor; a failing pass before any break is the
      error raised; if every pass replied, the loop is still waiting with
      the state after the last one. One of the three always holds. */
  lemma {:induction false} RunStopsAtFirstBreak<C, P>(ops: CurveOps<C, P>, tolerance: real, timeout: real,
                                                      server: Server<C>, inputs: seq<(ClientRequest<P>, real)>)
    requires !server.finished
    ensures var r := Run(ops, tolerance, timeout, server, inputs);
      forall k :: BreaksAt(Pass(ops, tolerance, timeout), server.state, inputs, k) ==>
        r == Success(Server(StateAtBreak(Pass(ops, tolerance, timeout), server.state, inputs, k), true, server.outputFile))
    ensures var r := Run(ops, tolerance, timeout, server, inputs);
      forall k, e :: FailsAt(Pass(ops, tolerance, timeout), server.state, inputs, k, e) ==> r == Failure(e)
    ensures var r := Run(ops, tolerance, timeout, server, inputs);
      var last := Replay(Pass(ops, tolerance, timeout), server.state, inputs, |inputs|);
      last.Some? ==> r == Success(Server(last.value, false, server.outputFile))
    ensures || (exists k :: BreaksAt(Pass(ops, tolerance, timeout), server.state, inputs, k))
            || (exists k, e :: FailsAt(Pass(ops, tolerance, timeout), server.state, inputs, k, e))
            || Replay(Pass(ops, tolerance, timeout), server.state, inputs, |inputs|).Some?
  {
    RunAgrees(ops, tolerance, timeout, server, inputs);
  }

  /** The induction behind `RunStopsAtFirstBreak`, one pass at a time. */
  lemma {:induction false} RunAgrees<C, P>(ops: CurveOps<C, P>, tolerance: real, timeout: real,
                                           server: Server<C>, inputs: seq<(ClientRequest<P>, real)>)
    requires !server.finished
    ensures AgreesWithReplay(Pass(ops, tolerance, timeout), server, inputs, Run(ops, tolerance, timeout, server, inputs))
    decreases |inputs|
  {
    if |inputs| > 0 {
      var o := Step(ops, tolerance, timeout, server.state, inputs[0].0, inputs[0].1);
      assert Pass(ops, tolerance, timeout)(server.state, inputs[0]) == o;
      if o.Success? && o.value.Replied? {
        var rest := server.(state := o.value.state);
        RunAgrees(ops, tolerance, timeout, rest, inputs[1..]);
        assert Run(ops, tolerance, timeout, server, inputs) == Run(ops, tolerance, timeout, rest, inputs[1..]);
        AgreesAfterReply(Pass(ops, tolerance, timeout), server, inputs, o.value.state, o.value.reply,
                         Run(ops, tolerance, timeout, rest, inputs[1..]));
      } else {
        assert Run(ops, tolerance, timeout, server, inputs) == Stopped(server, o);
        AgreesAfterStop(Pass(ops, tolerance, timeout), server, inputs);
      }
    }
  }

  /** The accessors after the loop: `get_curve` yields a curve exactly when
      some pass broke the loop, and it is that pass's curve; only then does
      `set_output_file` take effect. */
  lemma {:induction false} CurveAfterRun<C, P>(ops: CurveOps<C, P>, tolerance: real, timeout: real,
                                               server: Server<C>, inputs: seq<(ClientRequest<P>, real)>, name: string)
    requires !server.finished
    ensures var r := Run(ops, tolerance, timeout, server, inputs);
      r.Success? && GetCurve(r.value).Some? ==> exists k :: BreaksAt(Pass(ops, tolerance, timeout), server.state, inputs, k)
    ensures var r := Run(ops, tolerance, timeout, server, inputs);
      forall k :: BreaksAt(Pass(ops, tolerance, timeout), server.state, inputs, k) ==>
        && r.Success?
        && GetCurve(r.value) == Some(StateAtBreak(Pass(ops, tolerance, timeout), server.state, inputs, k).curve)
        && SetOutputFile(r.value, name).outputFile == name
    ensures var r := Run(ops, tolerance, timeout, server, inputs);
      r.Success? && !(exists k :: BreaksAt(Pass(ops, tolerance, timeout), server.state, inputs, k)) ==>
        SetOutputFile(r.value, name).outputFile == server.outputFile
  {
    RunStopsAtFirstBreak(ops, tolerance, timeout, server, inputs);
  }
}
