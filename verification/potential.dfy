/** The request handler of `SimulationPotential.run_potential_server`
    (SimulationPotential/SimulationPotential.py). A potential server waits
    for one message at a time: given tagged points it computes and stores a
    value for each of them, asked for values it sends what it stored last,
    and killed it stops. The EMT calculator is an oracle giving the energy
    and the forces of a molecule, and the square root of the metric value is
    left to the reader: a value carries the quantity under the root. */
module SimulationPotential {
  import opened Wrappers
  import opened Protocol
  import opened ConfigurationProcessing
  import MetricValues

  /** The calculator attached to the molecule: potential energy and forces
      of a molecule given by its atom rows. */
  datatype Calculator = Calculator(
    energy: seq<seq<real>> -> real,
    forces: seq<seq<real>> -> seq<seq<real>>)

  /** What the handler reads from its configuration: `metric_parameters`
      (its first entry is the total energy E) and `small_number`. */
  datatype Settings = Settings(metricParameters: seq<real>, smallNumber: real)

  /** One computed value, the pair `[sqrt(max(E - V, small)), forces]`,
      with the radicand in place of its square root. */
  datatype MetricValue = MetricValue(radicand: real, forces: seq<real>)

  /** The server between two connections: the local `server_response`
      (unbound until the first request with points) and whether the main
      loop is still running. */
  datatype PotentialState = PotentialState(stored: Option<PotentialReply<MetricValue>>, running: bool)

  const Started: PotentialState := PotentialState(None, true)

  /** The state after one connection and what was sent on it. */
  datatype Handled = Handled(state: PotentialState, sent: Option<PotentialReply<MetricValue>>)

  /** `max([E - V, small_number])`: the larger of the two. */
  function Radicand(e: real, v: real, small: real): (r: real)
    ensures r >= small && r >= e - v
    ensures r == small || r == e - v
  {
    if e - v >= small then e - v else small
  }

  /** The value at one point: the point is reshaped into atom rows of three
      coordinates (numpy raises for any other length), then E is read from
      the metric parameters (IndexError when there are none). */
  function PointValue(calculator: Calculator, settings: Settings, point: seq<real>): (r: Result<MetricValue>)
    ensures r.Success? <==> |point| % 3 == 0 && |settings.metricParameters| > 0
    ensures |point| % 3 != 0 ==> r.Failure? && r.error.ValueError?
    ensures |point| % 3 == 0 && |settings.metricParameters| == 0 ==> r == Failure(IndexError)
    ensures r.Success? ==> r.value.radicand >= settings.smallNumber
    ensures r.Success? ==>
      var atoms := VectorToAtoms(point, 3).value;
      && AllRowsHaveLength(atoms, 3)
      && AtomsToVector(atoms) == point
      && r.value.radicand == Radicand(settings.metricParameters[0], calculator.energy(atoms), settings.smallNumber)
      && r.value.forces == AtomsToVector(calculator.forces(atoms))
  {
    var atoms :- VectorToAtoms(point, 3);
    if |settings.metricParameters| == 0 then Failure(IndexError)
    else
      Success(MetricValue(
        Radicand(settings.metricParameters[0], calculator.energy(atoms), settings.smallNumber),
        AtomsToVector(calculator.forces(atoms))))
  }

  /** Whether every received point can be evaluated. */
  predicate AllEvaluable(calculator: Calculator, settings: Settings, points: seq<TaggedPoint<seq<real>>>)
  {
    forall j :: 0 <= j < |points| ==> PointValue(calculator, settings, points[j].point).Success?
  }

  /** The loop over `client_response['points']`, starting from an empty
      `values` list: one value per point, in the order received, each tagged
      with the point's own tag. The first point that cannot be evaluated
      raises. */
  function Evaluate(calculator: Calculator, settings: Settings, points: seq<TaggedPoint<seq<real>>>)
    : (r: Result<seq<TaggedValue<MetricValue>>>)
    ensures r.Success? <==> AllEvaluable(calculator, settings, points)
    ensures r.Success? ==> |r.value| == |points|
    ensures r.Success? ==> forall j :: 0 <= j < |points| ==>
      && r.value[j].tag == points[j].tag
      && Success(r.value[j].value) == PointValue(calculator, settings, points[j].point)
    ensures r.Success? ==> forall j :: 0 <= j < |r.value| ==> r.value[j].value.radicand >= settings.smallNumber
    ensures r.Failure? ==> r.error.ValueError? || r.error == IndexError
    decreases |points|
  {
    if |points| == 0 then Success([])
    else
      var front :- Evaluate(calculator, settings, points[..|points| - 1]);
      var last := points[|points| - 1];
      var value :- PointValue(calculator, settings, last.point);
      assert forall j :: 0 <= j < |points| - 1 ==> points[..|points| - 1][j] == points[j];
      Success(front + [TaggedValue(value, last.tag)])
  }

  /** One pass of the main loop on a running server. A request with points
      replaces the stored response (nothing is sent on that connection); a
      request for values sends the stored response, which is a NameError
      before any points arrived; KILL stops the loop; any other status code
      changes nothing. */
  function Handle(calculator: Calculator, settings: Settings, s: PotentialState, request: PotentialRequest<seq<real>>)
    : (r: Result<Handled>)
    requires s.running
    ensures request.ProvidesPoints? ==>
      match Evaluate(calculator, settings, request.points)
      case Success(values) => r == Success(Handled(PotentialState(Some(ProvidesValues(values)), true), None))
      case Failure(e) => r == Failure(e)
    ensures request.AsksForValues? ==>
      if s.stored.None? then r == Failure(NameError("server_response"))
      else r == Success(Handled(s, s.stored))
    ensures request.Kill? ==> r == Success(Handled(s.(running := false), None))
    ensures request.OtherRequest? ==> r == Success(Handled(s, None))
    ensures r.Success? && !request.Kill? ==> r.value.state.running
    ensures r.Success? && !request.ProvidesPoints? ==> r.value.state.stored == s.stored
  {
    match request
    case ProvidesPoints(points) =>
      var values :- Evaluate(calculator, settings, points);
      Success(Handled(PotentialState(Some(ProvidesValues(values)), true), None))
    case AsksForValues =>
      if s.stored.None? then Failure(NameError("server_response"))
      else Success(Handled(s, s.stored))
    case Kill => Success(Handled(s.(running := false), None))
    case OtherRequest(_) => Success(Handled(s, None))
  }

  /** The state after a sequence of connections and the replies sent on
      them, in order. */
  datatype Served = Served(state: PotentialState, sent: seq<PotentialReply<MetricValue>>)

  /** The main loop over the requests of successive connections: requests
      arriving after the loop has stopped are never read. */
  function Serve(calculator: Calculator, settings: Settings, s: PotentialState, requests: seq<PotentialRequest<seq<real>>>)
    : (r: Result<Served>)
    ensures !s.running ==> r == Success(Served(s, []))
    decreases |requests|
  {
    if |requests| == 0 || !s.running then Success(Served(s, []))
    else
      var h :- Handle(calculator, settings, s, requests[0]);
      var rest :- Serve(calculator, settings, h.state, requests[1..]);
      Success(Served(rest.state, (if h.sent.Some? then [h.sent.value] else []) + rest.sent))
  }

  /** KILL ends the loop: whatever comes after it is not handled and nothing
      more is sent. */
  lemma {:induction false} KillStops(calculator: Calculator, settings: Settings, s: PotentialState,
                                     rest: seq<PotentialRequest<seq<real>>>)
    requires s.running
    ensures Serve(calculator, settings, s, [Kill] + rest) == Success(Served(s.(running := false), []))
  {
    var requests := [Kill] + rest;
    var stopped := s.(running := false);
    assert requests[0] == Kill;
    assert Handle(calculator, settings, s, Kill) == Success(Handled(stopped, None));
    assert Serve(calculator, settings, stopped, requests[1..]) == Success(Served(stopped, []));
    var empty: seq<PotentialReply<MetricValue>> := [];
    assert empty + empty == empty;
  }

  /** The cycle a client drives: points, then a request for values, then
      KILL. The one reply sent carries the values of the points, each
      tagged with its point's tag, and the server ends stopped. */
  lemma {:induction false} ProvideAskKill(calculator: Calculator, settings: Settings, s: PotentialState,
                                          points: seq<TaggedPoint<seq<real>>>)
    requires s.running
    requires AllEvaluable(calculator, settings, points)
    ensures var values := Evaluate(calculator, settings, points).value;
      Serve(calculator, settings, s, [ProvidesPoints(points), AsksForValues, Kill])
        == Success(Served(PotentialState(Some(ProvidesValues(values)), false), [ProvidesValues(values)]))
  {
    var values := Evaluate(calculator, settings, points).value;
    var reply := ProvidesValues(values);
    var afterPoints := PotentialState(Some(reply), true);
    var stopped := afterPoints.(running := false);
    var requests := [ProvidesPoints(points), AsksForValues, Kill];
    var none: seq<PotentialRequest<seq<real>>> := [];
    var empty: seq<PotentialReply<MetricValue>> := [];
    assert requests[1..] == [AsksForValues, Kill];
    assert requests[1..][1..] == [Kill] + none;
    KillStops(calculator, settings, afterPoints, none);
    assert Handle(calculator, settings, afterPoints, AsksForValues) == Success(Handled(afterPoints, Some(reply)));
    assert [reply] + empty == [reply];
    assert Serve(calculator, settings, afterPoints, [AsksForValues, Kill]) == Success(Served(stopped, [reply]));
    assert Handle(calculator, settings, s, ProvidesPoints(points)) == Success(Handled(afterPoints, None));
    assert empty + [reply] == [reply];
  }

  /** Requests for values repeat the same stored response for as long as no
      new points arrive. */
  lemma {:induction false} AsksRepeatStored(calculator: Calculator, settings: Settings, s: PotentialState, k: nat)
    requires s.running && s.stored.Some?
    ensures Serve(calculator, settings, s, seq(k, _ => AsksForValues))
      == Success(Served(s, seq(k, _ => s.stored.value)))
    decreases k
  {
    var requests: seq<PotentialRequest<seq<real>>> := seq(k, _ => AsksForValues);
    var replies := seq(k, _ => s.stored.value);
    if k > 0 {
      assert requests[0] == AsksForValues;
      assert requests[1..] == seq(k - 1, _ => AsksForValues);
      AsksRepeatStored(calculator, settings, s, k - 1);
      assert Handle(calculator, settings, s, AsksForValues) == Success(Handled(s, s.stored));
      assert [s.stored.value] + seq(k - 1, _ => s.stored.value) == replies;
    } else {
      assert requests == [];
      assert replies == [];
    }
  }

  /** The requests the loop reads: everything before the first KILL. */
  function UntilKill(requests: seq<PotentialRequest<seq<real>>>): (r: seq<PotentialRequest<seq<real>>>)
    ensures |r| <= |requests|
    ensures forall i :: 0 <= i < |r| ==> r[i] == requests[i] && !r[i].Kill?
    ensures |r| < |requests| ==> requests[|r|].Kill?
  {
    if |requests| == 0 || requests[0].Kill? then []
    else [requests[0]] + UntilKill(requests[1..])
  }

  /** The points of the last request that carried any (a later one takes
      precedence over an earlier one). */
  function LastPoints(requests: seq<PotentialRequest<seq<real>>>): Option<seq<TaggedPoint<seq<real>>>>
  {
    if |requests| == 0 then None
    else match LastPoints(requests[1..])
      case Some(points) => Some(points)
      case None => if requests[0].ProvidesPoints? then Some(requests[0].points) else None
  }

  /** How many of the requests ask for values. */
  function CountAsks(requests: seq<PotentialRequest<seq<real>>>): nat
  {
    if |requests| == 0 then 0
    else (if requests[0].AsksForValues? then 1 else 0) + CountAsks(requests[1..])
  }

  /** After a sequence of connections that raised nothing, the server is
      still running exactly when no KILL came; the stored response holds
      the values of the last points received before the first KILL (or is
      what it was, if none came); and one reply went out per request for
      values before the first KILL. */
  lemma {:induction false} ServeStoresLastPoints(calculator: Calculator, settings: Settings, s: PotentialState,
                                                 requests: seq<PotentialRequest<seq<real>>>)
    requires s.running
    ensures var r := Serve(calculator, settings, s, requests);
      r.Success? ==> (r.value.state.running <==> forall i :: 0 <= i < |requests| ==> !requests[i].Kill?)
    ensures var r := Serve(calculator, settings, s, requests);
      r.Success? ==>
        match LastPoints(UntilKill(requests))
        case None => r.value.state.stored == s.stored
        case Some(points) =>
          && Evaluate(calculator, settings, points).Success?
          && r.value.state.stored == Some(ProvidesValues(Evaluate(calculator, settings, points).value))
    ensures var r := Serve(calculator, settings, s, requests);
      r.Success? ==> |r.value.sent| == CountAsks(UntilKill(requests))
    decreases |requests|
  {
    var r := Serve(calculator, settings, s, requests);
    if |requests| > 0 && r.Success? {
      var h := Handle(calculator, settings, s, requests[0]).value;
      var rest := requests[1..];
      if requests[0].Kill? {
        assert !h.state.running;
        assert Serve(calculator, settings, h.state, rest) == Success(Served(h.state, []));
        assert UntilKill(requests) == [];
      } else {
        assert h.state.running;
        ServeStoresLastPoints(calculator, settings, h.state, rest);
        var tail := Serve(calculator, settings, h.state, rest).value;
        assert r.value.state == tail.state;
        var until := UntilKill(requests);
        assert until == [requests[0]] + UntilKill(rest);
        assert until[1..] == UntilKill(rest);
        forall i | 0 <= i < |rest| ensures rest[i] == requests[i + 1] {}
        assert (forall i :: 0 <= i < |requests| ==> !requests[i].Kill?)
           <==> (forall i :: 0 <= i < |rest| ==> !rest[i].Kill?) by {
          if exists i :: 0 <= i < |requests| && requests[i].Kill? {
            var i :| 0 <= i < |requests| && requests[i].Kill?;
            assert i > 0 && rest[i - 1].Kill?;
          }
        }
      }
    }
  }

  /** The value a client expects at curve index i (anything outside the
      curve is never asked for). */
  function ValueAt(calculator: Calculator, settings: Settings, curve: seq<seq<real>>, i: nat): MetricValue
  {
    if i < |curve| && PointValue(calculator, settings, curve[i]).Success?
    then PointValue(calculator, settings, curve[i]).value
    else MetricValue(0.0, [])
  }

  /** A server sent one chunk of the curve by `get_metric` stores exactly
      the tagged values `get_metric` reassembles by tag: the chunk's indices,
      each with the value at that curve point. */
  lemma {:induction false} ChunkAnswer(calculator: Calculator, settings: Settings, s: PotentialState, curve: seq<seq<real>>,
                    range: MetricValues.Range)
    requires s.running
    requires range.start + range.size <= |curve|
    requires forall i :: 0 <= i < |curve| ==> PointValue(calculator, settings, curve[i]).Success?
    ensures Handle(calculator, settings, s, ProvidesPoints(MetricValues.ChunkPoints(curve, range)))
      == Success(Handled(PotentialState(Some(ProvidesValues(
           MetricValues.TagAll((i: nat) => ValueAt(calculator, settings, curve, i), MetricValues.Indices(range)))), true), None))
  {
    var points := MetricValues.ChunkPoints(curve, range);
    assert AllEvaluable(calculator, settings, points) by {
      forall j | 0 <= j < |points|
        ensures PointValue(calculator, settings, points[j].point).Success?
      {
        assert points[j].point == curve[range.start + j];
      }
    }
    var values := Evaluate(calculator, settings, points).value;
    var expected := MetricValues.TagAll((i: nat) => ValueAt(calculator, settings, curve, i), MetricValues.Indices(range));
    assert |values| == |expected|;
    forall j | 0 <= j < |values|
      ensures values[j] == expected[j]
    {
      assert points[j] == TaggedPoint(curve[range.start + j], range.start + j);
      assert MetricValues.Indices(range)[j] == range.start + j;
    }
    assert values == expected;
  }
}
