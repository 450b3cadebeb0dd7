/** The client side of the metric evaluation (SimulationClient/MetricValues.py):
    `get_metric` splits the n+2 curve points into contiguous chunks, one per
    potential server, sends each chunk tagged with the points' indices, then
    collects the computed values and stores each one at its tag;
    `shutdown_metric` sends KILL to every potential server.
    Sockets are replaced by a per-server behaviour given as input. */
module MetricValues {
  import opened Wrappers
  import opened Protocol

  /** What one potential server does when contacted: whether the connection
      for sending points succeeds, and what the collecting connection yields
      (`None` is a socket error). */
  datatype PotentialServer<V> = PotentialServer(acceptsPoints: bool, answer: Option<PotentialReply<V>>)

  /** A chunk of consecutive curve indices `start .. start + size - 1`. */
  datatype Range = Range(start: nat, size: nat)

  function Min(a: nat, b: nat): nat { if a <= b then a else b }

  /** `tasks_per_server`: the floor of `points / servers`. */
  function TasksPerServer(points: nat, servers: nat): (t: nat)
    requires servers >= 1
    ensures t * servers <= points < (t + 1) * servers
  {
    points / servers
  }

  /** `remainder_tasks`: the points left over after `TasksPerServer` each. */
  function RemainderTasks(points: nat, servers: nat): (r: nat)
    requires servers >= 1
    ensures 0 <= r < servers
    ensures r + TasksPerServer(points, servers) * servers == points
  {
    points - TasksPerServer(points, servers) * servers
  }

  /** The state after the first loop of `get_metric`: the ranges handed out
      and the final value of `current_point`. */
  datatype Issued = Issued(ranges: seq<Range>, current: nat)

  /** The issuing loop from `address` on, with `current_point` and
      `extra_jobs` as the loop left them. */
  function IssueFrom(t: nat, remainder: nat, servers: nat, address: nat, current: nat, extra: nat): (r: Issued)
    requires address <= servers
    ensures |r.ranges| == servers - address
    decreases servers - address
  {
    if address == servers then Issued([], current)
    else
      var e := if address >= remainder then 0 else extra;
      var rest := IssueFrom(t, remainder, servers, address + 1, current + t + e, e);
      Issued([Range(current, t + e)] + rest.ranges, rest.current)
  }

  /** The ranges `get_metric` hands to `servers` potential servers for
      `points` curve points. */
  function Issue(points: nat, servers: nat): Issued
    requires servers >= 1
  {
    IssueFrom(TasksPerServer(points, servers), RemainderTasks(points, servers), servers, 0, 0, 1)
  }

  /** Each range of the loop starts where the previous one ended, the first
      at the entry value of `current_point`, and the last ends at its final
      value. */
  lemma {:induction false} IssueFromConsecutive(t: nat, remainder: nat, servers: nat, address: nat, current: nat, extra: nat)
    requires address <= servers
    ensures var r := IssueFrom(t, remainder, servers, address, current, extra);
      && (|r.ranges| == 0 ==> r.current == current)
      && (|r.ranges| > 0 ==> r.ranges[0].start == current && r.ranges[|r.ranges| - 1].start + r.ranges[|r.ranges| - 1].size == r.current)
      && forall k :: 0 <= k < |r.ranges| - 1 ==> r.ranges[k + 1].start == r.ranges[k].start + r.ranges[k].size
    decreases servers - address
  {
    if address < servers {
      var e := if address >= remainder then 0 else extra;
      IssueFromConsecutive(t, remainder, servers, address + 1, current + t + e, e);
    }
  }

  /** The closed form of the loop from `address` on: `extra_jobs` is 1 up to
      the remainder and 0 from then on, so server k gets one extra point
      exactly when k < remainder, and `current_point` ends at
      servers * t + remainder. */
  lemma {:induction false} IssueFromClosedForm(t: nat, remainder: nat, servers: nat, address: nat, current: nat, extra: nat)
    requires address <= servers
    requires remainder < servers
    requires current == address * t + Min(address, remainder)
    requires extra == (if address <= remainder then 1 else 0)
    ensures var r := IssueFrom(t, remainder, servers, address, current, extra);
      && r.current == servers * t + remainder
      && forall j :: 0 <= j < servers - address ==>
           r.ranges[j].size == t + (if address + j < remainder then 1 else 0)
    decreases servers - address
  {
    if address < servers {
      var e := if address >= remainder then 0 else extra;
      assert (address + 1) * t == address * t + t;
      IssueFromClosedForm(t, remainder, servers, address + 1, current + t + e, e);
    }
  }

  /** Server k receives tasks_per_server + 1 points if k < remainder and
      tasks_per_server otherwise; the chunks follow one another without gap or
      overlap from index 0, and `current_point` ends at n + 2. */
  lemma {:induction false} IssueShape(points: nat, servers: nat)
    requires servers >= 1
    ensures var r := Issue(points, servers);
      var t := TasksPerServer(points, servers);
      var rem := RemainderTasks(points, servers);
      && |r.ranges| == servers
      && r.current == points
      && r.ranges[0].start == 0
      && (forall k :: 0 <= k < servers ==> r.ranges[k].size == t + (if k < rem then 1 else 0))
      && (forall k :: 0 <= k < servers - 1 ==> r.ranges[k + 1].start == r.ranges[k].start + r.ranges[k].size)
      && r.ranges[servers - 1].start + r.ranges[servers - 1].size == points
  {
    var t := TasksPerServer(points, servers);
    var rem := RemainderTasks(points, servers);
    IssueFromClosedForm(t, rem, servers, 0, 0, 1);
    IssueFromConsecutive(t, rem, servers, 0, 0, 1);
    assert servers * t == t * servers;
  }

  /** The indices of a range, in order. */
  function Indices(r: Range): (s: seq<nat>)
    ensures |s| == r.size
    ensures forall j :: 0 <= j < r.size ==> s[j] == r.start + j
  {
    seq(r.size, j requires 0 <= j < r.size => r.start + j)
  }

  function FlattenIndices(rs: seq<Range>): seq<nat>
  {
    if |rs| == 0 then [] else Indices(rs[0]) + FlattenIndices(rs[1..])
  }

  /** The sequence `from, from + 1, ..., to - 1`. */
  function Interval(from: nat, to: nat): (s: seq<nat>)
    requires from <= to
    ensures |s| == to - from
    ensures forall j :: 0 <= j < to - from ==> s[j] == from + j
  {
    seq(to - from, j requires 0 <= j < to - from => from + j)
  }

  /** Consecutive ranges from `from` to `to` list every index in between
      exactly once and in order. */
  lemma {:induction false} ConsecutiveRangesCover(rs: seq<Range>, from: nat, to: nat)
    requires |rs| >= 1
    requires rs[0].start == from
    requires forall k :: 0 <= k < |rs| - 1 ==> rs[k + 1].start == rs[k].start + rs[k].size
    requires rs[|rs| - 1].start + rs[|rs| - 1].size == to
    ensures from <= to
    ensures FlattenIndices(rs) == Interval(from, to)
  {
    if |rs| == 1 {
      assert FlattenIndices(rs) == Indices(rs[0]) + FlattenIndices([]);
      assert FlattenIndices(rs) == Interval(from, to);
    } else {
      var mid := rs[0].start + rs[0].size;
      ConsecutiveRangesCover(rs[1..], mid, to);
      assert FlattenIndices(rs) == Indices(rs[0]) + Interval(mid, to);
      assert Indices(rs[0]) + Interval(mid, to) == Interval(from, to);
    }
  }

  /** The chunks of all servers together are the indices 0 .. points - 1,
      each exactly once, in order. */
  lemma {:induction false} PartitionCovers(points: nat, servers: nat)
    requires servers >= 1
    ensures FlattenIndices(Issue(points, servers).ranges) == Interval(0, points)
  {
    IssueShape(points, servers);
    ConsecutiveRangesCover(Issue(points, servers).ranges, 0, points);
  }

  /** The points sent for a range: each curve point tagged with its index. */
  function ChunkPoints<P>(curve: seq<P>, r: Range): (c: seq<TaggedPoint<P>>)
    requires r.start + r.size <= |curve|
    ensures |c| == r.size
    ensures forall j :: 0 <= j < r.size ==> c[j] == TaggedPoint(curve[r.start + j], r.start + j)
  {
    seq(r.size, j requires 0 <= j < r.size => TaggedPoint(curve[r.start + j], r.start + j))
  }

  /** Python's index normalisation for assignment `m[tag] = v` on a list of
      length n: negative tags count from the end, anything else is an
      IndexError (`None`). */
  function NormaliseIndex(n: nat, tag: int): (r: Option<nat>)
    ensures r.Some? <==> -(n as int) <= tag < n
    ensures r.Some? ==> r.value < n && (r.value == tag || r.value == n + tag)
  {
    if 0 <= tag < n then Some(tag) else if -(n as int) <= tag < 0 then Some(n + tag) else None
  }

  /** The value of the last entry of `values` that lands on slot j, if any. */
  function LastAt<V>(values: seq<TaggedValue<V>>, n: nat, j: nat): Option<V>
  {
    if |values| == 0 then None
    else
      var last := values[|values| - 1];
      if NormaliseIndex(n, last.tag) == Some(j) then Some(last.value)
      else LastAt(values[..|values| - 1], n, j)
  }

  function Override<V>(previous: Option<V>, update: Option<V>): Option<V>
  {
    if update.Some? then update else previous
  }

  /** The inner loop of the collecting phase: store each value at its tag.
      Storing succeeds exactly when every tag is a valid Python index, and
      then each slot holds the last value tagged for it, the other slots being
      untouched. */
  function StoreValues<V>(metric: seq<Option<V>>, values: seq<TaggedValue<V>>): (r: Result<seq<Option<V>>>)
    ensures r.Success? <==> forall i :: 0 <= i < |values| ==> NormaliseIndex(|metric|, values[i].tag).Some?
    ensures r.Failure? ==> r.error == IndexError
    ensures r.Success? ==> |r.value| == |metric|
    ensures r.Success? ==> forall j :: 0 <= j < |metric| ==> r.value[j] == Override(metric[j], LastAt(values, |metric|, j))
    decreases |values|
  {
    if |values| == 0 then Success(metric)
    else
      var front := StoreValues(metric, values[..|values| - 1]);
      var last := values[|values| - 1];
      if front.Failure? then front
      else match NormaliseIndex(|metric|, last.tag)
        case None => Failure(IndexError)
        case Some(k) => Success(front.value[k := Some(last.value)])
  }

  /** `[[]] * n`: n slots that hold no value yet. */
  function EmptySlots<V>(n: nat): (r: seq<Option<V>>)
    ensures |r| == n
    ensures forall i :: 0 <= i < n ==> r[i].None?
  {
    seq(n, _ => None)
  }

  /** The first loop of `get_metric` from `address` on: build the chunk (an
      IndexError when the curve is too short), then send it; a server that
      cannot be reached ends the call with `None` (`Success(false)` here). */
  function SendFrom<P, V>(curve: seq<P>, ranges: seq<Range>, servers: seq<PotentialServer<V>>, address: nat): (r: Result<bool>)
    requires |ranges| == |servers| && address <= |servers|
    ensures r == Success(true) ==>
      forall k :: address <= k < |servers| ==> servers[k].acceptsPoints && ranges[k].start + ranges[k].size <= |curve|
    ensures r.Failure? ==> r.error == IndexError
    decreases |servers| - address
  {
    if address == |servers| then Success(true)
    else if ranges[address].start + ranges[address].size > |curve| then Failure(IndexError)
    else if !servers[address].acceptsPoints then Success(false)
    else SendFrom(curve, ranges, servers, address + 1)
  }

  /** The second loop of `get_metric` from `address` on: an unreachable
      server ends the call with `None`; otherwise its values are stored. */
  function CollectFrom<V>(metric: seq<Option<V>>, servers: seq<PotentialServer<V>>, address: nat): (r: Result<Option<seq<Option<V>>>>)
    requires address <= |servers|
    ensures r.Success? && r.value.Some? ==> |r.value.value| == |metric|
    ensures r.Failure? ==> r.error == IndexError
    decreases |servers| - address
  {
    if address == |servers| then Success(Some(metric))
    else match servers[address].answer
      case None => Success(None)
      case Some(reply) =>
        var stored := StoreValues(metric, reply.values);
        if stored.Failure? then Failure(stored.error)
        else CollectFrom(stored.value, servers, address + 1)
  }

  /** `get_metric(curve, n, addresses, authkey)`: `Failure` for a raised
      exception (no server: ZeroDivisionError; curve shorter than n + 2
      points, or a returned tag out of range: IndexError), `Success(None)`
      when a server cannot be reached, otherwise one slot per curve node,
      `None` standing for the placeholder `[]` of a slot nobody filled. */
  function GetMetric<P, V>(curve: seq<P>, innerPoints: nat, servers: seq<PotentialServer<V>>): (r: Result<Option<seq<Option<V>>>>)
    ensures |servers| == 0 <==> r == Failure(ZeroDivisionError)
    ensures r.Success? && r.value.Some? ==> |r.value.value| == innerPoints + 2
  {
    if |servers| == 0 then Failure(ZeroDivisionError)
    else
      var points := innerPoints + 2;
      var issued := Issue(points, |servers|);
      var sent := SendFrom(curve, issued.ranges, servers, 0);
      if sent.Failure? then Failure(sent.error)
      else if !sent.value then Success(None)
      else CollectFrom(EmptySlots(points), servers, 0)
  }

  /** Every range ends at or before the end of the last one. */
  lemma {:induction false} RangesEndBefore(rs: seq<Range>, to: nat)
    requires |rs| >= 1
    requires forall k :: 0 <= k < |rs| - 1 ==> rs[k + 1].start == rs[k].start + rs[k].size
    requires rs[|rs| - 1].start + rs[|rs| - 1].size == to
    ensures forall k :: 0 <= k < |rs| ==> rs[k].start + rs[k].size <= to
  {
    if |rs| > 1 {
      RangesEndBefore(rs[1..], to);
      assert rs[0].start + rs[0].size == rs[1].start;
      forall k | 1 <= k < |rs|
        ensures rs[k].start + rs[k].size <= to
      {
        assert rs[k] == rs[1..][k - 1];
      }
    }
  }

  /** A connection failure in the sending phase makes the whole call return
      `None`, provided the curve has its n + 2 points. */
  lemma {:induction false} UnreachableServerGivesNone<P, V>(curve: seq<P>, innerPoints: nat, servers: seq<PotentialServer<V>>, k: nat)
    requires |curve| >= innerPoints + 2
    requires k < |servers| && !servers[k].acceptsPoints
    ensures GetMetric(curve, innerPoints, servers) == Success(None)
  {
    var points := innerPoints + 2;
    var ranges := Issue(points, |servers|).ranges;
    IssueShape(points, |servers|);
    RangesEndBefore(ranges, points);
    SendStopsAtUnreachable(curve, ranges, servers, 0, k);
  }

  lemma {:induction false} SendStopsAtUnreachable<P, V>(curve: seq<P>, ranges: seq<Range>, servers: seq<PotentialServer<V>>, address: nat, k: nat)
    requires |ranges| == |servers| && address <= k < |servers|
    requires forall j :: 0 <= j < |ranges| ==> ranges[j].start + ranges[j].size <= |curve|
    requires !servers[k].acceptsPoints
    ensures SendFrom(curve, ranges, servers, address) == Success(false)
    decreases |servers| - address
  {
    if address < k && servers[address].acceptsPoints {
      SendStopsAtUnreachable(curve, ranges, servers, address + 1, k);
    }
  }

  /** A connection failure in the collecting phase makes the whole call
      return `None`, whatever the servers before it answered, provided their
      tags were valid indices. */
  lemma {:induction false} CollectStopsAtUnreachable<V>(metric: seq<Option<V>>, servers: seq<PotentialServer<V>>, address: nat, k: nat)
    requires address <= k < |servers| && servers[k].answer.None?
    requires forall j, i :: address <= j < k && servers[j].answer.Some? && 0 <= i < |servers[j].answer.value.values|
               ==> -(|metric| as int) <= servers[j].answer.value.values[i].tag < |metric|
    ensures CollectFrom(metric, servers, address) == Success(None)
    decreases |servers| - address
  {
    if address < k {
      match servers[address].answer
      case None =>
      case Some(reply) =>
        var stored := StoreValues(metric, reply.values);
        assert stored.Success?;
        CollectStopsAtUnreachable(stored.value, servers, address + 1, k);
    }
  }

  /** Storing two lists of values one after the other is storing their
      concatenation. */
  lemma {:induction false} StoreAppend<V>(metric: seq<Option<V>>, xs: seq<TaggedValue<V>>, ys: seq<TaggedValue<V>>)
    ensures StoreValues(metric, xs + ys) ==
      (var first := StoreValues(metric, xs); if first.Failure? then first else StoreValues(first.value, ys))
    decreases |ys|
  {
    if |ys| == 0 {
      assert xs + ys == xs;
    } else {
      var ys' := ys[..|ys| - 1];
      assert (xs + ys)[..|xs + ys| - 1] == xs + ys';
      assert (xs + ys)[|xs + ys| - 1] == ys[|ys| - 1];
      StoreAppend(metric, xs, ys');
    }
  }

  /** The values every server from `address` on returned, in server order. */
  function AnsweredValues<V>(servers: seq<PotentialServer<V>>, address: nat): seq<TaggedValue<V>>
    requires address <= |servers|
    decreases |servers| - address
  {
    if address == |servers| then []
    else
      (if servers[address].answer.Some? then servers[address].answer.value.values else [])
      + AnsweredValues(servers, address + 1)
  }

  /** When every server answers, collecting is storing everything returned. */
  lemma {:induction false} CollectIsStore<V>(metric: seq<Option<V>>, servers: seq<PotentialServer<V>>, address: nat)
    requires address <= |servers|
    requires forall k :: address <= k < |servers| ==> servers[k].answer.Some?
    ensures var stored := StoreValues(metric, AnsweredValues(servers, address));
      CollectFrom(metric, servers, address) ==
        (if stored.Failure? then Failure(stored.error) else Success(Some(stored.value)))
    decreases |servers| - address
  {
    if address == |servers| {
    } else {
      var reply := servers[address].answer.value;
      StoreAppend(metric, reply.values, AnsweredValues(servers, address + 1));
      var first := StoreValues(metric, reply.values);
      if first.Success? {
        CollectIsStore(first.value, servers, address + 1);
      }
    }
  }

  /** The values a potential server computes for the indices `idx`, each
      tagged with its index; `valueAt(i)` is the value at curve point i. */
  function TagAll<V>(valueAt: nat -> V, idx: seq<nat>): (r: seq<TaggedValue<V>>)
    ensures |r| == |idx|
    ensures forall j :: 0 <= j < |idx| ==> r[j] == TaggedValue(valueAt(idx[j]), idx[j])
  {
    seq(|idx|, j requires 0 <= j < |idx| => TaggedValue(valueAt(idx[j]), idx[j]))
  }

  lemma {:induction false} TagAllAppend<V>(valueAt: nat -> V, a: seq<nat>, b: seq<nat>)
    ensures TagAll(valueAt, a + b) == TagAll(valueAt, a) + TagAll(valueAt, b)
  {
  }

  /** The values the servers return when each answers its own chunk. */
  lemma {:induction false} AnsweredChunks<V>(valueAt: nat -> V, ranges: seq<Range>, servers: seq<PotentialServer<V>>, address: nat)
    requires |ranges| == |servers| && address <= |servers|
    requires forall k :: 0 <= k < |servers| ==> servers[k].answer == Some(ProvidesValues(TagAll(valueAt, Indices(ranges[k]))))
    ensures AnsweredValues(servers, address) == TagAll(valueAt, FlattenIndices(ranges[address..]))
    decreases |servers| - address
  {
    if address == |servers| {
      assert ranges[address..] == [];
    } else {
      AnsweredChunks(valueAt, ranges, servers, address + 1);
      assert ranges[address..][1..] == ranges[address + 1..];
      TagAllAppend(valueAt, Indices(ranges[address]), FlattenIndices(ranges[address + 1..]));
    }
  }

  /** In the values tagged 0 .. len - 1, slot j holds the value computed for
      point j. */
  lemma {:induction false} LastAtInterval<V>(valueAt: nat -> V, len: nat, n: nat, j: nat)
    requires len <= n && j < n
    ensures LastAt(TagAll(valueAt, Interval(0, len)), n, j) == (if j < len then Some(valueAt(j)) else None)
  {
    if len > 0 {
      var values := TagAll(valueAt, Interval(0, len));
      assert values[..len - 1] == TagAll(valueAt, Interval(0, len - 1));
      LastAtInterval(valueAt, len - 1, n, j);
    }
  }

  /** One slot per node, slot i holding the value computed for point i. */
  function Filled<V>(valueAt: nat -> V, n: nat): (r: seq<Option<V>>)
    ensures |r| == n
    ensures forall i :: 0 <= i < n ==> r[i] == Some(valueAt(i))
  {
    seq(n, (i: int) requires 0 <= i < n => Some(valueAt(i)))
  }

  /** Storing the values tagged 0 .. n - 1 into n empty slots fills them. */
  lemma {:induction false} StoreInterval<V>(valueAt: nat -> V, n: nat)
    ensures StoreValues(EmptySlots(n), TagAll(valueAt, Interval(0, n))) == Success(Filled(valueAt, n))
  {
    var stored := StoreValues(EmptySlots(n), TagAll(valueAt, Interval(0, n)));
    assert stored.Success?;
    forall j | 0 <= j < n
      ensures stored.value[j] == Some(valueAt(j))
    {
      LastAtInterval(valueAt, n, n, j);
    }
    assert stored.value == Filled(valueAt, n);
  }

  /** When the curve is long enough and every server accepts its points,
      `get_metric` goes on to the collecting phase. */
  lemma {:induction false} GetMetricCollects<P, V>(curve: seq<P>, innerPoints: nat, servers: seq<PotentialServer<V>>)
    requires |curve| >= innerPoints + 2 && |servers| >= 1
    requires forall k :: 0 <= k < |servers| ==> servers[k].acceptsPoints
    ensures GetMetric(curve, innerPoints, servers) == CollectFrom(EmptySlots(innerPoints + 2), servers, 0)
  {
    var points := innerPoints + 2;
    var ranges := Issue(points, |servers|).ranges;
    IssueShape(points, |servers|);
    RangesEndBefore(ranges, points);
    SendAllReachable(curve, ranges, servers, 0);
  }

  /** `get_metric` assembles, whatever the number of servers and however the
      points were split, one value per curve node, slot i holding the value
      computed for point i, when every server is reachable and answers with
      the tagged values of the chunk it was sent. */
  lemma {:induction false} GetMetricAssemblesByTag<P, V>(curve: seq<P>, innerPoints: nat, servers: seq<PotentialServer<V>>, valueAt: nat -> V)
    requires |curve| >= innerPoints + 2 && |servers| >= 1
    requires forall k :: 0 <= k < |servers| ==> servers[k].acceptsPoints
    requires forall k :: 0 <= k < |servers| ==>
      servers[k].answer == Some(ProvidesValues(TagAll(valueAt, Indices(Issue(innerPoints + 2, |servers|).ranges[k]))))
    ensures GetMetric(curve, innerPoints, servers) == Success(Some(Filled(valueAt, innerPoints + 2)))
  {
    var points := innerPoints + 2;
    var ranges := Issue(points, |servers|).ranges;
    GetMetricCollects(curve, innerPoints, servers);
    var metric: seq<Option<V>> := EmptySlots(points);
    CollectIsStore(metric, servers, 0);
    AnsweredChunks(valueAt, ranges, servers, 0);
    assert ranges[0..] == ranges;
    PartitionCovers(points, |servers|);
    StoreInterval(valueAt, points);
  }

  lemma {:induction false} SendAllReachable<P, V>(curve: seq<P>, ranges: seq<Range>, servers: seq<PotentialServer<V>>, address: nat)
    requires |ranges| == |servers| && address <= |servers|
    requires forall j :: 0 <= j < |ranges| ==> ranges[j].start + ranges[j].size <= |curve|
    requires forall k :: 0 <= k < |servers| ==> servers[k].acceptsPoints
    ensures SendFrom(curve, ranges, servers, address) == Success(true)
    decreases |servers| - address
  {
    if address < |servers| {
      SendAllReachable(curve, ranges, servers, address + 1);
    }
  }

  /** One connection attempt of `shutdown_metric`. */
  datatype Attempt = Delivered(address: nat, request: PotentialRequest<seq<real>>) | Unreachable(address: nat)

  /** `shutdown_metric`: one attempt per address, in order; KILL reaches every
      reachable server, and an unreachable one does not stop the loop. */
  function ShutdownMetric(reachable: seq<bool>): (r: seq<Attempt>)
    ensures |r| == |reachable|
    ensures forall k :: 0 <= k < |r| ==> r[k].address == k
    ensures forall k :: 0 <= k < |r| ==> (r[k].Delivered? <==> reachable[k])
    ensures forall k :: 0 <= k < |r| && r[k].Delivered? ==> r[k].request == Kill
  {
    ShutdownFrom(reachable, 0)
  }

  function ShutdownFrom(reachable: seq<bool>, address: nat): (r: seq<Attempt>)
    requires address <= |reachable|
    ensures |r| == |reachable| - address
    ensures forall k :: 0 <= k < |r| ==> r[k].address == address + k
    ensures forall k :: 0 <= k < |r| ==> (r[k].Delivered? <==> reachable[address + k])
    ensures forall k :: 0 <= k < |r| && r[k].Delivered? ==> r[k].request == Kill
    decreases |reachable| - address
  {
    if address == |reachable| then []
    else
      var attempt := if reachable[address] then Delivered(address, Kill) else Unreachable(address);
      [attempt] + ShutdownFrom(reachable, address + 1)
  }
}
