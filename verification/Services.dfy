/** system/kernel/services.ep: the heartbeat service and the side that asks and stops it,
    as interleaved steps over two first-in first-out channels per started instance.

    Orders and replies carry the number of the request they belong to. The real messages
    are only the numbers OrderNumber and ReplyNumber give; no step looks at the rest. */
module Services {

  datatype Order = Ask(id: nat) | Stop(id: nat)

  datatype Reply = Beats(count: nat, id: nat) | Goodbye(id: nat)

  function OrderNumber(o: Order): int { if o.Stop? then 1 else 2 }

  function ReplyNumber(r: Reply): int { if r.Goodbye? then 99 else r.count }

  /** Where the service thread stands: in its one-second select, about to receive,
      about to send a count, about to say goodbye, or returned. */
  datatype Thread = Selecting | Taking | Answering(id: nat) | Leaving(id: nat) | Returned

  /** What a request came to: no reply within two seconds, or this reply. */
  datatype Outcome = TimedOut | Got(reply: Reply)

  datatype Instance = Instance(
    orders: seq<Order>,    // the control channel
    replies: seq<Reply>,   // the answers channel
    thread: Thread,
    beats: nat,
    log: seq<Outcome>,     // what each finished request came to, oldest first
    stopSent: bool)

  /** The asking side: idle, in its select, or about to receive. */
  datatype Main = Idle | Waiting(order: Order) | Receiving(order: Order)

  /** The service's record in the table: none yet, running, or stopped. */
  datatype Record = Absent | Running | Stopped

  /** The board's two names lead to the channels of the last instance started. */
  datatype World = World(instances: seq<Instance>, record: Record, main: Main)

  const CAPACITY: nat := 1024

  const START: World := World([], Absent, Idle)

  const FRESH: Instance := Instance([], [], Selecting, 0, [], false)

  // ---------- steps ----------

  datatype Step =
    | StartService | SendAsk | SendStop | TimeOut | SelectReply | ReceiveReply
    | Beat(i: nat) | SelectOrder(i: nat) | ReceiveOrder(i: nat) | SendBeats(i: nat) | SendGoodbye(i: nat)

  /** The number of the next request to the last instance. */
  function Sent(x: Instance, inFlight: bool): nat { |x.log| + if inFlight then 1 else 0 }

  function Last(w: World): Instance
    requires w.instances != []
  {
    w.instances[|w.instances| - 1]
  }

  function SetLast(w: World, x: Instance): World
    requires w.instances != []
  {
    w.(instances := w.instances[|w.instances| - 1 := x])
  }

  /** One step; a step that cannot be taken now leaves the world as it is. */
  function Next(w: World, s: Step): World {
    match s
    case StartService =>
      if w.main == Idle && w.record != Running then World(w.instances + [FRESH], Running, Idle) else w
    case SendAsk =>
      if w.main == Idle && w.record == Running && w.instances != [] && |Last(w).orders| < CAPACITY then
        var x := Last(w);
        SetLast(w, x.(orders := x.orders + [Ask(|x.log|)])).(main := Waiting(Ask(|x.log|)))
      else w
    case SendStop =>
      if w.main == Idle && w.record == Running && w.instances != [] && |Last(w).orders| < CAPACITY then
        var x := Last(w);
        SetLast(w, x.(orders := x.orders + [Stop(|x.log|)], stopSent := true)).(main := Waiting(Stop(|x.log|)))
      else w
    case TimeOut =>
      if w.main.Waiting? && w.instances != [] then
        var x := Last(w);
        SetLast(w, x.(log := x.log + [TimedOut]))
          .(main := Idle, record := if w.main.order.Stop? then Stopped else w.record)
      else w
    case SelectReply =>
      if w.main.Waiting? && w.instances != [] && Last(w).replies != [] then w.(main := Receiving(w.main.order)) else w
    case ReceiveReply =>
      if w.main.Receiving? && w.instances != [] && Last(w).replies != [] then
        var x := Last(w);
        SetLast(w, x.(replies := x.replies[1..], log := x.log + [Got(x.replies[0])]))
          .(main := Idle, record := if w.main.order.Stop? then Stopped else w.record)
      else w
    case _ =>
      if s.i < |w.instances| then w.(instances := w.instances[s.i := ServiceNext(w.instances[s.i], s)]) else w
  }

  /** One step of a service thread, the loop of heartbeat_service. */
  function ServiceNext(x: Instance, s: Step): Instance {
    match s
    case Beat(_) => if x.thread == Selecting then x.(beats := x.beats + 1) else x
    case SelectOrder(_) => if x.thread == Selecting && x.orders != [] then x.(thread := Taking) else x
    case ReceiveOrder(_) =>
      if x.thread == Taking && x.orders != [] then
        x.(orders := x.orders[1..],
           thread := if x.orders[0].Stop? then Leaving(x.orders[0].id) else Answering(x.orders[0].id))
      else x
    case SendBeats(_) =>
      if x.thread.Answering? && |x.replies| < CAPACITY then
        x.(replies := x.replies + [Beats(x.beats, x.thread.id)], thread := Selecting)
      else x
    case SendGoodbye(_) =>
      if x.thread.Leaving? && |x.replies| < CAPACITY then
        x.(replies := x.replies + [Goodbye(x.thread.id)], thread := Returned)
      else x
    case _ => x
  }

  function Run(w: World, steps: seq<Step>): World {
    if steps == [] then w else Next(Run(w, steps[..|steps| - 1]), steps[|steps| - 1])
  }

  // ---------- the invariant ----------

  /** The replies received so far, oldest first. */
  function Received(log: seq<Outcome>): seq<Reply> {
    if log == [] then []
    else
      var last := log[|log| - 1];
      Received(log[..|log| - 1]) + if last.Got? then [last.reply] else []
  }

  function Timeouts(log: seq<Outcome>): nat {
    if log == [] then 0
    else Timeouts(log[..|log| - 1]) + if log[|log| - 1].TimedOut? then 1 else 0
  }

  /** Every reply ever sent, oldest first. */
  function Flow(x: Instance): seq<Reply> { Received(x.log) + x.replies }

  function Busy(t: Thread): nat { if t.Answering? || t.Leaving? then 1 else 0 }

  ghost predicate InstanceOk(x: Instance, inFlight: bool) {
    var sent, flow := Sent(x, inFlight), Flow(x);
    // requests are answered in order, one reply each
    && |flow| + Busy(x.thread) + |x.orders| == sent
    && (forall i :: 0 <= i < |flow| ==> flow[i].id == i)
    && (Busy(x.thread) == 1 ==> x.thread.id == |flow|)
    && (forall j :: 0 <= j < |x.orders| ==> x.orders[j].id == |flow| + Busy(x.thread) + j)
    && (x.thread == Taking ==> x.orders != [])
    // a request is a stop exactly when it is the last one of a stopped instance
    && (x.stopSent ==> sent > 0)
    && (forall i :: 0 <= i < |flow| ==> (flow[i].Goodbye? <==> x.stopSent && i == sent - 1))
    && (x.thread.Answering? ==> !(x.stopSent && x.thread.id == sent - 1))
    && (x.thread.Leaving? ==> x.stopSent && x.thread.id == sent - 1)
    && (forall j :: 0 <= j < |x.orders| ==> (x.orders[j].Stop? <==> x.stopSent && x.orders[j].id == sent - 1))
    && (x.thread == Returned <==> x.stopSent && |flow| == sent)
    // counts only grow
    && (forall i :: 0 <= i < |flow| && flow[i].Beats? ==> flow[i].count <= x.beats)
    && (forall i, j :: 0 <= i < j < |flow| && flow[i].Beats? && flow[j].Beats? ==> flow[i].count <= flow[j].count)
  }

  /** Is a request to instance i waiting for its reply? Only the last one is ever asked. */
  predicate InFlight(w: World, i: nat) { i == |w.instances| - 1 && w.main != Idle }

  ghost predicate Inv(w: World) {
    && (forall i :: 0 <= i < |w.instances| - 1 ==> InstanceOk(w.instances[i], false) && w.instances[i].stopSent)
    && (w.instances == [] <==> w.record == Absent)
    && (w.main != Idle ==> w.record == Running)
    && (w.instances != [] ==>
          && InstanceOk(Last(w), w.main != Idle)
          && (Last(w).stopSent <==> w.record == Stopped || (w.main != Idle && w.main.order.Stop?))
          && (w.main != Idle ==> w.main.order.id == |Last(w).log|)
          && (w.main.Receiving? ==> Last(w).replies != []))
  }

  lemma {:induction false} InvHolds(steps: seq<Step>)
    ensures Inv(Run(START, steps))
  {
    if steps != [] {
      var n := |steps| - 1;
      InvHolds(steps[..n]);
      InvNext(Run(START, steps[..n]), steps[n]);
    }
  }

  lemma InvNext(w: World, s: Step)
    requires Inv(w)
    ensures Inv(Next(w, s))
  {
    match s
    case StartService => StartKeeps(w);
    case SendAsk => SendKeeps(w, s);
    case SendStop => SendKeeps(w, s);
    case TimeOut => TimeOutKeeps(w);
    case SelectReply =>
    case ReceiveReply => ReceiveReplyKeeps(w);
    case _ => ThreadKeeps(w, s);
  }

  predicate OfThread(s: Step) {
    s.Beat? || s.SelectOrder? || s.ReceiveOrder? || s.SendBeats? || s.SendGoodbye?
  }

  lemma ThreadKeeps(w: World, s: Step)
    requires Inv(w) && OfThread(s)
    ensures Inv(Next(w, s))
  {
    if s.i < |w.instances| {
      var x := w.instances[s.i];
      ServiceKeeps(x, s, InFlight(w, s.i));
      ReplaceKeeps(w, s.i, ServiceNext(x, s));
    }
  }

  lemma ReplaceKeeps(w: World, i: nat, y: Instance)
    requires Inv(w) && i < |w.instances| && InstanceOk(y, InFlight(w, i))
    requires y.log == w.instances[i].log && y.stopSent == w.instances[i].stopSent
    requires w.instances[i].replies != [] ==> y.replies != []
    ensures Inv(w.(instances := w.instances[i := y]))
  {
    var v := w.(instances := w.instances[i := y]);
    forall k | 0 <= k < |v.instances| - 1
      ensures InstanceOk(v.instances[k], false) && v.instances[k].stopSent
    {
      assert v.instances[k] == if k == i then y else w.instances[k];
    }
    assert Last(v) == if i == |w.instances| - 1 then y else Last(w);
  }

  lemma StartKeeps(w: World)
    requires Inv(w)
    ensures Inv(Next(w, StartService))
  {
    if w.main == Idle && w.record != Running {
      var v := Next(w, StartService);
      assert Flow(FRESH) == [];
      forall i | 0 <= i < |v.instances| - 1
        ensures InstanceOk(v.instances[i], false) && v.instances[i].stopSent
      {
        if i == |w.instances| - 1 { assert v.instances[i] == Last(w); }
      }
    }
  }

  lemma SendKeeps(w: World, s: Step)
    requires Inv(w) && (s == SendAsk || s == SendStop)
    ensures Inv(Next(w, s))
  {
    var v := Next(w, s);
    if v != w {
      assert Flow(Last(v)) == Flow(Last(w));
      assert InstanceOk(Last(v), true);
    }
  }

  lemma TimeOutKeeps(w: World)
    requires Inv(w)
    ensures Inv(Next(w, TimeOut))
  {
    var v := Next(w, TimeOut);
    if v != w {
      assert Last(v).log[..|Last(w).log|] == Last(w).log;
      assert Flow(Last(v)) == Flow(Last(w));
      assert InstanceOk(Last(v), false);
    }
  }

  lemma ReceiveReplyKeeps(w: World)
    requires Inv(w)
    ensures Inv(Next(w, ReceiveReply))
  {
    var v := Next(w, ReceiveReply);
    if v != w {
      var x, y := Last(w), Last(v);
      assert y.log[..|x.log|] == x.log;
      assert x.replies == [x.replies[0]] + x.replies[1..];
      assert Flow(y) == Flow(x);
      assert InstanceOk(y, false);
    }
  }

  lemma ServiceKeeps(x: Instance, s: Step, inFlight: bool)
    requires InstanceOk(x, inFlight)
    ensures InstanceOk(ServiceNext(x, s), inFlight)
    ensures ServiceNext(x, s).log == x.log && ServiceNext(x, s).stopSent == x.stopSent
    ensures x.replies != [] ==> ServiceNext(x, s).replies != []
  {
    match s
    case Beat(_) => BeatKeeps(x, s, inFlight);
    case SelectOrder(_) => SelectKeeps(x, s, inFlight);
    case ReceiveOrder(_) => ReceiveKeeps(x, s, inFlight);
    case SendBeats(_) => AnswerKeeps(x, s, inFlight);
    case SendGoodbye(_) => LeaveKeeps(x, s, inFlight);
    case _ =>
  }

  lemma BeatKeeps(x: Instance, s: Step, inFlight: bool)
    requires InstanceOk(x, inFlight) && s.Beat?
    ensures InstanceOk(ServiceNext(x, s), inFlight)
  {
    assert Flow(ServiceNext(x, s)) == Flow(x);
  }

  lemma SelectKeeps(x: Instance, s: Step, inFlight: bool)
    requires InstanceOk(x, inFlight) && s.SelectOrder?
    ensures InstanceOk(ServiceNext(x, s), inFlight)
  {
    assert Flow(ServiceNext(x, s)) == Flow(x);
  }

  lemma ReceiveKeeps(x: Instance, s: Step, inFlight: bool)
    requires InstanceOk(x, inFlight) && s.ReceiveOrder?
    ensures InstanceOk(ServiceNext(x, s), inFlight)
  {
    assert Flow(ServiceNext(x, s)) == Flow(x);
  }

  lemma AnswerKeeps(x: Instance, s: Step, inFlight: bool)
    requires InstanceOk(x, inFlight) && s.SendBeats?
    ensures InstanceOk(ServiceNext(x, s), inFlight)
  {
    if ServiceNext(x, s) != x { assert Flow(ServiceNext(x, s)) == Flow(x) + [Beats(x.beats, x.thread.id)]; }
  }

  lemma LeaveKeeps(x: Instance, s: Step, inFlight: bool)
    requires InstanceOk(x, inFlight) && s.SendGoodbye?
    ensures InstanceOk(ServiceNext(x, s), inFlight)
  {
    if ServiceNext(x, s) != x { assert Flow(ServiceNext(x, s)) == Flow(x) + [Goodbye(x.thread.id)]; }
  }

  // ---------- what every run keeps ----------

  /** What service_ask gives back for a finished request. */
  function AskResult(o: Outcome): int { if o.TimedOut? then -1 else ReplyNumber(o.reply) }

  lemma {:induction false} ReceivedCount(log: seq<Outcome>)
    ensures |Received(log)| + Timeouts(log) == |log|
  {
    if log != [] { ReceivedCount(log[..|log| - 1]); }
  }

  /** The reply to request k is the received reply numbered by the requests before k that
      did not time out. */
  lemma {:induction false} ReceivedAt(log: seq<Outcome>, k: nat)
    requires k < |log| && log[k].Got?
    ensures var n := |Received(log[..k])|; n < |Received(log)| && Received(log)[n] == log[k].reply
  {
    var front := log[..|log| - 1];
    if k < |front| {
      assert front[..k] == log[..k];
      ReceivedAt(front, k);
    } else {
      assert log[..k] == front;
    }
  }

  lemma InvOf(steps: seq<Step>, i: nat)
    requires i < |Run(START, steps).instances|
    ensures InstanceOk(Run(START, steps).instances[i], InFlight(Run(START, steps), i))
  {
    hide Run, InstanceOk;
    InvHolds(steps);
  }

  /** Conservation: orders not yet answered plus replies not yet received are the requests
      that timed out, plus one if a request is in flight. */
  lemma Balance(steps: seq<Step>, i: nat)
    requires i < |Run(START, steps).instances|
    ensures var w := Run(START, steps);
      var x := w.instances[i];
      |x.orders| + Busy(x.thread) + |x.replies| == Timeouts(x.log) + (if InFlight(w, i) then 1 else 0)
  {
    InvOf(steps, i);
    ReceivedCount(Run(START, steps).instances[i].log);
  }

  /** A stop order waits at most once, behind every other order, and when the service has
      taken one no order is left. */
  lemma StopIsLastOrder(steps: seq<Step>, i: nat, j: nat)
    requires i < |Run(START, steps).instances|
    ensures var x := Run(START, steps).instances[i];
      && (j < |x.orders| && x.orders[j].Stop? ==> x.stopSent && j == |x.orders| - 1)
      && (x.thread.Leaving? || x.thread == Returned ==> x.stopSent && x.orders == [])
  {
    InvOf(steps, i);
  }

  /** Once an instance was sent a stop, it is never sent anything again. */
  lemma StopIsFinal(steps: seq<Step>, s: Step, i: nat)
    requires i < |Run(START, steps).instances| && Run(START, steps).instances[i].stopSent
    ensures var w, v := Run(START, steps), Next(Run(START, steps), s);
      && i < |v.instances| && v.instances[i].stopSent
      && Sent(v.instances[i], InFlight(v, i)) == Sent(w.instances[i], InFlight(w, i))
  {
    InvHolds(steps);
    SentStays(Run(START, steps), s, i);
  }

  lemma SentStays(w: World, s: Step, i: nat)
    requires i < |w.instances| && w.instances[i].stopSent
    requires i == |w.instances| - 1 ==> w.record == Stopped || w.main != Idle
    ensures var v := Next(w, s);
      && i < |v.instances| && v.instances[i].stopSent
      && Sent(v.instances[i], InFlight(v, i)) == Sent(w.instances[i], InFlight(w, i))
  {
    if OfThread(s) && s.i < |w.instances| { ServiceLeaves(w.instances[s.i], s); }
  }

  lemma ServiceLeaves(x: Instance, s: Step)
    ensures ServiceNext(x, s).log == x.log && ServiceNext(x, s).stopSent == x.stopSent
  {
  }

  /** The reply a request gets answers the request as many places earlier as requests had
      timed out before it: its own exactly when none had. */
  lemma ReplyLagsByTimeouts(steps: seq<Step>, i: nat, k: nat)
    requires i < |Run(START, steps).instances|
    requires k < |Run(START, steps).instances[i].log| && Run(START, steps).instances[i].log[k].Got?
    ensures var log := Run(START, steps).instances[i].log;
      log[k].reply.id == k - Timeouts(log[..k]) && (log[k].reply.id == k <==> Timeouts(log[..k]) == 0)
  {
    var x := Run(START, steps).instances[i];
    InvOf(steps, i);
    ReceivedAt(x.log, k);
    ReceivedCount(x.log[..k]);
    assert Flow(x)[|Received(x.log[..k])|] == x.log[k].reply;
  }

  /** A request times out, the next one is sent, and only then the service answers: the
      second request is given the reply to the first. */
  const LATE := [StartService, SendAsk, TimeOut, SendAsk, SelectOrder(0), ReceiveOrder(0), SendBeats(0), SelectReply,
                 ReceiveReply]

  const BEFORE_LATE := Instance([Ask(0), Ask(1)], [], Selecting, 0, [TimedOut], false)
  const AFTER_LATE := Instance([Ask(1)], [Beats(0, 0)], Selecting, 0, [TimedOut], false)

  lemma LateReplyGoesToNextRequest()
    ensures |Run(START, LATE).instances| == 1
    ensures Run(START, LATE).instances[0].log == [TimedOut, Got(Beats(0, 0))]
  {
    hide Run;
    LateAnswer();
    var z := AFTER_LATE;
    var got := z.(replies := [], log := [TimedOut, Got(Beats(0, 0))]);
    FirstSteps(LATE, 7, SelectReply, World([z], Running, Receiving(Ask(1))));
    assert z.replies[1..] == [] && z.log + [Got(Beats(0, 0))] == got.log && [z][0 := got] == [got];
    FirstSteps(LATE, 8, ReceiveReply, World([got], Running, Idle));
    assert LATE[..9] == LATE;
  }

  lemma LateAnswer()
    ensures Run(START, LATE[..7]) == World([AFTER_LATE], Running, Waiting(Ask(1)))
  {
    hide Run;
    LateRequests();
    var y, z := BEFORE_LATE, AFTER_LATE;
    var taking, answering := y.(thread := Taking), z.(replies := [], thread := Answering(0));
    assert [y][0 := taking] == [taking];
    FirstSteps(LATE, 4, SelectOrder(0), World([taking], Running, Waiting(Ask(1))));
    assert taking.orders[1..] == answering.orders && [taking][0 := answering] == [answering];
    FirstSteps(LATE, 5, ReceiveOrder(0), World([answering], Running, Waiting(Ask(1))));
    assert answering.replies + [Beats(0, 0)] == z.replies && [answering][0 := z] == [z];
    FirstSteps(LATE, 6, SendBeats(0), World([z], Running, Waiting(Ask(1))));
  }

  lemma LateRequests()
    ensures Run(START, LATE[..4]) == World([BEFORE_LATE], Running, Waiting(Ask(1)))
  {
    hide Run;
    var asked, y := FRESH.(orders := [Ask(0)]), BEFORE_LATE;
    var waited := asked.(log := [TimedOut]);
    NoSteps();
    FirstSteps(LATE, 0, StartService, World([FRESH], Running, Idle));
    assert FRESH.orders + [Ask(0)] == asked.orders && [FRESH][0 := asked] == [asked];
    FirstSteps(LATE, 1, SendAsk, World([asked], Running, Waiting(Ask(0))));
    assert asked.log + [TimedOut] == waited.log && [asked][0 := waited] == [waited];
    FirstSteps(LATE, 2, TimeOut, World([waited], Running, Idle));
    assert waited.orders + [Ask(1)] == y.orders && [waited][0 := y] == [y];
    FirstSteps(LATE, 3, SendAsk, World([y], Running, Waiting(Ask(1))));
  }

  lemma NoSteps()
    ensures Run(START, LATE[..0]) == START
  {}

  lemma FirstSteps(steps: seq<Step>, n: nat, s: Step, w: World)
    requires n < |steps| && steps[n] == s && Next(Run(START, steps[..n]), s) == w
    ensures Run(START, steps[..n + 1]) == w
  {
    assert steps[..n + 1][..n] == steps[..n];
  }

  /** No ask is ever given the goodbye; the stop itself is given it exactly when no request
      of its instance had timed out, and a stale count otherwise. */
  lemma OnlyStopHearsGoodbye(steps: seq<Step>, i: nat, k: nat)
    requires i < |Run(START, steps).instances|
    requires k < |Run(START, steps).instances[i].log| && Run(START, steps).instances[i].log[k].Got?
    ensures var w := Run(START, steps);
      var x := w.instances[i];
      x.log[k].reply.Goodbye? <==>
        x.stopSent && k == Sent(x, InFlight(w, i)) - 1 && Timeouts(x.log[..k]) == 0
  {
    var x := Run(START, steps).instances[i];
    InvOf(steps, i);
    ReplyLagsByTimeouts(steps, i, k);
    ReceivedAt(x.log, k);
    assert Flow(x)[|Received(x.log[..k])|] == x.log[k].reply;
  }

  // ---------- what is counted ----------

  /** How many seconds instance i's select ran out, in these steps. */
  function BeatsTaken(steps: seq<Step>, i: nat): nat {
    if steps == [] then 0
    else
      var before := Run(START, steps[..|steps| - 1]);
      var beat := steps[|steps| - 1] == Beat(i) && i < |before.instances| && before.instances[i].thread == Selecting;
      BeatsTaken(steps[..|steps| - 1], i) + if beat then 1 else 0
  }

  /** The count of an instance is the number of seconds its select ran out. */
  lemma {:induction false} BeatsCount(steps: seq<Step>, i: nat)
    ensures var w := Run(START, steps);
      if i < |w.instances| then w.instances[i].beats == BeatsTaken(steps, i) else BeatsTaken(steps, i) == 0
  {
    if steps != [] {
      var n := |steps| - 1;
      BeatsCount(steps[..n], i);
      BeatStep(Run(START, steps[..n]), steps[n], i);
    }
  }

  lemma BeatStep(w: World, s: Step, i: nat)
    ensures |Next(w, s).instances| >= |w.instances|
    ensures i < |w.instances| ==>
      Next(w, s).instances[i].beats ==
      w.instances[i].beats + if s == Beat(i) && w.instances[i].thread == Selecting then 1 else 0
    ensures |w.instances| <= i < |Next(w, s).instances| ==> Next(w, s).instances[i].beats == 0
  {}

  /** At step m instance i answered request id with this count: what it had counted then. */
  ghost predicate Counted(steps: seq<Step>, i: nat, m: nat, r: Reply) {
    && m < |steps| && steps[m] == SendBeats(i) && r.Beats? && i < |Run(START, steps[..m]).instances|
    && Run(START, steps[..m]).instances[i].thread == Answering(r.id) && r.count == BeatsTaken(steps[..m], i)
  }

  /** Every count ever sent is the number of seconds counted when it was sent. */
  lemma {:induction false} CountsAreBeats(steps: seq<Step>, i: nat, k: nat) returns (m: nat)
    requires i < |Run(START, steps).instances| && k < |Flow(Run(START, steps).instances[i])|
    requires Flow(Run(START, steps).instances[i])[k].Beats?
    ensures Counted(steps, i, m, Flow(Run(START, steps).instances[i])[k])
  {
    var n := |steps| - 1;
    var front := steps[..n];
    var w := Run(START, front);
    FlowStep(w, steps[n], i);
    if i < |w.instances| && k < |Flow(w.instances[i])| {
      m := CountsAreBeats(front, i, k);
      assert front[..m] == steps[..m];
    } else {
      m := n;
      BeatsCount(front, i);
    }
  }

  /** This number was counted and sent by instance i. */
  ghost predicate WasCounted(steps: seq<Step>, i: nat, answer: int) {
    exists m: nat, r: Reply :: Counted(steps, i, m, r) && answer == r.count
  }

  /** So what a request is given, when it is a count, was the number of seconds counted at
      the moment it was sent. */
  lemma GivenWasCounted(steps: seq<Step>, i: nat, k: nat)
    requires i < |Run(START, steps).instances| && k < |Run(START, steps).instances[i].log|
    requires var o := Run(START, steps).instances[i].log[k]; o.Got? && o.reply.Beats?
    ensures WasCounted(steps, i, AskResult(Run(START, steps).instances[i].log[k]))
  {
    hide Run, BeatsTaken, Counted;
    var x := Run(START, steps).instances[i];
    ReceivedAt(x.log, k);
    assert Flow(x)[|Received(x.log[..k])|] == x.log[k].reply;
    var m := CountsAreBeats(steps, i, |Received(x.log[..k])|);
    assert Counted(steps, i, m, x.log[k].reply);
  }

  /** One step adds to the replies of an instance what it sends, and nothing else. */
  lemma FlowStep(w: World, s: Step, i: nat)
    requires i < |Next(w, s).instances|
    ensures i >= |w.instances| ==> Flow(Next(w, s).instances[i]) == []
    ensures i < |w.instances| ==> FlowGrows(w.instances[i], Next(w, s).instances[i], s, i)
  {
    hide Flow;
    if i < |w.instances| {
      if OfThread(s) {
        if s.i == i { ThreadFlow(w.instances[i], s); }
      } else if i == |w.instances| - 1 {
        LastFlow(w, s);
      }
    } else {
      assert Flow(FRESH) == [] by { NothingFlows(); }
    }
  }

  lemma NothingFlows()
    ensures Flow(FRESH) == []
  {}

  ghost predicate FlowGrows(x: Instance, y: Instance, s: Step, i: nat) {
    if s == SendBeats(i) && y != x then
      x.thread.Answering? && Flow(y) == Flow(x) + [Beats(x.beats, x.thread.id)]
    else if s == SendGoodbye(i) && y != x then
      x.thread.Leaving? && Flow(y) == Flow(x) + [Goodbye(x.thread.id)]
    else Flow(y) == Flow(x)
  }

  lemma ThreadFlow(x: Instance, s: Step)
    requires OfThread(s)
    ensures FlowGrows(x, ServiceNext(x, s), s, s.i)
  {
    var y := ServiceNext(x, s);
    if s.SendBeats? && y != x {
      assert Flow(y) == Flow(x) + [Beats(x.beats, x.thread.id)];
    } else if s.SendGoodbye? && y != x {
      assert Flow(y) == Flow(x) + [Goodbye(x.thread.id)];
    }
  }

  lemma LastFlow(w: World, s: Step)
    requires !OfThread(s) && w.instances != []
    ensures Flow(Next(w, s).instances[|w.instances| - 1]) == Flow(Last(w))
  {
    var x, y := Last(w), Next(w, s).instances[|w.instances| - 1];
    if s == ReceiveReply && y != x {
      assert y.log[..|x.log|] == x.log;
      assert x.replies == [x.replies[0]] + x.replies[1..];
    } else if s == TimeOut && y != x {
      assert y.log[..|x.log|] == x.log;
    }
  }

  /** The counts asks are given never decrease. */
  lemma CountsNeverDecrease(steps: seq<Step>, i: nat, j: nat, k: nat)
    requires i < |Run(START, steps).instances| && j < k < |Run(START, steps).instances[i].log|
    requires var log := Run(START, steps).instances[i].log;
      log[j].Got? && log[k].Got? && log[j].reply.Beats? && log[k].reply.Beats?
    ensures var log := Run(START, steps).instances[i].log; AskResult(log[j]) <= AskResult(log[k])
  {
    var x := Run(START, steps).instances[i];
    InvOf(steps, i);
    ReceivedAt(x.log, j);
    ReceivedAt(x.log, k);
    ReceivedAt(x.log[..k], j);
    assert x.log[..k][..j] == x.log[..j];
    var a, b := |Received(x.log[..j])|, |Received(x.log[..k])|;
    assert Flow(x)[a] == x.log[j].reply && Flow(x)[b] == x.log[k].reply;
  }

  /** At most one instance was never sent a stop, and it is the one the board leads to. */
  lemma OneUnstopped(steps: seq<Step>, i: nat)
    requires i < |Run(START, steps).instances| && !Run(START, steps).instances[i].stopSent
    ensures i == |Run(START, steps).instances| - 1 && Run(START, steps).record == Running
  {
    InvHolds(steps);
  }

  /** A receive never blocks: what a select reported is still there. */
  lemma SelectedIsThere(steps: seq<Step>, i: nat)
    requires i < |Run(START, steps).instances|
    ensures var w := Run(START, steps);
      && (w.instances[i].thread == Taking ==> w.instances[i].orders != [])
      && (w.main.Receiving? ==> w.instances != [] && Last(w).replies != [])
  {
    InvHolds(steps);
    InvOf(steps, i);
  }
}
