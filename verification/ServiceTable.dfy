/** system/kernel/services.ep and board_ask of system/kernel/messages.ep as the loops and
    calls they are: everything they do is a run of the machine of Services, so its laws
    hold of them, with any steps of the other side in between. */
module ServiceTable {
  import opened Services
  import Messages

  /** The channels and threads both sides share, and the steps taken so far. */
  class Shared {
    var world: World
    ghost var trace: seq<Step>

    ghost predicate Valid() reads this { world == Run(START, trace) }

    constructor ()
      ensures Valid() && world == START && trace == []
    {
      world, trace := START, [];
    }

    method Do(s: Step)
      requires Valid()
      modifies this
      ensures Valid() && world == Next(old(world), s) && trace == old(trace) + [s]
      ensures forall i: nat :: Turns(trace, i) == Turns(old(trace), i) + if s in {Beat(i), SelectOrder(i)} then 1 else 0
    {
      OneStepMore(trace, s);
      assert (trace + [s])[..|trace|] == trace;
      world := Next(world, s);
      trace := trace + [s];
    }

    /** The service threads go on for a while. */
    method Threads()
      requires Valid()
      modifies this
      ensures Valid() && old(trace) <= trace && MainLeft(old(world), world)
    {
      var turns: int, t := *, 0;
      while t < turns
        invariant Valid() && old(trace) <= trace && MainLeft(old(world), world)
      {
        t := t + 1;
        var s: Step := *;
        if OfThread(s) {
          ThreadsLeaveMain(world, s);
          Do(s);
        }
      }
    }

    /** Everyone but the service thread of instance i goes on for a while. */
    method AllBut(i: nat)
      requires Valid() && i < |world.instances|
      modifies this
      ensures Valid() && old(trace) <= trace && ThreadLeft(old(world), world, i)
      ensures Turns(trace, i) == Turns(old(trace), i)
    {
      var turns: int, t := *, 0;
      while t < turns
        invariant Valid() && old(trace) <= trace && ThreadLeft(old(world), world, i)
        invariant Turns(trace, i) == Turns(old(trace), i)
      {
        t := t + 1;
        var s: Step := *;
        if !OfThread(s) || s.i != i {
          OthersLeaveThread(world, s, i);
          Do(s);
        }
      }
    }

    /** The service thread of instance i sends a number, which is the one the machine sends
        there, as soon as there is room; for so many turns of the others there may be none. */
    method Send(i: nat, n: int, turns: nat) returns (sent: bool)
      requires Valid() && i < |world.instances|
      requires match world.instances[i].thread
        case Answering(_) => n == world.instances[i].beats
        case Leaving(_) => n == 99
        case _ => false
      modifies this
      ensures Valid() && old(trace) <= trace && i < |world.instances| && Turns(trace, i) == Turns(old(trace), i)
      ensures world.instances[i].beats == old(world.instances[i].beats)
      ensures !sent ==> world.instances[i].thread == old(world.instances[i].thread)
      ensures sent ==>
        world.instances[i].thread == if old(world.instances[i].thread).Leaving? then Returned else Selecting
    {
      for t := 0 to turns
        invariant Valid() && old(trace) <= trace && ThreadLeft(old(world), world, i)
        invariant Turns(trace, i) == Turns(old(trace), i)
      {
        AllBut(i);
        if |world.instances[i].replies| < CAPACITY {
          Do(if world.instances[i].thread.Leaving? then SendGoodbye(i) else SendBeats(i));
          return true;
        }
      }
      sent := false;
    }
  }

  /** How often instance i's select has ended, by a beat or by an order. */
  ghost function Turns(trace: seq<Step>, i: nat): nat {
    if trace == [] then 0
    else Turns(trace[..|trace| - 1], i) + if trace[|trace| - 1] in {Beat(i), SelectOrder(i)} then 1 else 0
  }

  lemma OneStepMore(trace: seq<Step>, s: Step)
    ensures Run(START, trace + [s]) == Next(Run(START, trace), s)
  {
    assert (trace + [s])[..|trace|] == trace;
  }

  /** What the asking side sees of its own is as it left it. */
  ghost predicate MainLeft(w: World, v: World) {
    && v.record == w.record && v.main == w.main && |v.instances| == |w.instances|
    && (w.instances != [] ==> Last(v).log == Last(w).log && Last(v).stopSent == Last(w).stopSent)
    && (w.instances != [] && Last(w).replies != [] ==>
          Last(v).replies != [] && Last(v).replies[0] == Last(w).replies[0])
  }

  lemma ThreadsLeaveMain(w: World, s: Step)
    requires OfThread(s)
    ensures MainLeft(w, Next(w, s))
  {}

  ghost predicate ThreadLeft(w: World, v: World, i: nat)
    requires i < |w.instances|
  {
    && i < |v.instances| && v.instances[i].thread == w.instances[i].thread
    && v.instances[i].beats == w.instances[i].beats
  }

  lemma OthersLeaveThread(w: World, s: Step, i: nat)
    requires i < |w.instances| && (!OfThread(s) || s.i != i)
    ensures ThreadLeft(w, Next(w, s), i)
  {}

  // ---------- the service thread ----------

  /** The heartbeat loop, for so many turns of its select. Whatever the others do in
      between, the numbers it sends are the machine's, and it counts one beat for every
      turn in which it heard no order. It ends with the goodbye, or still
      waits to send, or has used up its turns. */
  method HeartbeatService(sh: Shared, i: nat, turns: nat)
      returns (taken: nat, done: bool, waiting: bool, ghost heard: nat)
    requires sh.Valid() && i < |sh.world.instances|
    requires sh.world.instances[i].thread == Selecting && sh.world.instances[i].beats == 0
    modifies sh
    ensures sh.Valid() && old(sh.trace) <= sh.trace && i < |sh.world.instances|
    ensures taken <= turns && Turns(sh.trace, i) == Turns(old(sh.trace), i) + taken
    ensures heard <= taken && sh.world.instances[i].beats == BeatsTaken(sh.trace, i) == taken - heard
    ensures done ==> sh.world.instances[i].thread == Returned
    ensures waiting ==> Busy(sh.world.instances[i].thread) == 1
    ensures !done && !waiting ==> taken == turns && sh.world.instances[i].thread == Selecting
  {
    var beats, stop := 0, false;
    taken, done, waiting, heard := 0, false, false, 0;
    while !stop && taken < turns
      invariant sh.Valid() && old(sh.trace) <= sh.trace && i < |sh.world.instances|
      invariant beats == sh.world.instances[i].beats == taken - heard
      invariant taken <= turns && Turns(sh.trace, i) == Turns(old(sh.trace), i) + taken
      invariant if stop then sh.world.instances[i].thread.Leaving? else sh.world.instances[i].thread == Selecting
      decreases turns - taken
    {
      taken := taken + 1;
      sh.AllBut(i);
      var ready: bool := *;
      if ready && sh.world.instances[i].orders != [] {
        var order := TakeOrder(sh, i);
        heard := heard + 1;
        if order == 1 { stop := true; }
        if order == 2 {
          var sent := sh.Send(i, beats, turns);
          if !sent {
            waiting := true;
            BeatsCount(sh.trace, i);
            return;
          }
        }
      } else {
        sh.Do(Beat(i));
        beats := beats + 1;
      }
    }
    if stop {
      done := sh.Send(i, 99, turns);
      waiting := !done;
    }
    BeatsCount(sh.trace, i);
  }

  /** The select reported an order, which is then received. */
  method TakeOrder(sh: Shared, i: nat) returns (order: int)
    requires sh.Valid() && i < |sh.world.instances|
    requires sh.world.instances[i].thread == Selecting && sh.world.instances[i].orders != []
    modifies sh
    ensures sh.Valid() && old(sh.trace) <= sh.trace && i < |sh.world.instances|
    ensures Turns(sh.trace, i) == Turns(old(sh.trace), i) + 1
    ensures sh.world.instances[i].beats == old(sh.world.instances[i].beats)
    ensures order in {1, 2}
    ensures order == 1 ==> sh.world.instances[i].thread.Leaving?
    ensures order == 2 ==> sh.world.instances[i].thread.Answering?
  {
    sh.Do(SelectOrder(i));
    sh.AllBut(i);
    SelectedIsThere(sh.trace, i);
    order := OrderNumber(sh.world.instances[i].orders[0]);
    sh.Do(ReceiveOrder(i));
  }

  // ---------- the asking side ----------

  datatype Listed = Listed(name: string, running: bool)

  const HEARTBEAT := "heartbeat"
  const ORDERS := "heartbeat orders"
  const ANSWERS := "heartbeat answers"

  /** The numbers of the two channels of instance i; 0 is no channel. */
  function OrdersOf(i: nat): int { 2 * i + 1 }

  function AnswersOf(i: nat): int { 2 * i + 2 }

  class Kernel {
    var services: seq<Listed>
    const board: Messages.Board
    const shared: Shared

    constructor ()
      ensures Valid() && shared.world == START && fresh(board) && fresh(shared)
    {
      services := [];
      board := new Messages.Board();
      shared := new Shared();
    }

    /** The table says what the machine's record says, and the board's two names lead to
        the channels of the last instance started. */
    ghost predicate Valid()
      reads this, board, shared
    {
      && board.Valid() && shared.Valid() && shared.world.main == Idle
      && services == Table(shared.world.record)
      && Messages.Meaning(board.entries) == Posted(|shared.world.instances|)
      && (shared.world.instances == [] <==> shared.world.record == Absent)
    }

    method Find(name: string) returns (spot: int)
      ensures -1 <= spot < |services|
      ensures spot >= 0 ==> services[spot].name == name
      ensures spot < 0 ==> forall k :: 0 <= k < |services| ==> services[k].name != name
    {
      var i := 0;
      while i < |services|
        invariant 0 <= i <= |services| && forall k :: 0 <= k < i ==> services[k].name != name
      {
        if services[i].name == name { return i; }
        i := i + 1;
      }
      return -1;
    }

    /** 1 or 0, and -1 for a service that is not in the table. */
    method IsRunning(name: string) returns (r: int)
      requires Valid()
      ensures r == 1 <==> name == HEARTBEAT && shared.world.record == Running
      ensures r == -1 <==> name != HEARTBEAT || shared.world.record == Absent
    {
      var spot := Find(name);
      assert services == [] || services[0].name == HEARTBEAT;
      if spot < 0 { return -1; }
      return if services[spot].running then 1 else 0;
    }

    /** 1 started, 6 running already, 4 unknown. */
    method Start(name: string) returns (answer: int)
      requires Valid()
      modifies this, board, shared
      ensures Valid() && old(shared.trace) <= shared.trace
      ensures name != HEARTBEAT ==> answer == 4 && shared.world == old(shared.world)
      ensures name == HEARTBEAT && old(shared.world.record) == Running ==>
        answer == 6 && shared.world == old(shared.world)
      ensures name == HEARTBEAT && old(shared.world.record) != Running ==>
        answer == 1 && shared.world == Next(old(shared.world), StartService)
    {
      hide Next, Run, Messages.Meaning;
      var spot := Find(name);
      if spot >= 0 && services[spot].running { return 6; }
      if name != HEARTBEAT { return 4; }
      assert services == [] || services[0].name == HEARTBEAT;
      StartStep(shared.world);
      shared.Do(StartService);
      var n := |shared.world.instances| - 1;
      board.Register(ORDERS, OrdersOf(n));
      board.Register(ANSWERS, AnswersOf(n));
      PostedAgain(n);
      assert services == [] || services[0].name == HEARTBEAT;
      if spot >= 0 {
        services := services[spot := services[spot].(running := true)];
      } else {
        services := services + [Listed(name, true)];
      }
      assert services == [Listed(HEARTBEAT, true)];
      return 1;
    }

    /** Is something posted under this name? */
    ghost predicate OnBoard(name: string)
      reads this, board, shared
    {
      name in Posted(|shared.world.instances|)
    }

    /** Send a number to one named channel and wait for a reply on another; -1 at once when
        either name is not on the board. The reply is what the machine logs for the request;
        a send that finds no room has not returned. */
    method BoardAsk(askName: string, replyName: string, message: int) returns (answer: int, blocked: bool)
      requires Valid() && message in {1, 2}
      requires OnBoard(askName) && OnBoard(replyName) ==>
        askName == ORDERS && replyName == ANSWERS && shared.world.record == Running
      modifies shared
      ensures shared.Valid() && old(shared.trace) <= shared.trace && shared.world.main == Idle
      ensures |shared.world.instances| == old(|shared.world.instances|)
      ensures !old(OnBoard(askName) && OnBoard(replyName)) ==>
        answer == -1 && !blocked && shared.world == old(shared.world)
      ensures blocked ==>
        && MainLeft(old(shared.world), shared.world) && shared.world.instances != []
        && |Last(shared.world).orders| >= CAPACITY
      ensures old(OnBoard(askName) && OnBoard(replyName)) && !blocked ==>
        Answered(old(shared.world), shared.world, message, answer)
    {
      var askChannel := board.ChannelOf(askName);
      var replyChannel := board.ChannelOf(replyName);
      if askChannel == 0 || replyChannel == 0 { return -1, false; }
      shared.Threads();
      if |Last(shared.world).orders| >= CAPACITY { return -1, true; }
      blocked := false;
      shared.Do(if message == 1 then SendStop else SendAsk);
      answer := AwaitReply();
    }

    /** The two-second select, and the receive when it reports a reply. */
    method AwaitReply() returns (answer: int)
      requires shared.Valid() && shared.world.main.Waiting? && shared.world.instances != []
      modifies shared
      ensures shared.Valid() && old(shared.trace) <= shared.trace
      ensures Finished(old(shared.world), shared.world, answer)
    {
      shared.Threads();
      var inTime: bool := *;
      if inTime && Last(shared.world).replies != [] {
        shared.Do(SelectReply);
        shared.Threads();
        answer := ReplyNumber(Last(shared.world).replies[0]);
        shared.Do(ReceiveReply);
      } else {
        shared.Do(TimeOut);
        answer := -1;
      }
    }

    /** The beat count as it was when the reply was sent, or -1 when the service is not
        running or did not answer in time. It is never the goodbye. */
    method Ask(name: string) returns (answer: int, blocked: bool)
      requires Valid()
      modifies shared
      ensures !blocked ==> Valid() && old(shared.trace) <= shared.trace
      ensures blocked ==> shared.world.instances != [] && |Last(shared.world).orders| >= CAPACITY
      ensures name != HEARTBEAT || old(shared.world.record) != Running ==>
        answer == -1 && !blocked && shared.world == old(shared.world)
      ensures name == HEARTBEAT && old(shared.world.record) == Running && !blocked ==>
        && Answered(old(shared.world), shared.world, 2, answer)
        && var log := Last(shared.world).log;
           !(log[|log| - 1].Got? && log[|log| - 1].reply.Goodbye?)
      ensures name == HEARTBEAT && old(shared.world.record) == Running && !blocked && answer != -1 ==>
        WasCounted(shared.trace, |shared.world.instances| - 1, answer)
    {
      hide Run, WasCounted, InstanceOk, Next, Posted, Table;
      var running := IsRunning(name);
      if running != 1 { return -1, false; }
      InvHolds(shared.trace);
      NamesPosted(|shared.world.instances|);
      answer, blocked := BoardAsk(name + " orders", name + " answers", 2);
      if !blocked {
        ghost var n := |shared.world.instances| - 1;
        AnsweredAsk(shared.trace, n, |Last(shared.world).log| - 1);
      }
    }

    /** 1 stopped, 4 no such service, 6 not running. */
    method Stop(name: string) returns (answer: int, blocked: bool)
      requires Valid()
      modifies this, shared
      ensures !blocked ==> Valid() && old(shared.trace) <= shared.trace
      ensures blocked ==> shared.world.instances != [] && |Last(shared.world).orders| >= CAPACITY
      ensures name != HEARTBEAT || old(shared.world.record) == Absent ==>
        answer == 4 && !blocked && shared.world == old(shared.world)
      ensures name == HEARTBEAT && old(shared.world.record) == Stopped ==>
        answer == 6 && !blocked && shared.world == old(shared.world)
      ensures name == HEARTBEAT && old(shared.world.record) == Running && !blocked ==>
        answer == 1 && shared.world.record == Stopped && Last(shared.world).stopSent
    {
      var spot := Find(name);
      assert services == [] || services[0].name == HEARTBEAT;
      if spot < 0 { return 4, false; }
      if !services[spot].running { return 6, false; }
      NamesPosted(|shared.world.instances|);
      var goodbye;
      goodbye, blocked := BoardAsk(name + " orders", name + " answers", 1);
      if blocked { return 0, true; }
      services := services[spot := services[spot].(running := false)];
      return 1, false;
    }
  }

  function Table(r: Record): seq<Listed> { if r == Absent then [] else [Listed(HEARTBEAT, r == Running)] }

  lemma StartStep(w: World)
    requires w.main == Idle && w.record != Running
    ensures var v := Next(w, StartService);
      v.record == Running && v.main == Idle && |v.instances| == |w.instances| + 1
  {}

  /** The board after so many starts. */
  function Posted(n: nat): map<string, int> {
    if n == 0 then map[] else map[ORDERS := OrdersOf(n - 1), ANSWERS := AnswersOf(n - 1)]
  }

  /** The heartbeat's two names, as they are made of its own, are on the board from the
      first start on. */
  lemma NamesPosted(n: nat)
    ensures HEARTBEAT + " orders" == ORDERS && HEARTBEAT + " answers" == ANSWERS
    ensures n > 0 ==> ORDERS in Posted(n) && ANSWERS in Posted(n)
  {}

  lemma PostedAgain(n: nat)
    ensures Posted(n)[ORDERS := OrdersOf(n)][ANSWERS := AnswersOf(n)] == Posted(n + 1)
  {}

  /** The request in flight was logged with what came of it, and the answer is that. */
  ghost predicate Finished(w: World, v: World, answer: int)
    requires w.main != Idle
  {
    && w.instances != [] && |v.instances| == |w.instances| && v.main == Idle
    && |Last(v).log| == |Last(w).log| + 1 && Last(v).log[..|Last(w).log|] == Last(w).log
    && answer == AskResult(Last(v).log[|Last(w).log|])
    && v.record == (if w.main.order.Stop? then Stopped else w.record)
    && Last(v).stopSent == Last(w).stopSent
  }

  /** The request was sent, logged with what came of it, and the answer is that. */
  ghost predicate Answered(w: World, v: World, message: int, answer: int) {
    && w.instances != [] && |v.instances| == |w.instances| && v.main == Idle
    && |Last(v).log| == |Last(w).log| + 1 && Last(v).log[..|Last(w).log|] == Last(w).log
    && answer == AskResult(Last(v).log[|Last(w).log|])
    && v.record == (if message == 1 then Stopped else w.record)
    && Last(v).stopSent == (message == 1 || Last(w).stopSent)
  }

  lemma AnsweredAsk(trace: seq<Step>, i: nat, k: nat)
    requires i < |Run(START, trace).instances| && k < |Run(START, trace).instances[i].log|
    requires !Run(START, trace).instances[i].stopSent
    ensures var o := Run(START, trace).instances[i].log[k];
      !(o.Got? && o.reply.Goodbye?) && (AskResult(o) != -1 ==> WasCounted(trace, i, AskResult(o)))
  {
    OnlyStopHears(trace, i, k);
    if Run(START, trace).instances[i].log[k].Got? { GivenWasCounted(trace, i, k); }
  }

  lemma OnlyStopHears(trace: seq<Step>, i: nat, k: nat)
    requires i < |Run(START, trace).instances| && k < |Run(START, trace).instances[i].log|
    requires !Run(START, trace).instances[i].stopSent
    ensures var o := Run(START, trace).instances[i].log[k]; !(o.Got? && o.reply.Goodbye?)
  {
    if Run(START, trace).instances[i].log[k].Got? { OnlyStopHearsGoodbye(trace, i, k); }
  }
}
