/** The taxi dispatcher of module3/cross2/cross2.c: a control process and one
    process per driver, joined by two FIFOs each, as a transition system. */
module Taxi {
  import opened Decimal

  const MAX_DRIVERS := 64

  // ----- State -----

  /** What the control process waits for from a driver. */
  datatype Pending = None | Task | Status

  /** Where a driver process stands: at the top of its loop, in select, between
      reading a line and writing the reply, or gone. */
  datatype Phase = Top | Waiting | Holding(cmd: string) | Stopped

  /** An accepted task: when it was accepted, and until when it lasts. */
  datatype Interval = Interval(start: int, deadline: int)

  /** A driver: the entry of drivers[], its two FIFOs, the state of its process;
      and, for the statements below only, the tasks it accepted and how many
      times the console was told "task sent" for it. */
  datatype Driver = Driver(
    pid: int, pending: Pending,
    inFifo: seq<string>, outFifo: seq<string>,
    phase: Phase, busyUntil: int,
    accepted: seq<Interval>, told: nat)

  /** stopsSent counts the drivers STOP was sent to, once the control process is
      stopping. */
  datatype World = World(drivers: seq<Driver>, now: int, stopping: bool, stopsSent: nat, printed: seq<string>)

  // ----- The driver process -----

  datatype Answer = Answer(reply: string, busyUntil: int, accepts: bool)

  function BusyLine(left: int): string {
    "Busy " + Itoa(left)
  }

  function TaskLine(timer: int): string {
    "TASK " + Itoa(timer)
  }

  /** What driver_main does with a line that is not STOP. */
  function AnswerTo(cmd: string, busyUntil: int, now: int): Answer {
    if "TASK " <= cmd then
      if busyUntil != 0 && busyUntil > now then Answer(BusyLine(busyUntil - now), busyUntil, false)
      else Answer("OK", now + Atoi(cmd[5..]), true)
    else if cmd == "STATUS" then
      if busyUntil != 0 && busyUntil > now then Answer(BusyLine(busyUntil - now), busyUntil, false)
      else Answer("Available", busyUntil, false)
    else Answer("Unknown command", busyUntil, false)
  }

  /** The top of the loop: a deadline that has passed is forgotten. */
  function AtTop(d: Driver, now: int): Driver {
    d.(phase := Waiting, busyUntil := if d.busyUntil != 0 && d.busyUntil - now <= 0 then 0 else d.busyUntil)
  }

  function AtTimeout(d: Driver): Driver {
    d.(phase := Top, busyUntil := 0)
  }

  function AtReceive(d: Driver): Driver
    requires d.inFifo != []
  {
    d.(inFifo := d.inFifo[1..], phase := if d.inFifo[0] == "STOP" then Stopped else Holding(d.inFifo[0]))
  }

  function AtAnswer(d: Driver, now: int): Driver
    requires d.phase.Holding?
  {
    var a := AnswerTo(d.phase.cmd, d.busyUntil, now);
    d.(phase := Top, busyUntil := a.busyUntil, outFifo := d.outFifo + [a.reply],
       accepted := if a.accepts then d.accepted + [Interval(now, a.busyUntil)] else d.accepted)
  }

  // ----- The control process -----

  /** find_driver */
  function IndexOfPid(drivers: seq<Driver>, pid: int): (i: int)
    ensures -1 <= i < |drivers|
    ensures i == -1 ==> forall k :: 0 <= k < |drivers| ==> drivers[k].pid != pid
    ensures i >= 0 ==> drivers[i].pid == pid && forall k :: 0 <= k < i ==> drivers[k].pid != pid
  {
    if drivers == [] then -1
    else if drivers[0].pid == pid then 0
    else
      var i := IndexOfPid(drivers[1..], pid);
      if i < 0 then -1 else i + 1
  }

  function Send(d: Driver, line: string, kind: Pending): Driver {
    d.(inFifo := d.inFifo + [line], pending := kind)
  }

  /** send_task and get_status share their checks. */
  function Request(w: World, pid: int, line: string, kind: Pending): World {
    var i := IndexOfPid(w.drivers, pid);
    if i < 0 then w.(printed := w.printed + ["no such driver"])
    else if w.drivers[i].pending != None then
      w.(printed := w.printed + ["driver " + Itoa(pid) + " is still processing a previous request"])
    else w.(drivers := w.drivers[i := Send(w.drivers[i], line, kind)])
  }

  function AskIfIdle(d: Driver): Driver {
    if d.pending != None then d else Send(d, "STATUS", Status)
  }

  /** The line handle_driver_reply prints for the reply at the head of the FIFO. */
  function ReplyLine(d: Driver): string
    requires d.outFifo != []
  {
    var reply := d.outFifo[0];
    match d.pending
    case Task => if "Busy" <= reply then reply else "task sent"
    case Status => Itoa(d.pid) + ": " + reply
    case None => Itoa(d.pid) + ": unexpected reply: " + reply
  }

  function AfterReply(d: Driver): Driver
    requires d.outFifo != []
  {
    d.(outFifo := d.outFifo[1..], pending := None,
       told := if d.pending == Task && !("Busy" <= d.outFifo[0]) then d.told + 1 else d.told)
  }

  function SendStopTo(d: Driver): Driver {
    d.(inFifo := d.inFifo + ["STOP"])
  }

  function NewDriver(pid: int): Driver {
    Driver(pid, None, [], [], Top, 0, [], 0)
  }

  function Each(drivers: seq<Driver>, f: Driver -> Driver): seq<Driver> {
    seq(|drivers|, i requires 0 <= i < |drivers| => f(drivers[i]))
  }

  // ----- Transitions -----

  datatype Event =
    | CreateDriver(pid: int) | SendTask(pid: int, timer: int) | GetStatus(pid: int) | GetDrivers
    | HandleReply(i: nat) | Shutdown | SendStop
    | LoopTop(i: nat) | Timeout(i: nat) | Receive(i: nat) | GiveAnswer(i: nat)
    | Tick

  /** The events of the driver processes. */
  predicate IsDriverEvent(e: Event) {
    e.LoopTop? || e.Timeout? || e.Receive? || e.GiveAnswer?
  }

  /** When an event can happen. fork returns a pid no driver has; select reports
      only FIFOs with a line in them and does not time out early; reads and
      writes of a line are whole. */
  predicate Enabled(w: World, e: Event) {
    match e
    case CreateDriver(pid) => !w.stopping && forall k :: 0 <= k < |w.drivers| ==> w.drivers[k].pid != pid
    case SendTask(_, _) => !w.stopping
    case GetStatus(_) => !w.stopping
    case GetDrivers => !w.stopping
    case HandleReply(i) => !w.stopping && i < |w.drivers| && w.drivers[i].outFifo != []
    case Shutdown => !w.stopping
    case SendStop => w.stopping && w.stopsSent < |w.drivers|
    case LoopTop(i) => i < |w.drivers| && w.drivers[i].phase == Top
    case Timeout(i) =>
      i < |w.drivers| && w.drivers[i].phase == Waiting && w.drivers[i].busyUntil != 0 && w.now >= w.drivers[i].busyUntil
    case Receive(i) => i < |w.drivers| && w.drivers[i].phase == Waiting && w.drivers[i].inFifo != []
    case GiveAnswer(i) => i < |w.drivers| && w.drivers[i].phase.Holding?
    case Tick => true
  }

  function Apply(w: World, e: Event): World
    requires Enabled(w, e)
  {
    match e
    case CreateDriver(pid) =>
      if |w.drivers| >= MAX_DRIVERS then w.(printed := w.printed + ["driver limit reached"])
      else w.(drivers := w.drivers + [NewDriver(pid)], printed := w.printed + ["driver created, pid=" + Itoa(pid)])
    case SendTask(pid, timer) => Request(w, pid, TaskLine(timer), Task)
    case GetStatus(pid) => Request(w, pid, "STATUS", Status)
    case GetDrivers => w.(drivers := Each(w.drivers, AskIfIdle))
    case HandleReply(i) =>
      w.(drivers := w.drivers[i := AfterReply(w.drivers[i])], printed := w.printed + [ReplyLine(w.drivers[i])])
    case Shutdown => w.(stopping := true)
    case SendStop =>
      w.(drivers := w.drivers[w.stopsSent := SendStopTo(w.drivers[w.stopsSent])], stopsSent := w.stopsSent + 1)
    case LoopTop(i) => w.(drivers := w.drivers[i := AtTop(w.drivers[i], w.now)])
    case Timeout(i) => w.(drivers := w.drivers[i := AtTimeout(w.drivers[i])])
    case Receive(i) => w.(drivers := w.drivers[i := AtReceive(w.drivers[i])])
    case GiveAnswer(i) => w.(drivers := w.drivers[i := AtAnswer(w.drivers[i], w.now)])
    case Tick => w.(now := w.now + 1)
  }

  ghost predicate LegalRun(w: World, events: seq<Event>)
    decreases |events|
  {
    events != [] ==> Enabled(w, events[0]) && LegalRun(Apply(w, events[0]), events[1..])
  }

  function Run(w: World, events: seq<Event>): World
    requires LegalRun(w, events)
    decreases |events|
  {
    if events == [] then w else Run(Apply(w, events[0]), events[1..])
  }

  /** The control process at start-up, at any time. */
  function Start(now: nat): World {
    World([], now, false, 0, [])
  }

  // ----- Invariants -----

  /** The deadline of the last accepted task; 0 before the first. */
  function Deadline(d: Driver): int {
    if d.accepted == [] then 0 else d.accepted[|d.accepted| - 1].deadline
  }

  /** busy_until is the deadline of the last accepted task, or was reset to 0 in
      one of two places after it had passed. Accepted tasks do not overlap. */
  ghost predicate Timely(d: Driver, now: int) {
    && (d.busyUntil == Deadline(d) || (d.busyUntil == 0 && Deadline(d) <= now))
    && (forall k :: 0 <= k < |d.accepted| ==> d.accepted[k].start <= now)
    && (forall k :: 0 < k < |d.accepted| ==>
          d.accepted[k - 1].deadline <= d.accepted[k].start && d.accepted[k - 1].start <= d.accepted[k].start)
  }

  predicate IsRequest(kind: Pending, line: string) {
    match kind
    case None => false
    case Task => "TASK " <= line && line == TaskLine(Atoi(line[5..]))
    case Status => line == "STATUS"
  }

  predicate IsReply(kind: Pending, line: string) {
    match kind
    case None => false
    case Task => line == "OK" || "Busy " <= line
    case Status => line == "Available" || "Busy " <= line
  }

  /** Commands queued, in processing, and replies queued. */
  function InFlight(d: Driver): nat {
    |d.inFifo| + (if d.phase.Holding? then 1 else 0) + |d.outFifo|
  }

  /** Before STOP is sent: exactly one item is in flight if a request is pending and
      none otherwise, it is of the pending kind, and the console has been told
      "task sent" once for every accepted task whose OK is not still queued. */
  ghost predicate Flowing(d: Driver) {
    && d.phase != Stopped
    && InFlight(d) == (if d.pending == None then 0 else 1)
    && (forall k :: 0 <= k < |d.inFifo| ==> IsRequest(d.pending, d.inFifo[k]))
    && (d.phase.Holding? ==> IsRequest(d.pending, d.phase.cmd))
    && (forall k :: 0 <= k < |d.outFifo| ==> IsReply(d.pending, d.outFifo[k]))
    && d.told + (if d.pending == Task && d.outFifo == ["OK"] then 1 else 0) == |d.accepted|
  }

  /** Afterwards: STOP is the last line queued, behind at most one request. */
  ghost predicate Draining(d: Driver) {
    d.phase == Stopped ||
    (d.inFifo != [] && d.inFifo[|d.inFifo| - 1] == "STOP" && |d.inFifo| + (if d.phase.Holding? then 1 else 0) <= 2)
  }

  ghost predicate DriverInv(d: Driver, now: int, toldToStop: bool) {
    Timely(d, now) && if toldToStop then Draining(d) else Flowing(d)
  }

  ghost predicate Inv(w: World) {
    && 0 <= w.now && |w.drivers| <= MAX_DRIVERS && w.stopsSent <= |w.drivers| && (w.stopsSent > 0 ==> w.stopping)
    && (forall i, j :: 0 <= i < j < |w.drivers| ==> w.drivers[i].pid != w.drivers[j].pid)
    && (forall i :: 0 <= i < |w.drivers| ==> DriverInv(w.drivers[i], w.now, i < w.stopsSent))
  }

  // ----- What the lines say -----

  /** The line is a word, a space and a number as a decimal numeral. */
  ghost predicate Carries(line: string, word: string, n: int) {
    && word + " " <= line && |line| > |word| + 1
    && IsNumeral(line[|word| + 1..]) && Atoi(line[|word| + 1..]) == n
  }

  lemma BusyLineCarries(left: int)
    ensures Carries(BusyLine(left), "Busy", left)
  {
    ItoaIsNumeral(left);
    assert BusyLine(left)[5..] == Itoa(left);
  }

  lemma TaskLineCarries(timer: int)
    ensures Carries(TaskLine(timer), "TASK", timer) && "TASK " <= TaskLine(timer)
  {
    ItoaIsNumeral(timer);
    assert TaskLine(timer)[5..] == Itoa(timer);
  }

  // ----- What the driver answers -----

  /** A TASK is accepted exactly when now is at or past the deadline of the last
      accepted task; otherwise the driver tells exactly the time left. */
  lemma {:induction false} AcceptsWhenFree(d: Driver, cmd: string, now: nat)
    requires Timely(d, now) && "TASK " <= cmd
    ensures AnswerTo(cmd, d.busyUntil, now) ==
      if now >= Deadline(d) then Answer("OK", now + Atoi(cmd[5..]), true)
      else Answer(BusyLine(Deadline(d) - now), d.busyUntil, false)
  {
  }

  /** STATUS answers the exact time left, or Available if there is none. */
  lemma {:induction false} TellsTimeLeft(d: Driver, now: nat)
    requires Timely(d, now)
    ensures AnswerTo("STATUS", d.busyUntil, now) ==
      Answer(if now < Deadline(d) then BusyLine(Deadline(d) - now) else "Available", d.busyUntil, false)
  {
    StatusIsNoTask();
  }

  lemma StatusIsNoTask()
    ensures !("TASK " <= "STATUS")
  {
    assert "STATUS"[0] != "TASK "[0];
  }

  // ----- Every event keeps the invariant -----

  lemma {:induction false} SendKeeps(d: Driver, line: string, kind: Pending, now: int)
    requires DriverInv(d, now, false) && d.pending == None && IsRequest(kind, line)
    ensures DriverInv(Send(d, line, kind), now, false)
  {
  }

  lemma {:induction false} ReplyKeeps(d: Driver, now: int)
    requires DriverInv(d, now, false) && d.outFifo != []
    ensures d.pending != None
    ensures DriverInv(AfterReply(d), now, false)
    ensures AfterReply(d).told == |d.accepted|
  {
    assert |d.outFifo| == 1 && d.outFifo == [d.outFifo[0]];
    if d.outFifo[0] == "OK" {
      assert "OK"[0] != "Busy"[0];
    } else if "Busy " <= d.outFifo[0] {
      assert "Busy" == "Busy "[..4];
      assert "OK"[0] != "Busy "[0];
    }
  }

  lemma {:induction false} ReceiveKeeps(d: Driver, now: int, toldToStop: bool)
    requires DriverInv(d, now, toldToStop) && d.phase == Waiting && d.inFifo != []
    ensures DriverInv(AtReceive(d), now, toldToStop)
  {
    if !toldToStop {
      assert IsRequest(d.pending, d.inFifo[0]);
      if d.pending == Task {
        assert "STOP"[0] != "TASK "[0];
      } else {
        assert "STOP"[2] != "STATUS"[2];
      }
    }
  }

  lemma BusyIsReply(left: int)
    ensures "Busy " <= BusyLine(left) && BusyLine(left) != "OK"
  {
    assert "OK"[0] != "Busy "[0];
  }

  lemma {:induction false} AnswerKeepsTime(d: Driver, now: nat)
    requires Timely(d, now) && d.phase.Holding?
    ensures Timely(AtAnswer(d, now), now)
  {
    AcceptsOnlyWhenFree(d.phase.cmd, d.busyUntil, now);
    var a := AnswerTo(d.phase.cmd, d.busyUntil, now);
    if a.accepts { AcceptKeepsTime(d, now, a.busyUntil); }
  }

  lemma AcceptsOnlyWhenFree(cmd: string, busyUntil: int, now: nat)
    ensures var a := AnswerTo(cmd, busyUntil, now);
      if a.accepts then busyUntil == 0 || busyUntil <= now else a.busyUntil == busyUntil
  {
  }

  lemma AcceptKeepsTime(d: Driver, now: nat, deadline: int)
    requires Timely(d, now) && (d.busyUntil == 0 || d.busyUntil <= now)
    ensures Timely(d.(busyUntil := deadline, accepted := d.accepted + [Interval(now, deadline)]), now)
  {
  }

  lemma {:induction false} AnswerKeeps(d: Driver, now: nat, toldToStop: bool)
    requires DriverInv(d, now, toldToStop) && d.phase.Holding?
    ensures DriverInv(AtAnswer(d, now), now, toldToStop)
  {
    AnswerKeepsTime(d, now);
    if !toldToStop {
      var cmd := d.phase.cmd;
      BusyIsReply(Deadline(d) - now);
      assert AtAnswer(d, now).outFifo == [AnswerTo(cmd, d.busyUntil, now).reply];
      if d.pending == Task {
        AcceptsWhenFree(d, cmd, now);
      } else {
        TellsTimeLeft(d, now);
      }
    }
  }

  lemma {:induction false} LoopKeeps(d: Driver, now: nat, toldToStop: bool)
    requires DriverInv(d, now, toldToStop)
    ensures d.phase == Top ==> DriverInv(AtTop(d, now), now, toldToStop)
    ensures d.phase == Waiting && now >= d.busyUntil ==> DriverInv(AtTimeout(d), now, toldToStop)
  {
  }

  lemma {:induction false} TickKeeps(d: Driver, now: nat, toldToStop: bool)
    requires DriverInv(d, now, toldToStop)
    ensures DriverInv(d, now + 1, toldToStop)
  {
  }

  lemma {:induction false} StopKeeps(d: Driver, now: nat)
    requires DriverInv(d, now, false)
    ensures DriverInv(SendStopTo(d), now, true)
  {
  }

  lemma {:induction false} OneDriverKeeps(w: World, i: nat, d: Driver)
    requires Inv(w) && i < |w.drivers| && d.pid == w.drivers[i].pid && DriverInv(d, w.now, i < w.stopsSent)
    ensures Inv(w.(drivers := w.drivers[i := d]))
  {
  }

  lemma {:induction false} RequestKeeps(w: World, pid: int, line: string, kind: Pending)
    requires Inv(w) && !w.stopping && IsRequest(kind, line)
    ensures Inv(Request(w, pid, line, kind))
  {
    var i := IndexOfPid(w.drivers, pid);
    if i >= 0 && w.drivers[i].pending == None {
      SendKeeps(w.drivers[i], line, kind, w.now);
      OneDriverKeeps(w, i, Send(w.drivers[i], line, kind));
    }
  }

  lemma {:induction false} DriverEventKeepsInv(w: World, e: Event)
    requires Inv(w) && Enabled(w, e) && IsDriverEvent(e)
    ensures Inv(Apply(w, e))
  {
    match e
    case LoopTop(i) =>
      LoopKeeps(w.drivers[i], w.now, i < w.stopsSent);
      OneDriverKeeps(w, i, AtTop(w.drivers[i], w.now));
    case Timeout(i) =>
      LoopKeeps(w.drivers[i], w.now, i < w.stopsSent);
      OneDriverKeeps(w, i, AtTimeout(w.drivers[i]));
    case Receive(i) =>
      ReceiveKeeps(w.drivers[i], w.now, i < w.stopsSent);
      OneDriverKeeps(w, i, AtReceive(w.drivers[i]));
    case GiveAnswer(i) =>
      AnswerKeeps(w.drivers[i], w.now, i < w.stopsSent);
      OneDriverKeeps(w, i, AtAnswer(w.drivers[i], w.now));
  }

  lemma {:induction false} AskAllKeepsInv(w: World)
    requires Inv(w) && !w.stopping
    ensures Inv(w.(drivers := Each(w.drivers, AskIfIdle)))
  {
    forall i | 0 <= i < |w.drivers| ensures DriverInv(AskIfIdle(w.drivers[i]), w.now, false) {
      if w.drivers[i].pending == None { SendKeeps(w.drivers[i], "STATUS", Status, w.now); }
    }
  }

  lemma {:induction false} SendStopKeepsInv(w: World)
    requires Inv(w) && Enabled(w, SendStop)
    ensures Inv(Apply(w, SendStop))
  {
    StopKeeps(w.drivers[w.stopsSent], w.now);
  }

  lemma {:induction false} TickKeepsInv(w: World)
    requires Inv(w)
    ensures Inv(w.(now := w.now + 1))
  {
    forall i | 0 <= i < |w.drivers| ensures DriverInv(w.drivers[i], w.now + 1, i < w.stopsSent) {
      TickKeeps(w.drivers[i], w.now, i < w.stopsSent);
    }
  }

  lemma {:induction false} EventKeepsInv(w: World, e: Event)
    requires Inv(w) && Enabled(w, e)
    ensures Inv(Apply(w, e))
  {
    match e
    case CreateDriver(pid) =>
    case SendTask(pid, timer) =>
      assert TaskLine(timer)[5..] == Itoa(timer);
      AtoiOfItoa(timer);
      RequestKeeps(w, pid, TaskLine(timer), Task);
    case GetStatus(pid) =>
      RequestKeeps(w, pid, "STATUS", Status);
    case GetDrivers =>
      AskAllKeepsInv(w);
    case HandleReply(i) =>
      ReplyKeeps(w.drivers[i], w.now);
      OneDriverKeeps(w, i, AfterReply(w.drivers[i]));
    case Shutdown =>
    case SendStop =>
      SendStopKeepsInv(w);
    case Tick =>
      TickKeepsInv(w);
    case _ =>
      DriverEventKeepsInv(w, e);
  }

  lemma {:induction false} RunKeepsInv(w: World, events: seq<Event>)
    requires Inv(w) && LegalRun(w, events)
    ensures Inv(Run(w, events))
    decreases |events|
  {
    if events != [] {
      EventKeepsInv(w, events[0]);
      RunKeepsInv(Apply(w, events[0]), events[1..]);
    }
  }

  // ----- Main results: before shutdown -----

  /** In every state a run can reach, for every driver not yet sent STOP: commands
      queued plus commands in processing plus replies queued is 1 if a request
      is pending and 0 otherwise, and the item is of the pending kind. */
  lemma {:induction false} OneRequestInFlight(now: nat, events: seq<Event>, i: nat)
    requires LegalRun(Start(now), events)
    requires Run(Start(now), events).stopsSent <= i < |Run(Start(now), events).drivers|
    ensures var d := Run(Start(now), events).drivers[i];
      && InFlight(d) == (if d.pending == None then 0 else 1)
      && (forall line :: line in d.inFifo ==> IsRequest(d.pending, line))
      && (d.phase.Holding? ==> IsRequest(d.pending, d.phase.cmd))
      && (forall line :: line in d.outFifo ==> IsReply(d.pending, line))
  {
    RunKeepsInv(Start(now), events);
    assert DriverInv(Run(Start(now), events).drivers[i], Run(Start(now), events).now, false);
  }

  lemma {:induction false} TimelyInRuns(start: nat, events: seq<Event>, i: nat)
    requires LegalRun(Start(start), events) && i < |Run(Start(start), events).drivers|
    ensures var w := Run(Start(start), events); w.now >= 0 && Timely(w.drivers[i], w.now)
  {
    var w := Run(Start(start), events);
    RunKeepsInv(Start(start), events);
    assert DriverInv(w.drivers[i], w.now, i < w.stopsSent);
  }

  /** What becomes of a task: a driver whose last task is over is busy for the
      seconds asked from now on, and the line says so with the given words; else
      nothing is accepted and the line is Busy and the time left. */
  ghost predicate TaskOutcome(d: Driver, now: int, secs: int, words: string, line: string, accepted: seq<Interval>) {
    if now >= Deadline(d) then
      line == words && accepted == d.accepted + [Interval(now, now + secs)]
    else
      Carries(line, "Busy", Deadline(d) - now) && accepted == d.accepted
  }

  lemma TurnedDown(d: Driver, now: int, secs: int, words: string)
    requires now < Deadline(d)
    ensures TaskOutcome(d, now, secs, words, BusyLine(Deadline(d) - now), d.accepted)
  {
    BusyLineCarries(Deadline(d) - now);
  }

  lemma Accepted(d: Driver, now: int, secs: int, words: string)
    requires now >= Deadline(d)
    ensures TaskOutcome(d, now, secs, words, words, d.accepted + [Interval(now, now + secs)])
  {
  }

  lemma {:induction false} TaskAnswered(d: Driver, now: nat)
    requires Timely(d, now) && d.phase.Holding? && "TASK " <= d.phase.cmd
    ensures var d' := AtAnswer(d, now);
      if now >= Deadline(d) then
        d'.outFifo == d.outFifo + ["OK"] && d'.accepted == d.accepted + [Interval(now, now + Atoi(d.phase.cmd[5..]))]
      else
        d'.outFifo == d.outFifo + [BusyLine(Deadline(d) - now)] && d'.accepted == d.accepted
  {
    AcceptsWhenFree(d, d.phase.cmd, now);
    AnsweredWith(d, now, AnswerTo(d.phase.cmd, d.busyUntil, now));
  }

  lemma AnsweredWith(d: Driver, now: int, a: Answer)
    requires d.phase.Holding? && a == AnswerTo(d.phase.cmd, d.busyUntil, now)
    ensures AtAnswer(d, now).outFifo == d.outFifo + [a.reply]
    ensures AtAnswer(d, now).accepted == if a.accepts then d.accepted + [Interval(now, a.busyUntil)] else d.accepted
  {
  }

  lemma {:induction false} StatusAnswered(d: Driver, now: nat)
    requires Timely(d, now) && d.phase == Holding("STATUS")
    ensures var d', left := AtAnswer(d, now), Deadline(d) - now;
      d'.outFifo == d.outFifo + [if left > 0 then BusyLine(left) else "Available"] && d'.accepted == d.accepted
  {
    TellsTimeLeft(d, now);
    AnsweredWith(d, now, AnswerTo("STATUS", d.busyUntil, now));
  }

  /** The reply a driver puts into its FIFO when it has dealt with a line. */
  function ReplyGiven(w: World, i: nat): string
    requires i < |w.drivers| && w.drivers[i].phase.Holding?
  {
    Apply(w, GiveAnswer(i)).drivers[i].outFifo[|w.drivers[i].outFifo|]
  }

  lemma AnswerApplied(w: World, i: nat)
    requires i < |w.drivers| && w.drivers[i].phase.Holding?
    ensures Apply(w, GiveAnswer(i)).drivers[i] == AtAnswer(w.drivers[i], w.now)
    ensures ReplyGiven(w, i) == AtAnswer(w.drivers[i], w.now).outFifo[|w.drivers[i].outFifo|]
  {
  }

  /** In every run, a driver that answers a TASK accepts it exactly when now is at
      or past the deadline of the last task it accepted, and the task then lasts
      for the number of seconds in the line; otherwise the reply is Busy and
      exactly the time left. */
  lemma {:induction false} TaskAcceptedWhenFree(start: nat, events: seq<Event>, i: nat)
    requires LegalRun(Start(start), events) && i < |Run(Start(start), events).drivers|
    requires var d := Run(Start(start), events).drivers[i]; d.phase.Holding? && "TASK " <= d.phase.cmd
    ensures var w := Run(Start(start), events);
      var d, d' := w.drivers[i], Apply(w, GiveAnswer(i)).drivers[i];
      && d'.outFifo == d.outFifo + [ReplyGiven(w, i)]
      && TaskOutcome(d, w.now, Atoi(d.phase.cmd[5..]), "OK", ReplyGiven(w, i), d'.accepted)
  {
    TimelyInRuns(start, events, i);
    TaskAnswerTells(Run(Start(start), events), i);
  }

  lemma {:induction false} TaskAnswerTells(w: World, i: nat)
    requires i < |w.drivers| && w.now >= 0 && Timely(w.drivers[i], w.now)
    requires w.drivers[i].phase.Holding? && "TASK " <= w.drivers[i].phase.cmd
    ensures var d, d' := w.drivers[i], Apply(w, GiveAnswer(i)).drivers[i];
      && d'.outFifo == d.outFifo + [ReplyGiven(w, i)]
      && TaskOutcome(d, w.now, Atoi(d.phase.cmd[5..]), "OK", ReplyGiven(w, i), d'.accepted)
  {
    var d := w.drivers[i];
    var reply := TaskAnswerOutcome(d, w.now);
    AnswerApplied(w, i);
    assert (d.outFifo + [reply])[|d.outFifo|] == reply;
  }

  lemma {:induction false} TaskAnswerOutcome(d: Driver, now: nat) returns (reply: string)
    requires Timely(d, now) && d.phase.Holding? && "TASK " <= d.phase.cmd
    ensures AtAnswer(d, now).outFifo == d.outFifo + [reply]
    ensures TaskOutcome(d, now, Atoi(d.phase.cmd[5..]), "OK", reply, AtAnswer(d, now).accepted)
  {
    TaskAnswered(d, now);
    if now >= Deadline(d) {
      reply := "OK";
      Accepted(d, now, Atoi(d.phase.cmd[5..]), "OK");
    } else {
      reply := BusyLine(Deadline(d) - now);
      TurnedDown(d, now, Atoi(d.phase.cmd[5..]), "OK");
    }
  }

  /** In every run, STATUS is answered with Busy and the exact positive time left
      of the last accepted task, or Available if there is none. */
  lemma {:induction false} StatusTellsTimeLeft(start: nat, events: seq<Event>, i: nat)
    requires LegalRun(Start(start), events) && i < |Run(Start(start), events).drivers|
    requires Run(Start(start), events).drivers[i].phase == Holding("STATUS")
    ensures var w := Run(Start(start), events);
      var d, d' := w.drivers[i], Apply(w, GiveAnswer(i)).drivers[i];
      && d'.outFifo == d.outFifo + [ReplyGiven(w, i)] && d'.accepted == d.accepted
      && if w.now < Deadline(d) then Carries(ReplyGiven(w, i), "Busy", Deadline(d) - w.now)
         else ReplyGiven(w, i) == "Available"
  {
    TimelyInRuns(start, events, i);
    var w := Run(Start(start), events);
    StatusAnswered(w.drivers[i], w.now);
    BusyLineCarries(Deadline(w.drivers[i]) - w.now);
    AnswerApplied(w, i);
  }

  // ----- A request and its reply -----

  /** send_task puts a TASK line with its timer into the FIFO of the driver, if
      that driver has no request pending, and changes nothing else. */
  lemma {:induction false} TaskIsQueued(w: World, i: nat, timer: int)
    requires Inv(w) && !w.stopping && i < |w.drivers| && w.drivers[i].pending == None
    ensures var d, w' := w.drivers[i], Apply(w, SendTask(w.drivers[i].pid, timer));
      && Carries(TaskLine(timer), "TASK", timer)
      && w' == w.(drivers := w.drivers[i := d.(inFifo := d.inFifo + [TaskLine(timer)], pending := Task)])
  {
    TaskLineCarries(timer);
    assert IndexOfPid(w.drivers, w.drivers[i].pid) == i;
  }

  lemma {:induction false} StatusIsQueued(w: World, i: nat)
    requires Inv(w) && !w.stopping && i < |w.drivers| && w.drivers[i].pending == None
    ensures var d, w' := w.drivers[i], Apply(w, GetStatus(w.drivers[i].pid));
      w' == w.(drivers := w.drivers[i := d.(inFifo := d.inFifo + ["STATUS"], pending := Status)])
  {
    assert IndexOfPid(w.drivers, w.drivers[i].pid) == i;
  }

  /** create_driver adds one driver that is asked nothing yet, has nothing queued
      and has accepted nothing, as long as there are fewer than 64. */
  lemma DriverIsAdded(w: World, pid: int)
    requires Enabled(w, CreateDriver(pid))
    ensures var w' := Apply(w, CreateDriver(pid));
      if |w.drivers| < 64 then
        && |w'.drivers| == |w.drivers| + 1 && w'.drivers[..|w.drivers|] == w.drivers
        && var d := w'.drivers[|w.drivers|];
           && d.pid == pid && d.pending == None && d.phase == Top && Deadline(d) == 0
           && d.inFifo == [] && d.outFifo == [] && IndexOfPid(w'.drivers, pid) == |w.drivers|
      else w'.drivers == w.drivers
  {
    var w' := Apply(w, CreateDriver(pid));
    if |w.drivers| < 64 {
      assert forall k :: 0 <= k < |w.drivers| ==> w'.drivers[k] == w.drivers[k];
    }
  }

  /** A request to nobody, or to a driver that has one pending, only prints why. */
  lemma {:induction false} RequestRefused(w: World, pid: int, request: Event)
    requires Inv(w) && !w.stopping && (request == GetStatus(pid) || exists timer :: request == SendTask(pid, timer))
    requires forall i :: 0 <= i < |w.drivers| && w.drivers[i].pid == pid ==> w.drivers[i].pending != None
    ensures var known := exists i :: 0 <= i < |w.drivers| && w.drivers[i].pid == pid;
      Apply(w, request) == w.(printed := w.printed + [
        if known then "driver " + Itoa(pid) + " is still processing a previous request" else "no such driver"])
  {
    var i := IndexOfPid(w.drivers, pid);
    assert i >= 0 ==> w.drivers[i].pid == pid;
  }

  /** drivers puts STATUS to every driver without a pending request, after which
      none is without, and leaves the others alone. */
  lemma {:induction false} AllAreAsked(w: World)
    requires !w.stopping
    ensures var w' := Apply(w, GetDrivers);
      && |w'.drivers| == |w.drivers| && w'.printed == w.printed && w'.now == w.now
      && forall i :: 0 <= i < |w.drivers| ==>
           var d, d' := w.drivers[i], w'.drivers[i];
           && d'.pending != None
           && (d.pending != None ==> d' == d)
           && (d.pending == None ==> d' == d.(inFifo := d.inFifo + ["STATUS"], pending := Status))
  {
    var w' := Apply(w, GetDrivers);
    assert forall i :: 0 <= i < |w.drivers| ==> w'.drivers[i] == AskIfIdle(w.drivers[i]);
  }

  /** An idle driver before and after one request was dealt with at once. */
  ghost predicate Resting(w: World, i: nat) {
    i < |w.drivers| && !w.stopping && w.drivers[i].pending == None && w.drivers[i].phase == Waiting
  }

  lemma {:induction false} RestingHasNothing(w: World, i: nat)
    requires Inv(w) && Resting(w, i)
    ensures w.drivers[i].inFifo == [] && w.drivers[i].outFifo == [] && w.stopsSent == 0
    ensures Timely(w.drivers[i], w.now) && w.now >= 0
  {
    assert DriverInv(w.drivers[i], w.now, false);
  }

  /** A driver after a request sent to it was received and answered at once. */
  function Answered(d: Driver, line: string, kind: Pending, now: int): Driver
    requires d.inFifo == [] && line != "STOP"
  {
    AtAnswer(AtReceive(Send(d, line, kind)), now)
  }

  /** The four steps of a request to a resting driver. */
  function Dealing(request: Event, i: nat): seq<Event> {
    [request, Receive(i), GiveAnswer(i), HandleReply(i)]
  }

  /** The world with another value for one driver. */
  function With(w: World, i: nat, d: Driver): World
    requires i < |w.drivers|
  {
    w.(drivers := w.drivers[i := d])
  }

  lemma ReceiveAt(w: World, i: nat, d: Driver)
    requires i < |w.drivers| && d.phase == Waiting && d.inFifo != []
    ensures Enabled(With(w, i, d), Receive(i)) && Apply(With(w, i, d), Receive(i)) == With(w, i, AtReceive(d))
  {
  }

  lemma AnswerAt(w: World, i: nat, d: Driver)
    requires i < |w.drivers| && d.phase.Holding?
    ensures Enabled(With(w, i, d), GiveAnswer(i)) && Apply(With(w, i, d), GiveAnswer(i)) == With(w, i, AtAnswer(d, w.now))
  {
  }

  lemma HandleAt(w: World, i: nat, d: Driver)
    requires i < |w.drivers| && !w.stopping && d.outFifo != []
    ensures Enabled(With(w, i, d), HandleReply(i))
    ensures Apply(With(w, i, d), HandleReply(i)) == With(w, i, AfterReply(d)).(printed := w.printed + [ReplyLine(d)])
  {
  }

  lemma {:induction false} DealtWith(w: World, i: nat, request: Event, line: string, kind: Pending)
    requires Resting(w, i) && w.drivers[i].inFifo == [] && line != "STOP" && Enabled(w, request)
    requires Apply(w, request) == With(w, i, Send(w.drivers[i], line, kind))
    ensures Answered(w.drivers[i], line, kind, w.now).outFifo != []
    ensures LegalRun(w, Dealing(request, i))
    ensures var d := Answered(w.drivers[i], line, kind, w.now);
      Run(w, Dealing(request, i)) == With(w, i, AfterReply(d)).(printed := w.printed + [ReplyLine(d)])
  {
    var sent := Send(w.drivers[i], line, kind);
    assert sent.inFifo == [line];
    ReceiveAt(w, i, sent);
    AnswerAt(w, i, AtReceive(sent));
    HandleAt(w, i, AtAnswer(AtReceive(sent), w.now));
    FourSteps(w, request, Receive(i), GiveAnswer(i), HandleReply(i));
  }

  /** What one request does to the world, as far as it can be seen: the driver is
      asked nothing any more, and a line is printed. */
  ghost predicate OneLineMore(w: World, w': World, i: nat, line: string) {
    && i < |w.drivers| == |w'.drivers| && w'.drivers[i].pending == None
    && w'.printed == w.printed + [line]
  }

  lemma DealtLooks(w: World, i: nat, d: Driver)
    requires i < |w.drivers| && d.outFifo != []
    ensures var w' := With(w, i, AfterReply(d)).(printed := w.printed + [ReplyLine(d)]);
      OneLineMore(w, w', i, ReplyLine(d)) && w'.drivers[i].accepted == d.accepted
  {
  }

  /** A task sent to a resting driver, in any state a run can reach: the console
      prints "task sent" and the driver is busy for the time asked, or it prints
      Busy and the time left and nothing is accepted. */
  lemma {:induction false} TaskRoundTrip(w: World, i: nat, timer: int) returns (line: string)
    requires Inv(w) && Resting(w, i)
    ensures LegalRun(w, Dealing(SendTask(w.drivers[i].pid, timer), i))
    ensures var w', d := Run(w, Dealing(SendTask(w.drivers[i].pid, timer), i)), w.drivers[i];
      OneLineMore(w, w', i, line) && TaskOutcome(d, w.now, timer, "task sent", line, w'.drivers[i].accepted)
  {
    RestingHasNothing(w, i);
    TaskIsQueued(w, i, timer);
    TaskLineFits(timer);
    line := TaskTrip(w, i, SendTask(w.drivers[i].pid, timer), TaskLine(timer), timer);
  }

  lemma {:induction false} TaskTrip(w: World, i: nat, request: Event, cmd: string, timer: int) returns (line: string)
    requires Resting(w, i) && w.drivers[i].inFifo == [] == w.drivers[i].outFifo
    requires w.now >= 0 && Timely(w.drivers[i], w.now)
    requires "TASK " <= cmd && cmd != "STOP" && Atoi(cmd[5..]) == timer
    requires Enabled(w, request) && Apply(w, request) == With(w, i, Send(w.drivers[i], cmd, Task))
    ensures LegalRun(w, Dealing(request, i))
    ensures var w', d := Run(w, Dealing(request, i)), w.drivers[i];
      OneLineMore(w, w', i, line) && TaskOutcome(d, w.now, timer, "task sent", line, w'.drivers[i].accepted)
  {
    var d := w.drivers[i];
    DealtWith(w, i, request, cmd, Task);
    var d' := Answered(d, cmd, Task, w.now);
    line := ReplyLine(d');
    DealtLooks(w, i, d');
    TaskDealtWith(d, cmd, w.now);
  }

  lemma TaskLineFits(timer: int)
    ensures var cmd := TaskLine(timer); "TASK " <= cmd && cmd != "STOP" && Atoi(cmd[5..]) == timer
  {
    TaskLineCarries(timer);
    assert TaskLine(timer)[0] != "STOP"[0];
  }

  /** What handle_driver_reply prints for the reply to a task. */
  lemma TaskReplyLine(d: Driver, reply: string)
    requires d.outFifo == [reply] && d.pending == Task
    ensures reply == "OK" ==> ReplyLine(d) == "task sent"
    ensures "Busy" <= reply ==> ReplyLine(d) == reply
  {
    assert "OK"[0] != "Busy"[0];
  }

  lemma TaskDealtWith(d: Driver, cmd: string, now: nat)
    requires Timely(d, now) && d.inFifo == [] && d.outFifo == [] && "TASK " <= cmd && cmd != "STOP"
    ensures var d' := Answered(d, cmd, Task, now);
      d'.outFifo != [] && TaskOutcome(d, now, Atoi(cmd[5..]), "task sent", ReplyLine(d'), d'.accepted)
  {
    if now >= Deadline(d) {
      TaskTaken(d, cmd, now);
      Accepted(d, now, Atoi(cmd[5..]), "task sent");
    } else {
      TaskTurnedDown(d, cmd, now);
      TurnedDown(d, now, Atoi(cmd[5..]), "task sent");
    }
  }

  lemma {:induction false} TaskTaken(d: Driver, cmd: string, now: nat)
    requires Timely(d, now) && d.inFifo == [] && d.outFifo == [] && "TASK " <= cmd && cmd != "STOP"
    requires now >= Deadline(d)
    ensures var d' := Answered(d, cmd, Task, now);
      && d'.outFifo == ["OK"] && ReplyLine(d') == "task sent"
      && d'.accepted == d.accepted + [Interval(now, now + Atoi(cmd[5..]))]
  {
    var held := AtReceive(Send(d, cmd, Task));
    assert Send(d, cmd, Task).inFifo == [cmd] && held.phase == Holding(cmd);
    TaskAnswered(held, now);
    TaskReplyLine(AtAnswer(held, now), "OK");
  }

  lemma {:induction false} TaskTurnedDown(d: Driver, cmd: string, now: nat)
    requires Timely(d, now) && d.inFifo == [] && d.outFifo == [] && "TASK " <= cmd && cmd != "STOP"
    requires now < Deadline(d)
    ensures var d', reply := Answered(d, cmd, Task, now), BusyLine(Deadline(d) - now);
      d'.outFifo == [reply] && ReplyLine(d') == reply && d'.accepted == d.accepted
  {
    var held, reply := AtReceive(Send(d, cmd, Task)), BusyLine(Deadline(d) - now);
    assert Send(d, cmd, Task).inFifo == [cmd] && held.phase == Holding(cmd);
    TaskAnswered(held, now);
    BusyStarts(Deadline(d) - now);
    TaskReplyLine(AtAnswer(held, now), reply);
  }

  lemma BusyStarts(left: int)
    ensures "Busy" <= BusyLine(left)
  {
    assert BusyLine(left)[..4] == "Busy";
  }

  lemma FourSteps(w: World, a: Event, b: Event, c: Event, d: Event)
    requires Enabled(w, a) && Enabled(Apply(w, a), b) && Enabled(Apply(Apply(w, a), b), c)
    requires Enabled(Apply(Apply(Apply(w, a), b), c), d)
    ensures LegalRun(w, [a, b, c, d]) && Run(w, [a, b, c, d]) == Apply(Apply(Apply(Apply(w, a), b), c), d)
  {
    var w1 := Apply(w, a);
    var w2 := Apply(w1, b);
    LastStep(Apply(w2, c), d);
    OneStep(w2, c, [d]);
    OneStep(w1, b, [c] + [d]);
    OneStep(w, a, [b] + ([c] + [d]));
    assert [a] + ([b] + ([c] + [d])) == [a, b, c, d];
  }

  lemma LastStep(w: World, e: Event)
    requires Enabled(w, e)
    ensures LegalRun(w, [e]) && Run(w, [e]) == Apply(w, e)
  {
    OneStep(w, e, []);
    assert [e] + [] == [e];
  }

  lemma OneStep(w: World, e: Event, rest: seq<Event>)
    requires Enabled(w, e) && LegalRun(Apply(w, e), rest)
    ensures LegalRun(w, [e] + rest) && Run(w, [e] + rest) == Run(Apply(w, e), rest)
  {
    assert ([e] + rest)[0] == e && ([e] + rest)[1..] == rest;
  }

  /** The line is the numeral of a pid, a colon, and what the driver said. */
  ghost predicate TellsStatus(line: string, pid: int, left: int) {
    exists n: nat :: TellsStatusAt(line, pid, left, n)
  }

  ghost predicate TellsStatusAt(line: string, pid: int, left: int, n: nat) {
    && n + 2 < |line| && IsNumeral(line[..n]) && Atoi(line[..n]) == pid && line[n..n + 2] == ": "
    && if left > 0 then Carries(line[n + 2..], "Busy", left) else line[n + 2..] == "Available"
  }

  lemma StatusLineTells(pid: int, left: int)
    ensures TellsStatus(Itoa(pid) + ": " + (if left > 0 then BusyLine(left) else "Available"), pid, left)
  {
    var said := if left > 0 then BusyLine(left) else "Available";
    var line, n := Itoa(pid) + ": " + said, |Itoa(pid)|;
    ItoaIsNumeral(pid);
    BusyLineCarries(left);
    assert line[..n] == Itoa(pid) && line[n..n + 2] == ": " && line[n + 2..] == said;
    assert TellsStatusAt(line, pid, left, n);
  }

  lemma {:induction false} StatusDealtWith(d: Driver, now: nat)
    requires Timely(d, now) && d.inFifo == [] && d.outFifo == []
    ensures "STATUS" != "STOP"
    ensures var d', left := Answered(d, "STATUS", Status, now), Deadline(d) - now;
      && d'.outFifo != [] && d'.accepted == d.accepted
      && ReplyLine(d') == Itoa(d.pid) + ": " + (if left > 0 then BusyLine(left) else "Available")
  {
    assert "STOP"[2] != "STATUS"[2];
    var held := AtReceive(Send(d, "STATUS", Status));
    assert Send(d, "STATUS", Status).inFifo == ["STATUS"] && held.phase == Holding("STATUS");
    StatusAnswered(held, now);
  }

  /** A status request to a resting driver: the console prints its pid and Busy
      with the time left, or its pid and Available. */
  lemma {:induction false} StatusRoundTrip(w: World, i: nat) returns (line: string)
    requires Inv(w) && Resting(w, i)
    ensures LegalRun(w, Dealing(GetStatus(w.drivers[i].pid), i))
    ensures var w', d := Run(w, Dealing(GetStatus(w.drivers[i].pid), i)), w.drivers[i];
      && OneLineMore(w, w', i, line) && w'.drivers[i].accepted == d.accepted
      && TellsStatus(line, d.pid, Deadline(d) - w.now)
  {
    var d := w.drivers[i];
    RestingHasNothing(w, i);
    StatusIsQueued(w, i);
    assert "STOP"[2] != "STATUS"[2];
    DealtWith(w, i, GetStatus(d.pid), "STATUS", Status);
    line := ReplyLine(Answered(d, "STATUS", Status, w.now));
    StatusDealtWith(d, w.now);
    StatusLineTells(d.pid, Deadline(d) - w.now);
  }

  /** Whenever the console handles a reply, it expects one: the branch for an
      unexpected reply is never taken, and "task sent" is printed exactly when
      the driver accepted a task that had not been reported yet. */
  lemma {:induction false} RepliesAreExpected(now: nat, events: seq<Event>, i: nat)
    requires LegalRun(Start(now), events) && Enabled(Run(Start(now), events), HandleReply(i))
    ensures var w := Run(Start(now), events);
      var d, w' := w.drivers[i], Apply(w, HandleReply(i));
      && d.pending != None
      && w'.drivers[i].told == |d.accepted|
      && (w'.drivers[i].told == d.told + 1 <==> d.pending == Task && ReplyLine(d) == "task sent")
  {
    var w := Run(Start(now), events);
    RunKeepsInv(Start(now), events);
    var d := w.drivers[i];
    assert DriverInv(d, w.now, false);
    ReplyKeeps(d, w.now);
    if d.pending == Task && "Busy" <= d.outFifo[0] {
      assert "task sent"[0] != "Busy"[0];
    }
  }

  /** Over every run, the tasks a driver accepted do not overlap. */
  lemma {:induction false} AcceptedTasksDoNotOverlap(now: nat, events: seq<Event>, i: nat, j: nat, k: nat)
    requires LegalRun(Start(now), events) && i < |Run(Start(now), events).drivers|
    requires j < k < |Run(Start(now), events).drivers[i].accepted|
    ensures var accepted := Run(Start(now), events).drivers[i].accepted;
      accepted[j].deadline <= accepted[k].start
  {
    var w := Run(Start(now), events);
    RunKeepsInv(Start(now), events);
    assert DriverInv(w.drivers[i], w.now, i < w.stopsSent);
    StartsInOrder(w.drivers[i], w.now, j, k);
  }

  lemma {:induction false} StartsInOrder(d: Driver, now: int, j: nat, k: nat)
    requires Timely(d, now) && j < k < |d.accepted|
    ensures d.accepted[j].deadline <= d.accepted[k].start
    decreases k
  {
    if j < k - 1 {
      StartsInOrder(d, now, j, k - 1);
    }
  }

  // ----- Main results: after shutdown -----

  /** What is left to do for a driver; every step of its process lowers it. */
  function Work(d: Driver): nat {
    if d.phase == Stopped then 0
    else
      8 * |d.inFifo| + 1 +
      match d.phase
      case Holding(_) => 5
      case Top => if d.busyUntil != 0 then 4 else 2
      case _ => if d.busyUntil != 0 then 3 else 1
  }

  function TotalWork(drivers: seq<Driver>): nat {
    if drivers == [] then 0 else Work(drivers[0]) + TotalWork(drivers[1..])
  }

  lemma {:induction false} TotalAfterUpdate(drivers: seq<Driver>, i: nat, d: Driver)
    requires i < |drivers|
    ensures TotalWork(drivers[i := d]) == TotalWork(drivers) - Work(drivers[i]) + Work(d)
  {
    if i == 0 {
      assert drivers[i := d][1..] == drivers[1..];
    } else {
      assert drivers[i := d][1..] == drivers[1..][i - 1 := d];
      TotalAfterUpdate(drivers[1..], i - 1, d);
    }
  }

  lemma {:induction false} StepLowersOwnWork(d: Driver, now: int)
    ensures d.phase == Top ==> Work(AtTop(d, now)) < Work(d)
    ensures d.phase == Waiting && d.busyUntil != 0 ==> Work(AtTimeout(d)) < Work(d)
    ensures d.phase == Waiting && d.inFifo != [] ==> Work(AtReceive(d)) < Work(d)
    ensures d.phase.Holding? ==> Work(AtAnswer(d, now)) < Work(d)
  {
  }

  /** What is left to do in all: by the drivers, and by the loop that sends STOP. */
  function WorkLeft(w: World): int {
    TotalWork(w.drivers) + 9 * (|w.drivers| - w.stopsSent)
  }

  predicate IsShutdownStep(e: Event) {
    IsDriverEvent(e) || e == SendStop
  }

  /** After shutdown every step of a driver and every STOP sent lowers it. */
  lemma {:induction false} StepLowersWork(w: World, e: Event)
    requires Inv(w) && w.stopping && Enabled(w, e) && IsShutdownStep(e)
    ensures WorkLeft(Apply(w, e)) < WorkLeft(w)
  {
    var i := if e == SendStop then w.stopsSent else e.i;
    StepLowersOwnWork(w.drivers[i], w.now);
    TotalAfterUpdate(w.drivers, i, Apply(w, e).drivers[i]);
  }

  /** After shutdown nothing moves but the drivers, the clock and the loop. */
  lemma {:induction false} OnlyDriversMove(w: World, e: Event)
    requires w.stopping && Enabled(w, e)
    ensures IsShutdownStep(e) || e == Tick
  {
  }

  /** A driver that STOP was sent to and that is not gone can always take a step:
      no wait in shutdown_all_drivers is for a process that is stuck. */
  lemma {:induction false} DriverCanMove(w: World, i: nat)
    requires Inv(w) && i < w.stopsSent && w.drivers[i].phase != Stopped
    ensures exists e :: IsDriverEvent(e) && e.i == i && Enabled(w, e)
  {
    assert DriverInv(w.drivers[i], w.now, true);
    match w.drivers[i].phase
    case Top => assert Enabled(w, LoopTop(i));
    case Waiting => assert Enabled(w, Receive(i));
    case Holding(_) => assert Enabled(w, GiveAnswer(i));
  }

  /** Lines driver i reads during a run. */
  function ReadsBy(events: seq<Event>, i: nat): nat {
    if events == [] then 0 else (if events[0] == Receive(i) then 1 else 0) + ReadsBy(events[1..], i)
  }

  function ShutdownSteps(events: seq<Event>): nat {
    if events == [] then 0 else (if IsShutdownStep(events[0]) then 1 else 0) + ShutdownSteps(events[1..])
  }

  /** The lines driver i has still to read in w are those it has not read in a
      later w', with the STOP sent in between. */
  ghost predicate ReadsAddUp(w: World, w': World, i: nat, taken: nat)
    requires i < |w.drivers| == |w'.drivers|
  {
    && w.stopsSent <= w'.stopsSent
    && if w.drivers[i].phase == Stopped then taken == 0 && w'.drivers[i] == w.drivers[i]
       else
         taken + |w'.drivers[i].inFifo| == |w.drivers[i].inFifo| + if w.stopsSent <= i < w'.stopsSent then 1 else 0
  }

  lemma {:induction false} OneStepAddsUp(w: World, e: Event, i: nat)
    requires Inv(w) && w.stopping && Enabled(w, e) && i < |w.drivers|
    ensures var w' := Apply(w, e);
      w'.stopping && |w'.drivers| == |w.drivers| && ReadsAddUp(w, w', i, if e == Receive(i) then 1 else 0)
  {
    OnlyDriversMove(w, e);
    assert DriverInv(w.drivers[i], w.now, i < w.stopsSent);
  }

  /** After shutdown, however the drivers and the loop that sends STOP are
      scheduled: the steps they take are bounded by the work left, and each driver
      reads what was queued and the STOP sent to it, and no more. */
  lemma {:induction false} DrainingRun(w: World, events: seq<Event>, i: nat)
    requires Inv(w) && w.stopping && LegalRun(w, events) && i < |w.drivers|
    ensures var w' := Run(w, events);
      && Inv(w') && w'.stopping && |w'.drivers| == |w.drivers|
      && ShutdownSteps(events) + WorkLeft(w') <= WorkLeft(w)
      && ReadsAddUp(w, w', i, ReadsBy(events, i))
    decreases |events|
  {
    if events != [] {
      EventKeepsInv(w, events[0]);
      OneStepAddsUp(w, events[0], i);
      WorkNeverGrows(w, events[0]);
      DrainingRun(Apply(w, events[0]), events[1..], i);
    }
  }

  lemma {:induction false} WorkNeverGrows(w: World, e: Event)
    requires Inv(w) && w.stopping && Enabled(w, e)
    ensures (if IsShutdownStep(e) then 1 else 0) + WorkLeft(Apply(w, e)) <= WorkLeft(w)
  {
    OnlyDriversMove(w, e);
    if IsShutdownStep(e) { StepLowersWork(w, e); }
  }

  /** Once shutdown has begun, every driver reads at most two more lines, whatever
      request was outstanding and however the sending of the STOPs and the
      drivers' steps interleave; and when none of them can move any more all
      drivers are gone: the waitpid loop ends. */
  lemma {:induction false} ShutdownEnds(now: nat, before: seq<Event>, after: seq<Event>, i: nat)
    requires LegalRun(Start(now), before) && !Run(Start(now), before).stopping
    requires LegalRun(Apply(Run(Start(now), before), Shutdown), after)
    requires i < |Run(Start(now), before).drivers|
    ensures var w := Apply(Run(Start(now), before), Shutdown);
      var w' := Run(w, after);
      && ReadsBy(after, i) <= 2
      && ShutdownSteps(after) <= WorkLeft(w)
      && |w'.drivers| == |w.drivers|
      && ((forall e :: IsShutdownStep(e) ==> !Enabled(w', e)) ==> w'.drivers[i].phase == Stopped)
  {
    var w0 := Run(Start(now), before);
    RunKeepsInv(Start(now), before);
    EventKeepsInv(w0, Shutdown);
    assert DriverInv(w0.drivers[i], w0.now, false);
    var w := Apply(w0, Shutdown);
    DrainingRun(w, after, i);
    NothingLeft(Run(w, after), i);
  }

  lemma {:induction false} NothingLeft(w: World, i: nat)
    requires Inv(w) && w.stopping && i < |w.drivers|
    ensures (forall e :: IsShutdownStep(e) ==> !Enabled(w, e)) ==> w.drivers[i].phase == Stopped
    ensures WorkLeft(w) >= 0
  {
    if w.stopsSent < |w.drivers| {
      assert Enabled(w, SendStop);
    } else if w.drivers[i].phase != Stopped {
      DriverCanMove(w, i);
    }
  }

  // ----- The processes in their own form -----

  /** driver_main's only variable, and the two parts of its loop that use it. */
  class Process {
    var busyUntil: int

    constructor ()
      ensures busyUntil == NewDriver(0).busyUntil
    {
      busyUntil := 0;
    }

    /** The check at the top of the loop. The result is how long select may wait
        before a deadline; 0 stands for no deadline. */
    method BeforeSelect(now: int) returns (wait: int)
      modifies this
      ensures forall d: Driver :: d.busyUntil == old(busyUntil) ==> AtTop(d, now).busyUntil == busyUntil
      ensures busyUntil != 0 ==> wait == busyUntil - now > 0
      ensures busyUntil == 0 ==> wait == 0
    {
      wait := 0;
      if busyUntil != 0 {
        var remaining := busyUntil - now;
        if remaining <= 0 {
          busyUntil := 0;
        } else {
          wait := remaining;
        }
      }
    }

    /** The reply to a line that is not STOP. */
    method Serve(cmd: string, now: nat) returns (reply: string)
      modifies this
      ensures reply == AnswerTo(cmd, old(busyUntil), now).reply
      ensures busyUntil == AnswerTo(cmd, old(busyUntil), now).busyUntil
      ensures forall d: Driver :: d.busyUntil == old(busyUntil) && Timely(d, now) && "TASK " <= cmd ==>
        if now >= Deadline(d) then reply == "OK" && busyUntil == now + Atoi(cmd[5..])
        else Carries(reply, "Busy", Deadline(d) - now)
      ensures forall d: Driver :: d.busyUntil == old(busyUntil) && Timely(d, now) && cmd == "STATUS" ==>
        if now < Deadline(d) then Carries(reply, "Busy", Deadline(d) - now) else reply == "Available"
    {
      ServeTells(cmd, busyUntil, now);
      if "TASK " <= cmd {
        if busyUntil != 0 && busyUntil > now {
          reply := "Busy " + Itoa(busyUntil - now);
        } else {
          var secs := Atoi(cmd[5..]);
          busyUntil := now + secs;
          reply := "OK";
        }
      } else if cmd == "STATUS" {
        if busyUntil != 0 && busyUntil > now {
          reply := "Busy " + Itoa(busyUntil - now);
        } else {
          reply := "Available";
        }
      } else {
        reply := "Unknown command";
      }
    }
  }

  /** The answer to a line, in terms of the deadline of the last accepted task. */
  lemma {:induction false} ServeTells(cmd: string, busyUntil: int, now: nat)
    ensures forall d: Driver :: d.busyUntil == busyUntil && Timely(d, now) && "TASK " <= cmd ==>
      var a := AnswerTo(cmd, busyUntil, now);
      if now >= Deadline(d) then a.reply == "OK" && a.busyUntil == now + Atoi(cmd[5..])
      else Carries(a.reply, "Busy", Deadline(d) - now)
    ensures forall d: Driver :: d.busyUntil == busyUntil && Timely(d, now) && cmd == "STATUS" ==>
      var a := AnswerTo(cmd, busyUntil, now);
      if now < Deadline(d) then Carries(a.reply, "Busy", Deadline(d) - now) else a.reply == "Available"
  {
    forall d: Driver | d.busyUntil == busyUntil && Timely(d, now) && "TASK " <= cmd
      ensures var a := AnswerTo(cmd, busyUntil, now);
        if now >= Deadline(d) then a.reply == "OK" && a.busyUntil == now + Atoi(cmd[5..])
        else Carries(a.reply, "Busy", Deadline(d) - now)
    {
      AcceptsWhenFree(d, cmd, now);
      BusyLineCarries(Deadline(d) - now);
    }
    forall d: Driver | d.busyUntil == busyUntil && Timely(d, now) && cmd == "STATUS"
      ensures var a := AnswerTo(cmd, busyUntil, now);
        if now < Deadline(d) then Carries(a.reply, "Busy", Deadline(d) - now) else a.reply == "Available"
    {
      TellsTimeLeft(d, now);
      BusyLineCarries(Deadline(d) - now);
    }
  }

  /** drivers[] and the console, together with the kernel's FIFOs and the driver
      processes, which only the methods below and driver events change. */
  class Control {
    var drivers: seq<Driver>
    var now: int
    var stopping: bool
    var stopsSent: nat
    var printed: seq<string>

    constructor (now: nat)
      ensures State() == Start(now)
    {
      drivers, this.now, stopping, stopsSent, printed := [], now, false, 0, [];
    }

    ghost function State(): World
      reads this
    {
      World(drivers, now, stopping, stopsSent, printed)
    }

    method Print(line: string)
      modifies this`printed
      ensures printed == old(printed) + [line]
    {
      printed := printed + [line];
    }

    /** find_driver */
    method FindDriver(pid: int) returns (i: int)
      ensures i == IndexOfPid(drivers, pid)
    {
      i := 0;
      while i < |drivers|
        invariant 0 <= i <= |drivers|
        invariant forall k :: 0 <= k < i ==> drivers[k].pid != pid
      {
        if drivers[i].pid == pid {
          return;
        }
        i := i + 1;
      }
      i := -1;
    }

    /** create_driver; pid is what fork returned. */
    method CreateDriver(pid: int)
      requires Enabled(State(), Event.CreateDriver(pid))
      modifies this
      ensures State() == Apply(old(State()), Event.CreateDriver(pid))
      ensures old(Inv(State())) ==> Inv(State())
    {
      if Inv(State()) { EventKeepsInv(State(), Event.CreateDriver(pid)); }
      if |drivers| >= MAX_DRIVERS {
        Print("driver limit reached");
        return;
      }
      drivers := drivers + [NewDriver(pid)];
      Print("driver created, pid=" + Itoa(pid));
    }

    /** send_task */
    method SendTask(pid: int, timer: int)
      requires !stopping
      modifies this
      ensures State() == Apply(old(State()), Event.SendTask(pid, timer))
      ensures old(Inv(State())) ==> Inv(State())
    {
      if Inv(State()) { EventKeepsInv(State(), Event.SendTask(pid, timer)); }
      var idx := FindDriver(pid);
      if idx < 0 {
        Print("no such driver");
        return;
      }
      if drivers[idx].pending != None {
        Print("driver " + Itoa(pid) + " is still processing a previous request");
        return;
      }
      drivers := drivers[idx := drivers[idx].(inFifo := drivers[idx].inFifo + [TaskLine(timer)])];
      drivers := drivers[idx := drivers[idx].(pending := Task)];
    }

    /** get_status */
    method GetStatus(pid: int)
      requires !stopping
      modifies this
      ensures State() == Apply(old(State()), Event.GetStatus(pid))
      ensures old(Inv(State())) ==> Inv(State())
    {
      if Inv(State()) { EventKeepsInv(State(), Event.GetStatus(pid)); }
      var idx := FindDriver(pid);
      if idx < 0 {
        Print("no such driver");
        return;
      }
      if drivers[idx].pending != None {
        Print("driver " + Itoa(pid) + " is still processing a previous request");
        return;
      }
      drivers := drivers[idx := drivers[idx].(inFifo := drivers[idx].inFifo + ["STATUS"])];
      drivers := drivers[idx := drivers[idx].(pending := Status)];
    }

    /** get_drivers */
    method GetDrivers()
      requires !stopping
      modifies this
      ensures State() == Apply(old(State()), Event.GetDrivers)
      ensures old(Inv(State())) ==> Inv(State())
    {
      if Inv(State()) { EventKeepsInv(State(), Event.GetDrivers); }
      var i := 0;
      while i < |drivers|
        invariant 0 <= i <= |drivers| == |old(drivers)|
        invariant forall k :: 0 <= k < i ==> drivers[k] == AskIfIdle(old(drivers)[k])
        invariant forall k :: i <= k < |drivers| ==> drivers[k] == old(drivers)[k]
        invariant now == old(now) && stopping == old(stopping) && stopsSent == old(stopsSent) && printed == old(printed)
      {
        if drivers[i].pending == None {
          drivers := drivers[i := Send(drivers[i], "STATUS", Status)];
        }
        i := i + 1;
      }
    }

    /** handle_driver_reply, for a FIFO select reported */
    method HandleReply(i: nat)
      requires Enabled(State(), Event.HandleReply(i))
      modifies this
      ensures State() == Apply(old(State()), Event.HandleReply(i))
      ensures old(Inv(State())) ==>
        Inv(State()) && old(drivers)[i].pending != None && drivers[i].told == |old(drivers)[i].accepted|
    {
      if Inv(State()) {
        EventKeepsInv(State(), Event.HandleReply(i));
        ReplyKeeps(drivers[i], now);
      }
      var d := drivers[i];
      var reply := d.outFifo[0];
      var told := d.told;
      match d.pending {
        case Task =>
          if "Busy" <= reply {
            Print(reply);
          } else {
            Print("task sent");
            told := told + 1;
          }
        case Status => Print(Itoa(d.pid) + ": " + reply);
        case None => Print(Itoa(d.pid) + ": unexpected reply: " + reply);
      }
      drivers := drivers[i := d.(outFifo := d.outFifo[1..], pending := None, told := told)];
    }

    /** One round of the loop that sends STOP. */
    method SendStop()
      requires Enabled(State(), Event.SendStop)
      modifies this
      ensures State() == Apply(old(State()), Event.SendStop)
      ensures old(Inv(State())) ==> Inv(State())
    {
      if Inv(State()) { EventKeepsInv(State(), Event.SendStop); }
      drivers := drivers[stopsSent := drivers[stopsSent].(inFifo := drivers[stopsSent].inFifo + ["STOP"])];
      stopsSent := stopsSent + 1;
    }

    /** The sending half of shutdown_all_drivers, while no driver moves. */
    method Shutdown()
      requires !stopping && stopsSent == 0
      modifies this
      ensures stopping && stopsSent == |drivers| == |old(drivers)| && now == old(now) && printed == old(printed)
      ensures forall k :: 0 <= k < |drivers| ==> drivers[k] == SendStopTo(old(drivers)[k])
      ensures old(Inv(State())) ==> Inv(State())
    {
      if Inv(State()) { EventKeepsInv(State(), Event.Shutdown); }
      ghost var sound := Inv(State());
      stopping := true;
      while stopsSent < |drivers|
        invariant stopping && stopsSent <= |drivers| == |old(drivers)| && now == old(now) && printed == old(printed)
        invariant forall k :: 0 <= k < stopsSent ==> drivers[k] == SendStopTo(old(drivers)[k])
        invariant forall k :: stopsSent <= k < |drivers| ==> drivers[k] == old(drivers)[k]
        invariant sound ==> Inv(State())
        decreases |drivers| - stopsSent
      {
        SendStop();
      }
    }
  }
}
