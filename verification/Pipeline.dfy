// The message pipeline of one component in src/handler.c: the bus thread appends to the queue, the runner takes from
// it, and a worker runs the long jobs. Each method is one atomic step; any interleaving of them is a run.
module Pipeline {
  import opened Common
  import opened Links
  import opened DlQueue

  const MSG_TIMEOUT := 10

  // How a message is handled: not at all by the library, on the runner thread, or by the worker.
  datatype Kind = Unhandled | OnRunner | OnWorker

  // A message as process_message reads it: whether it parses, its sequence number and package name if present.
  datatype Message = Message(parses: bool, seq_: Option<int>, name: Option<string>, kind: Kind)

  // incoming_msg_t; arrived messages are numbered from 1, which is also their place in memory.
  datatype Incoming = Incoming(msg: Message, ts: nat)

  datatype Event =
    | Handled(id: Ptr, at: nat)
    | Expired(id: Ptr, at: nat)
    | Accepted(id: Ptr, name: string, num: int)
    | Outdated(id: Ptr)
    | Ran(id: Ptr)
    | Started(id: Ptr)
    | NotStarted(id: Ptr)
    | Discarded(id: Ptr)
    | Finished(id: Ptr)

  // ----- what a log says -----

  // The messages taken from the queue, in order.
  function Taken(log: seq<Event>): seq<Ptr> {
    if log == [] then []
    else
      var e := log[|log| - 1];
      Taken(log[..|log| - 1]) + if e.Handled? || e.Expired? then [e.id] else []
  }

  // The number of worker jobs that have started and not finished.
  function Live(log: seq<Event>): int {
    if log == [] then 0
    else
      var e := log[|log| - 1];
      Live(log[..|log| - 1]) + if e.Started? then 1 else if e.Finished? then -1 else 0
  }

  // The sequence numbers accepted for a package, in order.
  function AcceptedFor(log: seq<Event>, name: string): seq<int> {
    if log == [] then []
    else
      var e := log[|log| - 1];
      AcceptedFor(log[..|log| - 1], name) + if e.Accepted? && e.name == name then [e.num] else []
  }

  // The ids 1, 2, ..., n.
  function Upto(n: nat): (s: seq<Ptr>)
    ensures |s| == n
  {
    seq(n, i requires 0 <= i < n => i + 1)
  }

  // A message is handled only while it is younger than ten seconds, and expires only when it is not.
  ghost predicate InTime(e: Event, arrived: seq<Incoming>) {
    && (e.Handled? ==>
          1 <= e.id <= |arrived| && arrived[e.id - 1].ts <= e.at < arrived[e.id - 1].ts + 10_000)
    && (e.Expired? ==> 1 <= e.id <= |arrived| && e.at >= arrived[e.id - 1].ts + 10_000)
  }

  ghost predicate AllInTime(log: seq<Event>, arrived: seq<Incoming>) {
    forall i :: 0 <= i < |log| ==> InTime(log[i], arrived)
  }

  // At every moment of the run at most one worker job is live, and the worker flag says whether one is.
  ghost predicate OneWorker(log: seq<Event>, running: bool) {
    Live(log) == (if running then 1 else 0) && forall i :: 0 <= i <= |log| ==> 0 <= Live(log[..i]) <= 1
  }

  // The accepted sequence numbers of each package increase; the table holds the last of them.
  ghost predicate Sequenced(log: seq<Event>, table: map<string, int>, name: string) {
    var s := AcceptedFor(log, name);
    Ascending(s) && (name in table <==> s != []) && (s != [] ==> table[name] == s[|s| - 1])
  }

  // What one more event adds.
  lemma AddEvent(log: seq<Event>, e: Event)
    ensures Taken(log + [e]) == Taken(log) + if e.Handled? || e.Expired? then [e.id] else []
    ensures Live(log + [e]) == Live(log) + if e.Started? then 1 else if e.Finished? then -1 else 0
  {
    assert (log + [e])[..|log|] == log;
  }

  lemma AddAccepted(log: seq<Event>, e: Event, name: string)
    ensures AcceptedFor(log + [e], name)
            == AcceptedFor(log, name) + if e.Accepted? && e.name == name then [e.num] else []
  {
    assert (log + [e])[..|log|] == log;
  }

  lemma OneWorkerAdd(log: seq<Event>, running: bool, e: Event, running': bool)
    requires OneWorker(log, running)
    requires if e.Started? then !running && running'
             else if e.Finished? then running && !running' else running' == running
    ensures OneWorker(log + [e], running')
  {
    AddEvent(log, e);
    var log' := log + [e];
    forall i | 0 <= i <= |log'| ensures 0 <= Live(log'[..i]) <= 1 {
      if i <= |log| {
        assert log'[..i] == log[..i];
      } else {
        assert log'[..i] == log';
      }
    }
  }

  lemma SequencedAdd(log: seq<Event>, table: map<string, int>, e: Event, table': map<string, int>, name: string)
    requires Sequenced(log, table, name)
    requires if e.Accepted? then table' == table[e.name := e.num] && (e.name in table ==> table[e.name] < e.num)
             else table' == table
    ensures Sequenced(log + [e], table', name)
  {
    AddAccepted(log, e, name);
  }

  // Everything a log is claimed to say.
  ghost predicate Orderly(log: seq<Event>, arrived: seq<Incoming>, taken: nat, running: bool, table: map<string, int>) {
    && Taken(log) == Upto(taken) && AllInTime(log, arrived) && OneWorker(log, running)
    && forall name :: Sequenced(log, table, name)
  }

  // An event that is not about the queue.
  lemma OrderlyAdd(log: seq<Event>, arrived: seq<Incoming>, taken: nat, running: bool, table: map<string, int>,
                   e: Event, running': bool, table': map<string, int>)
    requires Orderly(log, arrived, taken, running, table) && !e.Handled? && !e.Expired?
    requires if e.Started? then !running && running'
             else if e.Finished? then running && !running' else running' == running
    requires if e.Accepted? then table' == table[e.name := e.num] && (e.name in table ==> table[e.name] < e.num)
             else table' == table
    ensures Orderly(log + [e], arrived, taken, running', table')
  {
    AddEvent(log, e);
    OneWorkerAdd(log, running, e, running');
    forall name ensures Sequenced(log + [e], table', name) {
      SequencedAdd(log, table, e, table', name);
    }
  }

  // The next message is taken.
  lemma OrderlyTake(log: seq<Event>, arrived: seq<Incoming>, taken: nat, running: bool, table: map<string, int>,
                    e: Event)
    requires Orderly(log, arrived, taken, running, table)
    requires (e.Handled? || e.Expired?) && e.id == taken + 1 && InTime(e, arrived)
    ensures Orderly(log + [e], arrived, taken + 1, running, table)
  {
    AddEvent(log, e);
    OneWorkerAdd(log, running, e, running);
    forall name ensures Sequenced(log + [e], table, name) {
      SequencedAdd(log, table, e, table, name);
    }
    assert Upto(taken) + [taken + 1] == Upto(taken + 1);
  }

  // The message carries a sequence number that is not above the last accepted one.
  predicate IsOutdated(msg: Message, table: map<string, int>) {
    msg.parses && msg.seq_.Some? && msg.name.Some? && msg.name.value in table && table[msg.name.value] >= msg.seq_.value
  }

  predicate IsAccepted(msg: Message, table: map<string, int>) {
    msg.parses && msg.seq_.Some? && msg.name.Some? && !IsOutdated(msg, table)
  }

  // The message has a sequence number for a package.
  predicate Numbered(msg: Message) {
    msg.seq_.Some? && msg.name.Some?
  }

  // What the kind of a message asks for: it runs at once, or the worker takes it if it is idle and its thread starts.
  ghost predicate Asked(kind: Kind, im: Ptr, before: seq<Event>, wasRunning: bool, createFails: bool,
                        log: seq<Event>, running: bool)
  {
    match kind
    case Unhandled => log == before && running == wasRunning
    case OnRunner => log == before + [Ran(im)] && running == wasRunning
    case OnWorker =>
      if wasRunning then log == before + [Discarded(im)] && running
      else if createFails then log == before + [NotStarted(im)] && !running
      else log == before + [Started(im)] && running
  }

  // What becomes of a message that is handled: its number is looked up and stored, and then its kind decides.
  ghost predicate Processed(msg: Message, im: Ptr, before: seq<Event>, seqIn: map<string, int>, wasRunning: bool,
                            createFails: bool, log: seq<Event>, seqIn': map<string, int>, running: bool)
  {
    if !msg.parses then log == before && seqIn' == seqIn && running == wasRunning
    else if msg.seq_.Some? && msg.name.Some? then
      var name, num := msg.name.value, msg.seq_.value;
      if name in seqIn && seqIn[name] >= num then
        log == before + [Outdated(im)] && seqIn' == seqIn && running == wasRunning
      else
        && seqIn' == seqIn[name := num]
        && Asked(msg.kind, im, before + [Accepted(im, name, num)], wasRunning, createFails, log, running)
    else seqIn' == seqIn && Asked(msg.kind, im, before, wasRunning, createFails, log, running)
  }

  // ----- what follows in a log -----

  ghost predicate AskedAt(log: seq<Event>, k: nat, id: Ptr, kind: Kind) {
    && (kind == OnRunner ==> k < |log| && log[k] == Ran(id))
    && (kind == OnWorker ==>
          && k < |log|
          && if Live(log[..k]) == 1 then log[k] == Discarded(id) else log[k] == Started(id) || log[k] == NotStarted(id))
  }

  // A message that is handled is not lost: an outdated one is found so, by a number of its package accepted before; any
  // other is accepted, if it has a number, and then run, started, discarded for a busy worker, or its thread fails.
  ghost predicate Follows(log: seq<Event>, arrived: seq<Incoming>, i: nat)
    requires i < |log|
  {
    log[i].Handled? && 1 <= log[i].id <= |arrived| ==>
      var id := log[i].id;
      var msg := arrived[id - 1].msg;
      && (msg.parses && Numbered(msg) ==>
            && i + 1 < |log|
            && var accepted := AcceptedFor(log[..i], msg.name.value);
               if accepted != [] && accepted[|accepted| - 1] >= msg.seq_.value then log[i + 1] == Outdated(id)
               else log[i + 1] == Accepted(id, msg.name.value, msg.seq_.value) && AskedAt(log, i + 2, id, msg.kind))
      && (msg.parses && !Numbered(msg) ==> AskedAt(log, i + 1, id, msg.kind))
  }

  ghost predicate AllFollow(log: seq<Event>, arrived: seq<Incoming>) {
    forall i :: 0 <= i < |log| ==> Follows(log, arrived, i)
  }

  // More events and more arrivals change nothing for what is there.
  lemma FollowsLonger(log: seq<Event>, arrived: seq<Incoming>, log': seq<Event>, arrived': seq<Incoming>)
    requires AllFollow(log, arrived) && AllInTime(log, arrived)
    requires |log| <= |log'| && log'[..|log|] == log && |arrived| <= |arrived'| && arrived'[..|arrived|] == arrived
    ensures forall i :: 0 <= i < |log| ==> Follows(log', arrived', i)
  {
    forall i | 0 <= i < |log| ensures Follows(log', arrived', i) {
      assert Follows(log, arrived, i) && InTime(log[i], arrived);
      assert forall k :: 0 <= k <= |log| ==> log'[..k] == log[..k];
      assert log'[i] == log[i];
      if log[i].Handled? {
        assert arrived'[log[i].id - 1] == arrived[log[i].id - 1];
      }
    }
  }

  lemma AskedFollows(kind: Kind, im: Ptr, before: seq<Event>, wasRunning: bool, createFails: bool, log: seq<Event>,
                     running: bool)
    requires Asked(kind, im, before, wasRunning, createFails, log, running)
    requires Live(before) == if wasRunning then 1 else 0
    ensures AskedAt(log, |before|, im, kind) && |before| <= |log| && log[..|before|] == before
    ensures forall k :: |before| <= k < |log| ==> !log[k].Handled?
  {
    if |log| > |before| {
      assert log[..|before|] == before;
    }
  }

  // What a handled message adds to a log.
  lemma HandledAdds(msg: Message, im: Ptr, at: nat, log0: seq<Event>, seqIn: map<string, int>, wasRunning: bool,
                    createFails: bool, log: seq<Event>, seqIn': map<string, int>, running: bool)
    requires Processed(msg, im, log0 + [Handled(im, at)], seqIn, wasRunning, createFails, log, seqIn', running)
    requires OneWorker(log0, wasRunning)
    ensures |log0| < |log| && log[..|log0|] == log0 && log[|log0|] == Handled(im, at)
    ensures forall k :: |log0| < k < |log| ==> !log[k].Handled?
    ensures msg.parses && !Numbered(msg) ==> AskedAt(log, |log0| + 1, im, msg.kind)
    ensures msg.parses && Numbered(msg) ==> |log0| + 1 < |log|
    ensures msg.parses && Numbered(msg) && msg.name.value in seqIn && seqIn[msg.name.value] >= msg.seq_.value ==>
              log[|log0| + 1] == Outdated(im)
    ensures msg.parses && Numbered(msg) && !(msg.name.value in seqIn && seqIn[msg.name.value] >= msg.seq_.value) ==>
              log[|log0| + 1] == Accepted(im, msg.name.value, msg.seq_.value) && AskedAt(log, |log0| + 2, im, msg.kind)
  {
    var before := log0 + [Handled(im, at)];
    AddEvent(log0, Handled(im, at));
    if msg.parses && Numbered(msg) {
      var e := Accepted(im, msg.name.value, msg.seq_.value);
      AddEvent(before, e);
      if !(msg.name.value in seqIn && seqIn[msg.name.value] >= msg.seq_.value) {
        AskedFollows(msg.kind, im, before + [e], wasRunning, createFails, log, running);
        assert log[..|before| + 1][..|log0|] == log0 && log[..|before| + 1][|before|] == e;
      }
    } else if msg.parses {
      AskedFollows(msg.kind, im, before, wasRunning, createFails, log, running);
      assert log[..|before|][..|log0|] == log0;
    }
  }

  // A round of the runner that handles a message.
  lemma HandledFollows(arrived: seq<Incoming>, im: Ptr, at: nat, log0: seq<Event>, seqIn: map<string, int>,
                       wasRunning: bool, createFails: bool, log: seq<Event>, seqIn': map<string, int>, running: bool)
    requires 1 <= im <= |arrived| && AllFollow(log0, arrived) && AllInTime(log0, arrived)
    requires OneWorker(log0, wasRunning) && forall name :: Sequenced(log0, seqIn, name)
    requires Processed(arrived[im - 1].msg, im, log0 + [Handled(im, at)], seqIn, wasRunning, createFails,
                       log, seqIn', running)
    ensures AllFollow(log, arrived)
  {
    var msg := arrived[im - 1].msg;
    HandledAdds(msg, im, at, log0, seqIn, wasRunning, createFails, log, seqIn', running);
    if Numbered(msg) {
      assert Sequenced(log0, seqIn, msg.name.value);
    }
    FollowsLonger(log0, arrived, log, arrived);
  }

  class Component {
    const queue: Queue
    var arrived: seq<Incoming>     // the memory of all messages
    var now: nat
    var seqIn: map<string, int>
    var workerRunning: bool
    var workerJob: Ptr
    var log: seq<Event>
    var taken: nat                 // how many messages have been taken from the queue

    ghost predicate Valid()
      reads this, queue
    {
      && queue.Valid() && taken + |queue.order| == |arrived|
      && (forall i :: 0 <= i < |queue.order| ==> queue.order[i] == taken + i + 1)
      && (forall i :: 0 <= i < |arrived| ==> arrived[i].ts <= now)
      && Orderly(log, arrived, taken, workerRunning, seqIn)
    }

    constructor ()
      ensures Valid() && fresh(queue) && log == [] && arrived == [] && now == 0 && taken == 0
    {
      queue := new Queue();
      arrived, now, seqIn, workerRunning, workerJob, log, taken := [], 0, map[], false, NULL, [], 0;
    }

    // The clock.
    method Tick(d: nat)
      requires Valid()
      modifies this`now
      ensures Valid() && now == old(now) + d
    {
      now := now + d;
    }

    // handle_message, for this component's runner
    method HandleMessage(msg: Message)
      requires Valid()
      modifies this`arrived, queue
      ensures Valid() && arrived == old(arrived) + [Incoming(msg, now)]
      ensures queue.order == old(queue.order) + [|arrived|]
    {
      ghost var before := arrived;
      arrived := arrived + [Incoming(msg, now)];
      assert AllInTime(log, arrived) by {
        forall i | 0 <= i < |log| ensures InTime(log[i], arrived) {
          assert InTime(log[i], before);
        }
      }
      queue.Append(|arrived|);
    }

    // DL_DELETE of the head of the queue
    method Dequeue() returns (im: Ptr)
      requires Valid() && queue.head != NULL
      modifies queue
      ensures queue.Valid() && old(queue.order) != [] && queue.order == old(queue.order)[1..]
      ensures im == old(queue.order)[0] == taken + 1 && 1 <= im <= |arrived|
    {
      HeadNull(queue.link, queue.head, queue.order);
      im := queue.head;
      queue.Delete(im, 0);
    }

    // One round of runner_loop with a message in the queue.
    method RunnerStep(createFails: bool)
      requires Valid() && queue.head != NULL
      modifies this`log, this`taken, this`seqIn, this`workerRunning, this`workerJob, queue
      ensures Valid() && arrived == old(arrived) && queue.order == old(queue.order)[1..]
      ensures old(queue.order) != [] && 1 <= old(queue.order)[0] <= |arrived|
      ensures taken == old(taken) + 1
      ensures var im := old(queue.order)[0];
              now >= arrived[im - 1].ts + 10_000 ==>
                log == old(log) + [Expired(im, now)] && seqIn == old(seqIn) && workerRunning == old(workerRunning)
      ensures var im := old(queue.order)[0];
              now < arrived[im - 1].ts + 10_000 ==>
                Processed(arrived[im - 1].msg, im, old(log) + [Handled(im, now)], old(seqIn), old(workerRunning),
                          createFails, log, seqIn, workerRunning)
    {
      var im := Dequeue();
      var tout := arrived[im - 1].ts + MSG_TIMEOUT * 1000;
      if now < tout {
        OrderlyTake(log, arrived, taken, workerRunning, seqIn, Handled(im, now));
        log, taken := log + [Handled(im, now)], taken + 1;
        ProcessMessage(im, createFails);
      } else {
        OrderlyTake(log, arrived, taken, workerRunning, seqIn, Expired(im, now));
        log, taken := log + [Expired(im, now)], taken + 1;
      }
    }

    // process_message
    method ProcessMessage(im: Ptr, createFails: bool)
      requires Valid() && 1 <= im <= |arrived|
      modifies this`log, this`seqIn, this`workerRunning, this`workerJob
      ensures Valid()
      ensures Processed(arrived[im - 1].msg, im, old(log), old(seqIn), old(workerRunning), createFails,
                        log, seqIn, workerRunning)
      ensures old(workerRunning) ==> workerJob == old(workerJob)
    {
      var msg := arrived[im - 1].msg;
      if msg.parses {
        if msg.seq_.Some? && msg.name.Some? {
          var outdated := ChkIncomingSeqOutdated(im, msg.name.value, msg.seq_.value);
          if outdated {
            return;
          }
        }
        match msg.kind
        case Unhandled =>
        case OnRunner => ProcessRun(im, false, createFails);
        case OnWorker => ProcessRun(im, true, createFails);
      }
    }

    // handler_chk_incoming_seq_outdated
    method ChkIncomingSeqOutdated(im: Ptr, name: string, num: int) returns (outdated: bool)
      requires Valid()
      modifies this`log, this`seqIn
      ensures Valid() && (outdated <==> name in old(seqIn) && old(seqIn)[name] >= num)
      ensures seqIn == if outdated then old(seqIn) else old(seqIn)[name := num]
      ensures log == old(log) + [if outdated then Outdated(im) else Accepted(im, name, num)]
    {
      outdated := false;
      if name in seqIn && seqIn[name] >= num {
        outdated := true;
      }
      if outdated {
        OrderlyAdd(log, arrived, taken, workerRunning, seqIn, Outdated(im), workerRunning, seqIn);
        log := log + [Outdated(im)];
      } else {
        OrderlyAdd(log, arrived, taken, workerRunning, seqIn, Accepted(im, name, num), workerRunning,
                   seqIn[name := num]);
        log := log + [Accepted(im, name, num)];
        seqIn := seqIn[name := num];
      }
    }

    // process_run; the thread may not start.
    method ProcessRun(im: Ptr, turnover: bool, createFails: bool)
      requires Valid()
      modifies this`log, this`workerRunning, this`workerJob
      ensures Valid()
      ensures !turnover ==> log == old(log) + [Ran(im)] && workerRunning == old(workerRunning)
      ensures turnover && old(workerRunning) ==> log == old(log) + [Discarded(im)] && workerRunning
      ensures turnover && !old(workerRunning) && createFails ==> log == old(log) + [NotStarted(im)] && !workerRunning
      ensures turnover && !old(workerRunning) && !createFails ==> log == old(log) + [Started(im)] && workerRunning
      ensures workerJob == if turnover && !old(workerRunning) then im else old(workerJob)
    {
      if !turnover {
        OrderlyAdd(log, arrived, taken, workerRunning, seqIn, Ran(im), workerRunning, seqIn);
        log := log + [Ran(im)];
      } else if !workerRunning {
        workerRunning, workerJob := true, im;
        if createFails {
          OrderlyAdd(log, arrived, taken, false, seqIn, NotStarted(im), false, seqIn);
          log := log + [NotStarted(im)];
          workerRunning := false;
        } else {
          OrderlyAdd(log, arrived, taken, false, seqIn, Started(im), true, seqIn);
          log := log + [Started(im)];
        }
      } else {
        OrderlyAdd(log, arrived, taken, workerRunning, seqIn, Discarded(im), workerRunning, seqIn);
        log := log + [Discarded(im)];
      }
    }

    // The end of worker_action.
    method WorkerEnds()
      requires Valid() && workerRunning
      modifies this`log, this`workerRunning
      ensures Valid() && log == old(log) + [Finished(workerJob)]
    {
      OrderlyAdd(log, arrived, taken, workerRunning, seqIn, Finished(workerJob), false, seqIn);
      log := log + [Finished(workerJob)];
      workerRunning := false;
    }
  }

  // One step of a run.
  datatype Step = Arrive(msg: Message) | Clock(d: nat) | Runner(createFails: bool) | Worker

  // The clock, the messages and how many of them have been taken after some steps.
  datatype Progress = Progress(now: nat, arrived: seq<Incoming>, taken: nat)

  function NextProgress(b: Progress, step: Step): Progress {
    match step
    case Arrive(msg) => b.(arrived := b.arrived + [Incoming(msg, b.now)])
    case Clock(d) => b.(now := b.now + d)
    case Runner(_) => if b.taken < |b.arrived| then b.(taken := b.taken + 1) else b
    case Worker => b
  }

  function ProgressOf(steps: seq<Step>): Progress {
    if steps == [] then Progress(0, [], 0) else NextProgress(ProgressOf(steps[..|steps| - 1]), steps[|steps| - 1])
  }

  method Do(c: Component, step: Step)
    requires c.Valid() && AllFollow(c.log, c.arrived)
    modifies c, c.queue
    ensures c.Valid() && AllFollow(c.log, c.arrived)
    ensures Progress(c.now, c.arrived, c.taken)
            == NextProgress(Progress(old(c.now), old(c.arrived), old(c.taken)), step)
    ensures step.Worker? ==>
              && c.log == old(c.log) + (if old(c.workerRunning) then [Finished(old(c.workerJob))] else [])
              && !c.workerRunning
  {
    ghost var log, arrived, now := c.log, c.arrived, c.now;
    match step
    case Arrive(msg) =>
      c.HandleMessage(msg);
      FollowsLonger(log, arrived, log, c.arrived);
    case Clock(d) => c.Tick(d);
    case Runner(createFails) =>
      if c.queue.head != NULL {
        ghost var im, seqIn, running := c.queue.head, c.seqIn, c.workerRunning;
        HeadNull(c.queue.link, c.queue.head, c.queue.order);
        c.RunnerStep(createFails);
        if now < arrived[im - 1].ts + 10_000 {
          HandledFollows(arrived, im, now, log, seqIn, running, createFails, c.log, c.seqIn, c.workerRunning);
        } else {
          FollowsLonger(log, arrived, c.log, arrived);
        }
      }
    case Worker =>
      if c.workerRunning {
        c.WorkerEnds();
        FollowsLonger(log, arrived, c.log, arrived);
      }
  }

  // Every interleaving: messages are taken in arrival order, each at most once; each is handled only when it is less
  // than ten seconds old; what is handled is not lost; at most one worker job is live at any moment; and the sequence
  // numbers accepted for a package increase strictly.
  method Run(steps: seq<Step>) returns (log: seq<Event>, arrived: seq<Incoming>, taken: nat)
    ensures taken <= |arrived| && Taken(log) == Upto(taken)
    ensures AllInTime(log, arrived) && AllFollow(log, arrived)
    ensures forall i :: 0 <= i <= |log| ==> 0 <= Live(log[..i]) <= 1
    ensures forall name :: Ascending(AcceptedFor(log, name))
    ensures arrived == ProgressOf(steps).arrived && taken == ProgressOf(steps).taken
  {
    var c := new Component();
    for i := 0 to |steps|
      invariant c.Valid() && fresh(c) && fresh(c.queue) && AllFollow(c.log, c.arrived)
      invariant Progress(c.now, c.arrived, c.taken) == ProgressOf(steps[..i])
    {
      assert steps[..i + 1][..i] == steps[..i];
      Do(c, steps[i]);
    }
    assert steps[..|steps|] == steps;
    log, arrived, taken := c.log, c.arrived, c.taken;
    forall name ensures Ascending(AcceptedFor(log, name)) {
      assert Sequenced(log, c.seqIn, name);
    }
  }

  // A message that finds the worker busy is lost for good: its sequence number has been used up, so the same message
  // is outdated when it comes again, even after the worker has finished.
  method LostWhenBusy(c: Component, im: Ptr, again: Ptr, createFails: bool)
    requires c.Valid() && 1 <= im <= |c.arrived| && 1 <= again <= |c.arrived| && c.workerRunning
    requires c.arrived[im - 1].msg == c.arrived[again - 1].msg
    requires c.arrived[im - 1].msg.kind == OnWorker && IsAccepted(c.arrived[im - 1].msg, c.seqIn)
    modifies c
    ensures var msg := old(c.arrived[im - 1].msg);
            c.log == old(c.log) + [Accepted(im, msg.name.value, msg.seq_.value)] + [Discarded(im)]
                       + [Finished(old(c.workerJob))] + [Outdated(again)]
  {
    c.ProcessMessage(im, createFails);
    c.WorkerEnds();
    c.ProcessMessage(again, createFails);
  }
}
