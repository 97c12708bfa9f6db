/** The calling thread's code of soko_falcon_pipeline.c over its mutable record. */
module RefillPipeline {
  import opened Words
  import opened RefillProtocol
  import opened TokenQueue

  /** How the scheduler and the outside behave during one acquire. */
  datatype Outside = Outside(turns: seq<nat>, code: int, threadOk: bool)

  class Pipeline {
    const c: Config
    const queue: RingQueue
    const bankRemaining: array<int>
    var nextSeed: u32
    var inFlight: bool
    var done: bool
    var started: bool
    var bank: nat
    var seed: u32
    var result: int
    var thread: Thread
    ghost var st: State

    /** The fields agree with a protocol state that satisfies the invariant. */
    ghost predicate Valid()
      reads this, queue, queue.items, bankRemaining
    {
      ValidConfig(c) && Inv(c, st) && Stored(st.queue, st.remaining) && Shared() &&
      st.launches > 0 && nextSeed == st.nextSeed
    }

    /** The ring buffer holds q and the counters are r. */
    ghost predicate Stored(q: seq<Ref>, r: seq<int>)
      reads queue, queue.items, bankRemaining
    {
      queue.Valid() && queue.items.Length == Capacity(c) && q == queue.Contents() && r == bankRemaining[..]
    }

    ghost predicate Shared()
      reads this
    {
      st.inFlight == inFlight && st.done == done && st.started == started && st.bank == bank && st.result == result &&
      st.thread == thread && (thread != NoThread ==> |st.seeds| > 0 && seed == st.seeds[|st.seeds| - 1])
    }

    /** soko_falcon_refill_pipeline_init, for arguments that it accepts. */
    constructor (c: Config)
      requires ValidConfig(c)
      ensures Valid() && this.c == c && st == Initial(c)
      ensures fresh(queue) && fresh(queue.items) && fresh(bankRemaining)
    {
      MulPos(c.tokens, c.bankCount);
      var q := new RingQueue(Capacity(c));
      var ok := q.EnqueueBankTokens(0, c.tokens);
      this.c := c;
      queue := q;
      bankRemaining := new int[c.bankCount](i => if i == 0 then c.tokens else 0);
      nextSeed := c.seedBase;
      inFlight, done, started := false, false, false;
      bank, seed, result, thread := 0, 0, 0, NoThread;
      st := Initial(c);
      new;
      InitialInv(c);
      assert bankRemaining[..] == Initial(c).remaining;
    }

    /** A step of the caller that only moves it to another place in acquire. */
    ghost method Move(e: Event, m: Main, from: State)
      requires Valid() && Path(c, from, st) && Enabled(st, e) && Shaped(st) && Step(c, st, e) == st.(main := m)
      modifies this`st
      ensures Valid() && Path(c, from, st) && st == old(st).(main := m)
    {
      hide Inv, Path, Initial, Leads, Capacity, Step, Seed, Enabled, Stored;
      PathStep(c, from, st, e);
      st := st.(main := m);
    }

    /** One step of the worker thread: soko_refill_thread_proc. */
    method WorkerTurn(code: int, ghost from: State)
      requires Valid() && Path(c, from, st) && thread != NoThread
      modifies this
      ensures Valid() && Path(c, from, st) && st.main == old(st.main) && Kept(st, old(st))
      ensures ThreadRank(thread) == old(ThreadRank(thread)) - 1
      ensures old(done) ==> done && result == old(result)
    {
      hide Inv, Path, Initial, Leads, Capacity, Step, Seed, Stored;
      PathStep(c, from, st, Worker(code));
      WorkerFields(c, st, code);
      if thread == Running {
        result := code;
        thread := Generated;
      } else if thread == Generated {
        done := true;
        thread := DoneStored;
      } else {
        inFlight := false;
        thread := NoThread;
      }
      st := Step(c, st, Worker(code));
    }

    /** The worker thread takes up to `turns` steps. */
    method RunWorker(turns: nat, code: int, ghost from: State)
      requires Valid() && Path(c, from, st)
      modifies this
      ensures Valid() && Path(c, from, st) && st.main == old(st.main) && Kept(st, old(st))
      ensures thread == old(thread) || ThreadRank(thread) < old(ThreadRank(thread))
      ensures turns >= 1 && old(thread) != NoThread ==> thread != old(thread)
      ensures turns >= 3 ==> thread == NoThread
      ensures old(done) ==> done && result == old(result)
    {
      hide Path, Valid;
      for i := 0 to turns
        invariant Valid() && Path(c, from, st) && st.main == old(st.main) && Kept(st, old(st))
        invariant ThreadRank(thread) == old(ThreadRank(thread)) - i || (thread == NoThread && i >= old(ThreadRank(thread)))
        invariant old(done) ==> done && result == old(result)
      {
        if thread == NoThread {
          return;
        }
        WorkerTurn(code, from);
      }
    }

    /** soko_join_refill_worker: waits for the thread to end. */
    method JoinRefillWorker(code: int, ghost from: State)
      requires Valid() && Path(c, from, st) && done && st.main.Joining?
      modifies this
      ensures Valid() && Path(c, from, st) && st.main == old(st.main) && thread == NoThread && done && result == old(result) && Kept(st, old(st))
    {
      hide Inv, Path, Initial, Leads, Capacity;
      RunWorker(3, code, from);
    }

    /** soko_finish_completed_refill; `fromWait` tells its second call in acquire from the first. */
    method FinishCompletedRefill(ghost fromWait: bool, code: int, ghost from: State) returns (status: Option)
      requires Valid() && Path(c, from, st) && st.main == if fromWait then Joining(true) else Check
      modifies this, queue, queue.items, bankRemaining
      ensures Valid() && Path(c, from, st)
      ensures status == None ==> st.main == (if fromWait then Pop else Test) && |st.queue| >= |old(st.queue)|
      ensures st.served == old(st.served)
      ensures status.Some? ==> st.main == Returned(status.value) && !status.value.Served?
    {
      hide Inv, Path, Initial, Leads, Enqueue, Capacity, Seed, Finish, Stored;
      JoiningMeansDone(c, st);
      ShapeOf(c, st);
      if !done {
        Move(Caller(true), Test, from);
        return None;
      }
      if !fromWait {
        Move(Caller(true), Joining(false), from);
      }
      JoinRefillWorker(code, from);
      status := EnqueueCompleted(from);
    }

    /** The rest of soko_finish_completed_refill, after the join. */
    method EnqueueCompleted(ghost from: State) returns (status: Option)
      requires Valid() && Path(c, from, st) && st.main.Joining? && thread == NoThread
      modifies this, queue, queue.items, bankRemaining
      ensures Valid() && Path(c, from, st)
      ensures status == None ==> st.main == (if old(st.main.fromWait) then Pop else Test) && |st.queue| >= |old(st.queue)|
      ensures st.served == old(st.served)
      ensures status.Some? ==> st.main == Returned(status.value) && !status.value.Served?
    {
      hide Inv, Path, Initial, Leads, Enqueue, Capacity, Seed, Step, Finish;
      PathStep(c, from, st, Caller(true));
      FinishFields(c, st);
      ghost var next := Step(c, st, Caller(true));
      started := false;
      done := false;
      if result != 0 {
        st := next;
        return Some(GeneratorFailed(result));
      }
      var ok := queue.EnqueueBankTokens(bank, c.tokens);
      if !ok {
        st := next;
        return Some(PushFailed);
      }
      bankRemaining[bank] := c.tokens;
      st := next;
      return None;
    }

    /** soko_find_empty_bank */
    method FindEmptyBank() returns (b: nat)
      ensures b == FindEmpty(bankRemaining[..], 0)
    {
      b := 0;
      while b < bankRemaining.Length
        invariant b <= bankRemaining.Length && FindEmpty(bankRemaining[..], 0) == FindEmpty(bankRemaining[..], b)
      {
        if bankRemaining[b] == 0 {
          return;
        }
        b := b + 1;
      }
    }

    /** The stores of soko_start_refill_worker. */
    method Launch(b: nat, threadOk: bool)
      modifies this`bank, this`seed, this`nextSeed, this`result, this`done, this`inFlight, this`started, this`thread
      ensures bank == b && seed == old(nextSeed) && nextSeed == W32(old(nextSeed) + 1) && result == 0 && !done
      ensures inFlight == threadOk && started == threadOk && thread == if threadOk then Running else NoThread
    {
      hide W32;
      bank := b;
      seed := nextSeed;
      nextSeed := W32(nextSeed + 1);
      result := 0;
      done := false;
      inFlight := true;
      started := true;
      thread := Running;
      if !threadOk {
        thread := NoThread;
        inFlight := false;
        started := false;
      }
    }

    /** soko_start_refill_worker, which refuses while a refill is in flight. */
    method StartRefillWorker(b: nat, threadOk: bool, ghost from: State) returns (ok: bool)
      requires Valid() && Path(c, from, st) && st.main == Test && b == FindEmpty(st.remaining, 0)
      requires !inFlight ==> MayStart(c, st)
      modifies this
      ensures Valid() && Path(c, from, st) && ok == (threadOk && !old(inFlight)) && Kept(st, old(st))
      ensures old(inFlight) ==> unchanged(this)
      ensures !old(inFlight) ==> st.main == if ok then Wait else Returned(StartFailed)
    {
      hide Inv, Path, Initial, Leads, Capacity, Step, MayStart, FindEmpty, Seed, W32, Stored, ValidConfig;
      if inFlight {
        return false;
      }
      PathStep(c, from, st, Caller(threadOk));
      StartFields(c, st, threadOk);
      ghost var next := Step(c, st, Caller(threadOk));
      Launch(b, threadOk);
      assert Stored(next.queue, next.remaining);
      st := next;
      ok := threadOk;
    }

    /** The end of acquire: the reference at the head of the queue is handed out. */
    method PopToken(ghost from: State) returns (o: Outcome)
      requires Valid() && Path(c, from, st) && st.main == Pop
      modifies this, queue, bankRemaining
      ensures Valid() && Path(c, from, st) && Agrees(o, st.main) && HandsOut(o, old(st), st)
    {
      hide Inv, Path, Initial, Leads, Capacity;
      PathStep(c, from, st, Caller(true));
      RefInside(c, st);
      PopServes(c, st);
      var ok, r := queue.Pop();
      if !ok {
        assert false;
      }
      bankRemaining[r.bank] := bankRemaining[r.bank] - 1;
      st := Step(c, st, Caller(true));
      return Handed(r.bank, r.index);
    }

    /**
     * soko_falcon_refill_pipeline_acquire, for any behaviour of the worker: `turns` says how many
     * steps it takes before each look of the caller at the shared flags, and after those it takes
     * one at a time. The call is a run of the protocol that ends with the outcome returned, and records
     * as served exactly the token that it hands out. On an
     * empty queue with a negative threshold it would not end (RefillProtocol.NegativeStarves).
     */
    method Acquire(out: Outside) returns (o: Outcome)
      requires Valid() && (c.threshold >= 0 || |st.queue| > 0) && (st.main.Fresh? || st.main.Returned?)
      modifies this, queue, queue.items, bankRemaining
      ensures Valid() && Path(c, old(st), st) && Agrees(o, st.main)
      ensures HandsOut(o, old(st), st)
    {
      hide Inv, Path, Valid, MayStart;
      ghost var from := st;
      PathRefl(c, from);
      Enter(from);
      var turns := out.turns;
      RunWorker(if |turns| > 0 then turns[0] else 0, out.code, from);
      var status := FinishCompletedRefill(false, out.code, from);
      if status.Some? {
        return Failed(status.value);
      }
      RunWorker(if |turns| > 1 then turns[1] else 0, out.code, from);
      var ok := MaybeStart(out.threadOk, from);
      if !ok {
        return Failed(StartFailed);
      }
      status := AwaitToken(turns, out.code, from);
      if status.Some? {
        return Failed(status.value);
      }
      o := PopToken(from);
    }

    ghost method Enter(from: State)
      requires Valid() && Path(c, from, st) && (st.main.Fresh? || st.main.Returned?)
      modifies this`st
      ensures Valid() && Path(c, from, st) && st.main == Check && Kept(st, old(st))
    {
      hide Inv, Path, Initial, Leads, Capacity, Seed;
      ShapeOf(c, st);
      Move(Call, Check, from);
    }

    /** The second look at the flags, and the start of a refill when few tokens are left. */
    method MaybeStart(threadOk: bool, ghost from: State) returns (ok: bool)
      requires Valid() && Path(c, from, st) && st.main == Test
      modifies this
      ensures Valid() && Path(c, from, st) && Kept(st, old(st))
      ensures st.main == if ok then Wait else Returned(StartFailed)
    {
      hide Inv, Path, Initial, Leads, Capacity, MayStart, FindEmpty, Seed, Start;
      var b := FindEmptyBank();
      StartGuard(c, st);
      ShapeOf(c, st);
      if queue.count <= c.threshold && !inFlight && b < bankRemaining.Length {
        ok := StartRefillWorker(b, threadOk, from);
      } else {
        Move(Caller(true), Wait, from);
        ok := true;
      }
    }

    /** The wait loop; a return value of None leaves a token in the queue. */
    method AwaitToken(turns: seq<nat>, code: int, ghost from: State) returns (status: Option)
      requires Valid() && Path(c, from, st) && st.main == Wait && (c.threshold >= 0 || |st.queue| > 0)
      modifies this, queue, queue.items, bankRemaining
      ensures Valid() && Path(c, from, st) && st.served == old(st.served)
      ensures status == None ==> st.main == Pop
      ensures status.Some? ==> st.main == Returned(status.value) && !status.value.Served?
    {
      hide Inv, Path, Initial, Leads, Capacity, Seed;
      var i := 2;
      while queue.count == 0
        invariant Valid() && Path(c, from, st) && st.main == Wait && st.served == old(st.served) && (c.threshold >= 0 || |st.queue| > 0)
        decreases if i < |turns| then |turns| - i else 0, ThreadRank(thread)
      {
        WaitMeansActive(c, st);
        RunWorker(if i < |turns| then turns[i] else 1, code, from);
        ShapeOf(c, st);
        if done {
          Move(Caller(true), Joining(true), from);
          status := FinishCompletedRefill(true, code, from);
          return;
        }
        i := i + 1;
      }
      ShapeOf(c, st);
      Move(Caller(true), Pop, from);
      status := None;
    }
  }

  /** soko_falcon_refill_pipeline_init; null stands for its error code -210. */
  method Init(bankCount: int, tokens: int, threshold: int, seedBase: u32) returns (p: Pipeline?)
    ensures p == null <==> bankCount < 2 || tokens <= 0
    ensures p != null ==>
      fresh(p) && p.Valid() && p.c == Config(bankCount, tokens, threshold, seedBase) && p.st == Initial(p.c)
  {
    if bankCount < 2 || tokens <= 0 {
      return null;
    }
    p := new Pipeline(Config(bankCount, tokens, threshold, seedBase));
  }

  /** What acquire gives its caller: a place in a bank, or an error. */
  datatype Outcome = Handed(bank: nat, index: nat) | Failed(status: Status)

  ghost predicate Agrees(o: Outcome, m: Main) {
    match o
    case Handed(bank, index) =>
      m.Returned? && m.status.Served? && m.status.view.bank == bank && m.status.view.token.index == index
    case Failed(status) => !status.Served? && m == Returned(status)
  }

  /** The queue and the history of served tokens are as before. */
  ghost predicate Kept(s: State, was: State) {
    s.queue == was.queue && s.served == was.served
  }

  /** What is handed out is recorded as served: the token at that index of the refill in that bank. */
  ghost predicate HandsOut(o: Outcome, was: State, s: State) {
    match o
    case Handed(bank, index) => bank < |s.contents| && s.served == was.served + [Token(s.contents[bank], index)]
    case Failed(_) => s.served == was.served
  }

  lemma PopServes(c: Config, s: State)
    requires Inv(c, s) && s.main.Pop?
    ensures |s.queue| > 0 && Shaped(s) && s.queue[0].bank < |s.contents|
    ensures var t := Step(c, s, Caller(true));
      t.served == s.served + [Token(s.contents[s.queue[0].bank], s.queue[0].index)] && t.contents == s.contents
  {
    hide HistoryOk, Accounted;
  }

  lemma ShapeOf(c: Config, s: State)
    requires Inv(c, s)
    ensures Shaped(s)
  {
  }

  lemma StartGuard(c: Config, s: State)
    ensures MayStart(c, s) <==> |s.queue| <= c.threshold && !s.inFlight && FindEmpty(s.remaining, 0) < |s.remaining|
  {
  }

  lemma WaitMeansActive(c: Config, s: State)
    requires Inv(c, s) && s.main.Wait? && |s.queue| == 0 && c.threshold >= 0
    ensures Active(s)
  {
  }

  datatype Option = None | Some(value: Status)

  lemma WorkerFields(c: Config, s: State, code: int)
    requires Inv(c, s) && s.thread != NoThread
    ensures Shaped(s) && (s.done ==> s.thread == DoneStored)
    ensures var t := Step(c, s, Worker(code));
      t.main == s.main && t.queue == s.queue && t.remaining == s.remaining && t.launches == s.launches && t.bank == s.bank &&
      t.nextSeed == s.nextSeed && t.seeds == s.seeds && t.served == s.served &&
      t.started == s.started && t.result == (if s.thread == Running then code else s.result) &&
      t.done == (s.done || s.thread == Generated) && t.inFlight == (s.inFlight && s.thread != DoneStored) &&
      t.thread == (if s.thread == Running then Generated else if s.thread == Generated then DoneStored else NoThread)
  {
    hide QueueOk, HistoryOk, Accounted, MainOk;
  }

  lemma FinishFields(c: Config, s: State)
    requires Inv(c, s) && s.main.Joining? && s.thread == NoThread
    ensures Shaped(s)
    ensures var t, e := Step(c, s, Caller(true)), Enqueue(s.queue, s.bank, 0, c.tokens, Capacity(c));
      t.launches == s.launches && t.bank == s.bank && t.result == s.result && t.thread == s.thread && t.inFlight == s.inFlight &&
      t.nextSeed == s.nextSeed && t.seeds == s.seeds && t.served == s.served &&
      !t.started && !t.done &&
      (s.result != 0 ==> t.queue == s.queue && t.remaining == s.remaining && t.main == Returned(GeneratorFailed(s.result))) &&
      (s.result == 0 ==> t.queue == e.0) &&
      (s.result == 0 && !e.1 ==> t.remaining == s.remaining && t.main == Returned(PushFailed)) &&
      (s.result == 0 && e.1 ==> t.remaining == s.remaining[s.bank := c.tokens] && t.main == if s.main.fromWait then Pop else Test)
  {
    hide QueueOk, HistoryOk, Accounted, MainOk, Enqueue;
  }

  lemma StartFields(c: Config, s: State, threadOk: bool)
    requires Inv(c, s) && s.main == Test && MayStart(c, s)
    ensures Shaped(s) && s.thread == NoThread
    ensures var t := Step(c, s, Caller(threadOk));
      t.served == s.served && t.nextSeed == W32(s.nextSeed + 1) && t.seeds == s.seeds + [s.nextSeed] &&
      t.launches == s.launches + 1 && t.bank == FindEmpty(s.remaining, 0) && t.result == 0 && !t.done &&
      t.inFlight == threadOk && t.started == threadOk && t.thread == (if threadOk then Running else NoThread) &&
      t.queue == s.queue && t.remaining == s.remaining && t.main == if threadOk then Wait else Returned(StartFailed)
  {
    hide QueueOk, HistoryOk, Accounted, MainOk;
  }

  lemma JoiningMeansDone(c: Config, s: State)
    requires Inv(c, s)
    ensures s.main.Joining? ==> s.done
  {
  }

  lemma RefInside(c: Config, s: State)
    requires Inv(c, s) && s.main.Pop?
    ensures |s.queue| > 0 && s.queue[0].bank < |s.remaining|
  {
  }
}
