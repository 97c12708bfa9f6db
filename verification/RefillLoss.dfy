/** Refills that are generated and never served: when the pipeline loses them, and when it cannot. */
module RefillLoss {
  import opened Words
  import opened RefillProtocol

  // ---------------------------------------------------------------------
  // Which step drops a refill
  // ---------------------------------------------------------------------

  /**
   * The worker has finished, with success, since the caller looked at `done`, and the caller
   * now starts the next refill over its record.
   */
  predicate Loses(c: Config, s: State, e: Event) {
    e.Caller? && s.main.Test? && |s.queue| <= c.threshold && s.done && s.thread == NoThread && s.result == 0
  }

  /** A step drops a refill exactly in that situation; nothing else ever drops one. */
  lemma DropsExactly(c: Config, s: State, e: Event)
    requires Inv(c, s) && Enabled(s, e)
    ensures Shaped(s)
    ensures Step(c, s, e).dropped == s.dropped + if Loses(c, s, e) then [s.launches - 1] else []
  {
    hide HistoryOk, Accounted, Enqueue;
    if Loses(c, s, e) {
      assert s.remaining[s.bank] == 0;
    }
  }

  /** No step of the run starts a refill over a finished one. */
  ghost predicate Careful(c: Config, s: State, es: seq<Event>)
    decreases |es|
  {
    |es| > 0 ==> Shaped(s) && Enabled(s, es[0]) && !Loses(c, s, es[0]) && Careful(c, Step(c, s, es[0]), es[1..])
  }

  lemma {:induction false} DroppedInRun(c: Config, s: State, es: seq<Event>, t: State)
    requires Inv(c, s) && Leads(c, s, es, t)
    ensures s.dropped <= t.dropped
    ensures t.dropped == s.dropped <==> Careful(c, s, es)
    decreases |es|
  {
    hide Inv, Step, Loses;
    if |es| > 0 {
      StepInv(c, s, es[0]);
      DropsExactly(c, s, es[0]);
      DroppedInRun(c, Step(c, s, es[0]), es[1..], t);
    }
  }

  /** Every refill generated so far is enqueued, or waits to be. */
  ghost predicate NothingLost(s: State) {
    s.launches > 0 && multiset(s.made) == multiset(s.batches) + PendingRefills(s)
  }

  lemma LostIsDropped(c: Config, s: State)
    requires Inv(c, s)
    ensures NothingLost(s) <==> s.dropped == []
  {
    hide PendingRefills;
    InvAccounted(c, s);
    var a, b, d := multiset(s.batches), PendingRefills(s), multiset(s.dropped);
    assert |a + d + b| == |a| + |d| + |b| && |a + b| == |a| + |b|;
    assert |d| == |s.dropped|;
    if s.dropped == [] {
      assert a + d + b == a + b;
    }
  }

  /** Within one run: nothing is lost if and only if no refill is started over a finished one. */
  lemma NothingLostInRun(c: Config, es: seq<Event>, t: State)
    requires ValidConfig(c) && Leads(c, Initial(c), es, t)
    ensures NothingLost(t) <==> Careful(c, Initial(c), es)
  {
    hide Inv, Leads, Careful, NothingLost;
    InitialInv(c);
    LeadsInv(c, Initial(c), es, t);
    DroppedInRun(c, Initial(c), es, t);
    LostIsDropped(c, t);
  }

  lemma InvAccounted(c: Config, s: State)
    requires Inv(c, s)
    ensures Accounted(s)
  {
  }

  lemma {:induction false} RisingOnce(r: seq<nat>, limit: int, k: nat)
    requires Rising(r, limit)
    ensures multiset(r)[k] <= 1
  {
    if |r| > 0 {
      var n := |r| - 1;
      RisingOnce(r[..n], limit, k);
      assert r == r[..n] + [r[n]];
      if r[n] == k {
        assert k !in r[..n];
      }
    }
  }

  /** A dropped refill stays lost: in no continuation is any of its tokens served. */
  lemma LostForever(c: Config, s: State, es: seq<Event>, t: State, k: nat, i: nat)
    requires Reachable(c, s) && k in s.dropped && Leads(c, s, es, t)
    ensures Token(k, i) !in t.served
  {
    hide Inv, Leads, Reachable, All, Tokens;
    ReachableInv(c, s);
    LeadsInv(c, s, es, t);
    DroppedInRun(c, s, es, t);
    InvAccounted(c, t);
    InvHistory(c, t);
    RisingOnce(t.made, if t.thread == Running then t.launches - 1 else t.launches, k);
    assert k in t.dropped;
    assert multiset(t.dropped)[k] >= 1;
    assert multiset(t.made)[k] >= multiset(t.dropped)[k] + multiset(t.batches)[k];
    assert k !in t.batches;
    forall j | 0 <= j < |t.served|
      ensures t.served[j] != Token(k, i)
    {
      assert t.served[j] == All(t.batches, c.tokens)[j];
      AllAt(t.batches, c.tokens, j);
    }
  }

  lemma InvHistory(c: Config, s: State)
    requires Inv(c, s)
    ensures HistoryOk(c, s) && ValidConfig(c)
  {
  }

  // ---------------------------------------------------------------------
  // A threshold of at most 0: nothing is ever lost
  // ---------------------------------------------------------------------

  /** A refill is under way only while the caller waits for it with an empty queue. */
  ghost predicate Serial(c: Config, s: State) {
    s.dropped == [] &&
    (Active(s) ==> (s.main.Wait? && |s.queue| == 0) || (s.main.Joining? && s.main.fromWait))
  }

  lemma SerialStep(c: Config, s: State, e: Event)
    requires Inv(c, s) && Serial(c, s) && c.threshold <= 0 && Enabled(s, e)
    ensures Shaped(s) && Serial(c, Step(c, s, e))
  {
    hide QueueOk, HistoryOk, Accounted, MainOk, SeedsOk, Enqueue;
    assert Shaped(s);
  }

  lemma {:induction false} SerialRun(c: Config, s: State, es: seq<Event>, t: State)
    requires Inv(c, s) && Serial(c, s) && c.threshold <= 0 && Leads(c, s, es, t)
    ensures Serial(c, t)
    decreases |es|
  {
    hide Inv, Serial, Step;
    if |es| > 0 {
      StepInv(c, s, es[0]);
      SerialStep(c, s, es[0]);
      SerialRun(c, Step(c, s, es[0]), es[1..], t);
    }
  }

  lemma NothingDropped(c: Config, s: State)
    requires Reachable(c, s) && c.threshold <= 0
    ensures s.dropped == []
  {
    hide Inv, Leads;
    InitialInv(c);
    var es :| Leads(c, Initial(c), es, s);
    SerialRun(c, Initial(c), es, s);
  }

  // ---------------------------------------------------------------------
  // A threshold of at least 1: some run loses a refill
  // ---------------------------------------------------------------------

  /** Between two calls: no refill is under way, one bank is empty, and a token is left. */
  ghost predicate Between(s: State) {
    (s.main.Fresh? || s.main.Returned?) && !Active(s) && |s.queue| > 0 && |s.remaining| == |s.contents| >= 2 && s.remaining[1] == 0 && s.launches > 0
  }

  /** From the call of acquire to its second look at the flags. */
  lemma Enter(c: Config, r: State, s: State) returns (t: State)
    requires Path(c, r, s) && Inv(c, s) && (s.main.Fresh? || s.main.Returned?) && !s.done
    ensures Path(c, r, t) && Inv(c, t) && t == s.(main := Test)
  {
    hide Path, Inv, Leads;
    PathStep(c, r, s, Call);
    var s1 := Step(c, s, Call);
    PathStep(c, r, s1, Caller(true));
    t := Step(c, s1, Caller(true));
  }

  /** From the wait loop, with a token in the queue, to the return of acquire. */
  lemma Serve(c: Config, r: State, s: State) returns (t: State)
    requires Path(c, r, s) && Inv(c, s) && s.main.Wait? && |s.queue| > 0
    ensures Path(c, r, t) && Inv(c, t) && t.main.Returned? && t.queue == s.queue[1..]
    ensures t.(main := Wait, queue := s.queue, remaining := s.remaining, served := s.served) == s
    ensures |t.remaining| == |s.remaining| && forall b :: 0 <= b < |s.remaining| && s.remaining[b] == 0 ==> t.remaining[b] == 0
  {
    hide Path, Leads, Count, HistoryOk, Accounted;
    PathStep(c, r, s, Caller(true));
    var s1 := Step(c, s, Caller(true));
    assert Inv(c, s1);
    PathStep(c, r, s1, Caller(true));
    t := Step(c, s1, Caller(true));
    HeadCounted(c, s);
  }

  lemma HeadCounted(c: Config, s: State)
    requires QueueOk(c, s) && |s.queue| > 0
    ensures s.queue[0].bank < |s.remaining| == |s.contents| && s.remaining[s.queue[0].bank] > 0
  {
    assert Count(s.queue, s.queue[0].bank) > 0;
  }

  /** One acquire with more tokens left than the threshold. */
  lemma ServeOne(c: Config, r: State, s: State) returns (t: State)
    requires Path(c, r, s) && Inv(c, s) && Between(s) && 1 <= c.threshold < |s.queue|
    ensures Path(c, r, t) && Inv(c, t) && Between(t) && |t.queue| == |s.queue| - 1 && t.dropped == s.dropped
  {
    hide Path, Leads, Inv;
    var s1 := Enter(c, r, s);
    PathStep(c, r, s1, Caller(true));
    var s2 := Step(c, s1, Caller(true));
    t := Serve(c, r, s2);
  }

  /** The worker runs from the generator to its end. */
  lemma WorkerEnds(c: Config, r: State, s: State) returns (t: State)
    requires Path(c, r, s) && Inv(c, s) && s.thread == Running && s.launches > 0
    ensures Path(c, r, t) && Inv(c, t) && t.main == s.main && t.queue == s.queue && t.remaining == s.remaining && t.launches == s.launches
    ensures t.thread == NoThread && !t.inFlight && t.done && t.result == 0 && t.dropped == s.dropped
    ensures t.made == s.made + [s.launches - 1]
  {
    hide Path, Leads, Inv;
    PathStep(c, r, s, Worker(0));
    var s1 := Step(c, s, Worker(0));
    PathStep(c, r, s1, Worker(0));
    var s2 := Step(c, s1, Worker(0));
    PathStep(c, r, s2, Worker(0));
    t := Step(c, s2, Worker(0));
  }

  /** One acquire starts a refill; the next looks at `done` before the worker ends and at `in_flight` after. */
  lemma LoseOne(c: Config, r: State, s: State) returns (t: State)
    requires Path(c, r, s) && Inv(c, s) && Between(s) && |s.queue| <= c.threshold
    ensures Path(c, r, t) && Inv(c, t) && t.dropped == s.dropped + [s.launches] && s.launches in t.made
  {
    hide Path, Leads, Inv;
    var s1 := Enter(c, r, s);
    StartGuard(c, s1, 1);
    assert s1.thread == NoThread && !s1.inFlight by { IdleWorker(c, s1); }
    PathStep(c, r, s1, Caller(true));
    var s2 := Step(c, s1, Caller(true));
    var s3 := Serve(c, r, s2);
    var s4 := Enter(c, r, s3);
    var s5 := WorkerEnds(c, r, s4);
    assert s4.bank == FindEmpty(s1.remaining, 0);
    StartGuard(c, s5, s4.bank);
    PathStep(c, r, s5, Caller(true));
    t := Step(c, s5, Caller(true));
    assert s4.launches - 1 == s.launches;
  }

  lemma IdleWorker(c: Config, s: State)
    requires Inv(c, s) && !Active(s)
    ensures s.thread == NoThread && !s.inFlight
  {
  }

  lemma StartGuard(c: Config, s: State, b: nat)
    requires b < |s.remaining| && s.remaining[b] == 0
    ensures FindEmpty(s.remaining, 0) <= b
    ensures MayStart(c, s) <==> |s.queue| <= c.threshold && !s.inFlight
  {
  }

  lemma {:induction false} LoseFrom(c: Config, r: State, s: State) returns (t: State)
    requires Path(c, r, s) && Inv(c, s) && Between(s) && c.threshold >= 1
    ensures Path(c, r, t) && Inv(c, t) && exists k :: k in t.dropped && k in t.made
    decreases |s.queue|
  {
    hide Path, Inv, Between;
    if |s.queue| > c.threshold {
      var u := ServeOne(c, r, s);
      t := LoseFrom(c, r, u);
    } else {
      t := LoseOne(c, r, s);
      assert s.launches in t.dropped;
    }
  }

  /** Whatever the banks, the tokens and the seed: with a threshold of at least 1 a generated refill can be lost. */
  lemma LossHappens(c: Config) returns (t: State)
    requires ValidConfig(c) && c.threshold >= 1
    ensures Reachable(c, t) && exists k :: k in t.dropped && k in t.made
  {
    hide Inv, Leads;
    InitialInv(c);
    PathRefl(c, Initial(c));
    InitialBetween(c);
    t := LoseFrom(c, Initial(c), Initial(c));
  }

  lemma InitialBetween(c: Config)
    requires ValidConfig(c)
    ensures Between(Initial(c))
  {
    MulMono(1, c.bankCount, c.tokens);
    EnqueueFits([], 0, 0, c.tokens, Capacity(c));
  }

  // ---------------------------------------------------------------------
  // The exact condition
  // ---------------------------------------------------------------------

  /**
   * When every generated token reaches the queue, in every interleaving: exactly when the pipeline
   * was set up with a refill threshold of at most 0.
   */
  lemma NothingLostIff(c: Config)
    requires ValidConfig(c)
    ensures (forall s :: Reachable(c, s) ==> NothingLost(s)) <==> c.threshold <= 0
  {
    hide Inv, Reachable, NothingLost;
    if c.threshold <= 0 {
      forall s | Reachable(c, s)
        ensures NothingLost(s)
      {
        ReachableInv(c, s);
        NothingDropped(c, s);
        LostIsDropped(c, s);
      }
    } else {
      var t := LossHappens(c);
      ReachableInv(c, t);
      LostIsDropped(c, t);
    }
  }
}
