/**
 * The refill pipeline of soko_falcon_pipeline.c as an interleaved transition system: one thread
 * calls acquire, one worker thread fills a bank. Every access to the flags that the two threads
 * share is a step of its own; in particular the two stores at the end of the worker.
 */
module RefillProtocol {
  import opened Words

  // ---------------------------------------------------------------------
  // States
  // ---------------------------------------------------------------------

  /** A queued reference: a bank and an index in it. */
  datatype Ref = Ref(bank: nat, index: nat)

  /** What a reference stands for: token `index` of refill `refill`. */
  datatype Token = Token(refill: int, index: nat)

  /** What acquire hands out: a place in a bank, and whose token is there at that time. */
  datatype View = View(bank: nat, token: Token)

  datatype Status =
    | Served(view: View)
    | GeneratorFailed(code: int)
    | PushFailed
    | StartFailed
    | NothingToPop

  /** Where the worker thread is: before, between and after the generator and its two stores. */
  datatype Thread = NoThread | Running | Generated | DoneStored

  /** Where the calling thread is in acquire. */
  datatype Main =
    | Fresh
    | Returned(status: Status)
    | Check
    | Joining(fromWait: bool)
    | Test
    | Wait
    | Pop

  datatype Config = Config(bankCount: nat, tokens: nat, threshold: int, seedBase: u32)

  /**
   * `contents` says which refill's tokens are in each bank, -1 while unknown. The last five
   * fields are a history: `made` and `batches` list the refills generated and enqueued,
   * `dropped` those that were generated and then overwritten in the worker record, and `seeds`
   * the seeds of all launches.
   */
  datatype State = State(
    queue: seq<Ref>,
    remaining: seq<int>,
    contents: seq<int>,
    inFlight: bool,
    done: bool,
    started: bool,
    bank: nat,
    result: int,
    thread: Thread,
    launches: nat,
    nextSeed: u32,
    main: Main,
    served: seq<Token>,
    made: seq<nat>,
    batches: seq<nat>,
    dropped: seq<nat>,
    seeds: seq<u32>)

  predicate ValidConfig(c: Config) {
    c.bankCount >= 2 && c.tokens > 0
  }

  function Capacity(c: Config): nat {
    c.tokens * c.bankCount
  }

  // ---------------------------------------------------------------------
  // Steps
  // ---------------------------------------------------------------------

  /** soko_enqueue_bank_tokens from index i on: pushes until the queue is full. */
  function Enqueue(queue: seq<Ref>, bank: nat, i: nat, tokens: nat, capacity: nat): (r: (seq<Ref>, bool))
    ensures |r.0| >= |queue|
    decreases tokens - i
  {
    if i >= tokens then (queue, true)
    else if |queue| >= capacity then (queue, false)
    else Enqueue(queue + [Ref(bank, i)], bank, i + 1, tokens, capacity)
  }

  /** soko_find_empty_bank from bank b on; the number of banks when there is none. */
  function FindEmpty(remaining: seq<int>, b: nat): (r: nat)
    requires b <= |remaining|
    ensures b <= r <= |remaining|
    ensures r < |remaining| ==> remaining[r] == 0
    ensures forall i :: b <= i < r ==> remaining[i] != 0
    decreases |remaining| - b
  {
    if b == |remaining| || remaining[b] == 0 then b else FindEmpty(remaining, b + 1)
  }

  function Initial(c: Config): State
    requires ValidConfig(c)
  {
    State(Enqueue([], 0, 0, c.tokens, Capacity(c)).0,
          [c.tokens] + seq(c.bankCount - 1, i => 0), [0] + seq(c.bankCount - 1, i => -1),
          false, false, false, 0, 0, NoThread, 1, c.seedBase, Fresh, [], [0], [0], [], [])
  }

  /** soko_finish_completed_refill once the worker thread has ended. */
  function Finish(c: Config, s: State): State
    requires s.main.Joining? && s.bank < |s.remaining| == |s.contents| && s.launches > 0
  {
    var t := s.(started := false, done := false);
    if s.result != 0 then t.(main := Returned(GeneratorFailed(s.result)))
    else
      var (q, ok) := Enqueue(s.queue, s.bank, 0, c.tokens, Capacity(c));
      if !ok then t.(queue := q, main := Returned(PushFailed))
      else t.(queue := q, remaining := s.remaining[s.bank := c.tokens], batches := s.batches + [s.launches - 1],
              main := if s.main.fromWait then Pop else Test)
  }

  /** A refill that is complete, or whose result is known, and was successful, but is not enqueued. */
  predicate Pending(s: State) {
    (s.thread == Generated || s.done) && s.result == 0
  }

  /** soko_start_refill_worker on bank b, with the next seed. */
  function Start(s: State, b: nat, threadOk: bool): State
    requires b < |s.contents| && s.launches > 0
  {
    var lost := if Pending(s) then [s.launches - 1] else [];
    var t := s.(bank := b, result := 0, done := false, launches := s.launches + 1, dropped := s.dropped + lost,
                 nextSeed := W32(s.nextSeed + 1), seeds := s.seeds + [s.nextSeed]);
    if threadOk then t.(inFlight := true, started := true, thread := Running, contents := s.contents[b := -1], main := Wait)
    else t.(inFlight := false, started := false, main := Returned(StartFailed))
  }

  /** The guard at the second load of the flags. */
  predicate MayStart(c: Config, s: State) {
    |s.queue| <= c.threshold && !s.inFlight && FindEmpty(s.remaining, 0) < |s.remaining|
  }

  function TakeToken(s: State): State
    requires |s.remaining| == |s.contents|
  {
    if |s.queue| == 0 || s.queue[0].bank >= |s.remaining| then s.(main := Returned(NothingToPop)) else
    var r := s.queue[0];
    var k := Token(s.contents[r.bank], r.index);
    s.(queue := s.queue[1..], remaining := s.remaining[r.bank := s.remaining[r.bank] - 1],
       served := s.served + [k], main := Returned(Served(View(r.bank, k))))
  }

  predicate Shaped(s: State) {
    s.bank < |s.remaining| == |s.contents| && s.launches > 0
  }

  datatype Event = Call | Caller(threadOk: bool) | Worker(code: int)

  predicate Enabled(s: State, e: Event) {
    match e
    case Call => s.main.Fresh? || s.main.Returned?
    case Caller(_) => !s.main.Fresh? && !s.main.Returned? && (s.main.Joining? && s.started ==> s.thread == NoThread)
    case Worker(_) => s.thread != NoThread
  }

  /** One step of the calling thread inside acquire. */
  function CallerStep(c: Config, s: State, threadOk: bool): State
    requires Shaped(s) && Enabled(s, Caller(threadOk))
  {
    match s.main
    case Check => s.(main := if s.done then Joining(false) else Test)
    case Joining(_) => Finish(c, s)
    case Test =>
      if MayStart(c, s) then Start(s, FindEmpty(s.remaining, 0), threadOk) else s.(main := Wait)
    case Wait =>
      if |s.queue| > 0 then s.(main := Pop)
      else if s.done then s.(main := Joining(true))
      else s
    case Pop => TakeToken(s)
    case _ => s
  }

  /** One step of the worker thread: the generator with its result, and the two stores. */
  function WorkerStep(s: State, code: int): State
    requires Shaped(s) && s.thread != NoThread
  {
    match s.thread
    case Running =>
      if code == 0 then
        s.(thread := Generated, result := 0, contents := s.contents[s.bank := s.launches - 1], made := s.made + [s.launches - 1])
      else s.(thread := Generated, result := code)
    case Generated => s.(thread := DoneStored, done := true)
    case _ => s.(thread := NoThread, inFlight := false)
  }

  function Step(c: Config, s: State, e: Event): State
    requires Shaped(s) && Enabled(s, e)
  {
    match e
    case Call => s.(main := Check)
    case Caller(threadOk) => CallerStep(c, s, threadOk)
    case Worker(code) => WorkerStep(s, code)
  }

  // ---------------------------------------------------------------------
  // The invariant
  // ---------------------------------------------------------------------

  ghost function Count(queue: seq<Ref>, b: nat): (k: nat)
    ensures k <= |queue|
  {
    if |queue| == 0 then 0 else Count(queue[1..], b) + if queue[0].bank == b then 1 else 0
  }

  /** remaining[b] is the number of queued references to bank b. */
  ghost predicate QueueOk(c: Config, s: State) {
    |s.remaining| == |s.contents| == c.bankCount &&
    (forall i :: 0 <= i < |s.queue| ==> s.queue[i].bank < c.bankCount && s.queue[i].index < c.tokens) &&
    (forall b :: 0 <= b < c.bankCount ==> s.remaining[b] == Count(s.queue, b) <= c.tokens)
  }

  /** A refill is under way or waiting to be enqueued. */
  predicate Active(s: State) {
    s.thread != NoThread || s.done
  }

  ghost predicate WorkerOk(s: State) {
    s.bank < |s.remaining| == |s.contents| && s.launches > 0 &&
    (s.inFlight <==> s.thread != NoThread) &&
    (s.thread == DoneStored ==> s.done) && (s.thread == Running || s.thread == Generated ==> !s.done) &&
    (Active(s) ==> s.started && s.remaining[s.bank] == 0) &&
    (Pending(s) ==> s.contents[s.bank] == s.launches - 1) &&
    (s.main.Joining? ==> s.done)
  }

  ghost function Tokens(queue: seq<Ref>, contents: seq<int>): (r: seq<Token>)
    requires forall i :: 0 <= i < |queue| ==> queue[i].bank < |contents|
    ensures |r| == |queue|
  {
    seq(|queue|, i requires 0 <= i < |queue| => Token(contents[queue[i].bank], queue[i].index))
  }

  /** The tokens of one refill, in order. */
  ghost function Batch(refill: nat, tokens: nat): (r: seq<Token>)
    ensures |r| == tokens
  {
    seq(tokens, i requires 0 <= i < tokens => Token(refill, i))
  }

  /** All tokens of the given refills, in order. */
  ghost function All(batches: seq<nat>, tokens: nat): (r: seq<Token>) {
    if |batches| == 0 then [] else All(batches[..|batches| - 1], tokens) + Batch(batches[|batches| - 1], tokens)
  }

  ghost predicate Rising(batches: seq<nat>, limit: int) {
    (forall i, j :: 0 <= i < j < |batches| ==> batches[i] < batches[j]) &&
    (forall i :: 0 <= i < |batches| ==> batches[i] < limit)
  }

  /** What was served and what is queued are the enqueued refills, in order; none is enqueued twice. */
  ghost predicate HistoryOk(c: Config, s: State) {
    (forall i :: 0 <= i < |s.queue| ==> s.queue[i].bank < |s.contents|) &&
    s.served + Tokens(s.queue, s.contents) == All(s.batches, c.tokens) &&
    Rising(s.batches, if Active(s) then s.launches - 1 else s.launches)
  }

  ghost function PendingRefills(s: State): multiset<nat>
    requires s.launches > 0
  {
    if Pending(s) then multiset{s.launches - 1} else multiset{}
  }

  /** Every refill generated is enqueued, pending or dropped, and only once. */
  ghost predicate Accounted(s: State) {
    s.launches > 0 && multiset(s.made) == multiset(s.batches) + multiset(s.dropped) + PendingRefills(s) &&
    Rising(s.made, if s.thread == Running then s.launches - 1 else s.launches)
  }

  /** The bank of v still holds v's token, and the worker is busy elsewhere. */
  ghost predicate Holds(s: State, v: View) {
    v.bank < |s.contents| && s.contents[v.bank] == v.token.refill && (s.thread != NoThread ==> s.bank != v.bank)
  }

  ghost predicate MainOk(c: Config, s: State) {
    (s.main.Pop? ==> |s.queue| > 0) &&
    (s.main.Wait? && |s.queue| == 0 && c.threshold >= 0 ==> Active(s)) &&
    (s.main.Returned? ==> !s.main.status.PushFailed? && !s.main.status.NothingToPop?) &&
    (s.main.Returned? && s.main.status.Served? ==>
      Holds(s, s.main.status.view) && |s.served| > 0 && s.main.status.view.token == s.served[|s.served| - 1]) &&
    (s.main.Returned? && s.main.status.GeneratorFailed? ==> s.thread == NoThread && s.main.status.code == s.result != 0)
  }

  /** No refill is in two banks, and none of a later launch is in any. */
  ghost predicate ContentsOk(s: State) {
    (forall b :: 0 <= b < |s.contents| ==> s.contents[b] < if s.thread == Running then s.launches - 1 else s.launches) &&
    forall a, b :: 0 <= a < b < |s.contents| && s.contents[a] == s.contents[b] ==> s.contents[a] == -1
  }

  /** The seed of refill k, for k >= 1: seed_base and its successors, in 32 bits. */
  function Seed(c: Config, k: nat): u32
    requires k >= 1
  {
    W32(c.seedBase + k - 1)
  }

  /** The k-th launch used the k-th seed. */
  ghost predicate SeedsOk(c: Config, s: State) {
    s.launches == |s.seeds| + 1 && s.nextSeed == Seed(c, s.launches) && forall i :: 0 <= i < |s.seeds| ==> s.seeds[i] == Seed(c, i + 1)
  }

  ghost predicate Inv(c: Config, s: State) {
    ValidConfig(c) && QueueOk(c, s) && WorkerOk(s) && HistoryOk(c, s) && Accounted(s) && MainOk(c, s) && SeedsOk(c, s) && ContentsOk(s)
  }

  // ---------------------------------------------------------------------
  // Counting
  // ---------------------------------------------------------------------

  lemma {:induction false} CountAppend(q: seq<Ref>, r: seq<Ref>, b: nat)
    ensures Count(q + r, b) == Count(q, b) + Count(r, b)
  {
    if |q| == 0 {
      assert q + r == r;
    } else {
      assert (q + r)[1..] == q[1..] + r;
      CountAppend(q[1..], r, b);
    }
  }

  ghost function Refs(bank: nat, i: nat, tokens: nat): (r: seq<Ref>)
    requires i <= tokens
    ensures |r| == tokens - i
  {
    seq(tokens - i, k requires 0 <= k < tokens - i => Ref(bank, i + k))
  }

  lemma {:induction false} CountRefs(bank: nat, i: nat, tokens: nat, b: nat)
    requires i <= tokens
    ensures Count(Refs(bank, i, tokens), b) == if b == bank then tokens - i else 0
    decreases tokens - i
  {
    if i < tokens {
      assert Refs(bank, i, tokens)[1..] == Refs(bank, i + 1, tokens);
      CountRefs(bank, i + 1, tokens, b);
    }
  }

  lemma {:induction false} EnqueueFits(q: seq<Ref>, bank: nat, i: nat, tokens: nat, capacity: nat)
    requires i <= tokens && |q| + tokens - i <= capacity
    ensures Enqueue(q, bank, i, tokens, capacity) == (q + Refs(bank, i, tokens), true)
    decreases tokens - i
  {
    if i < tokens {
      EnqueueFits(q + [Ref(bank, i)], bank, i + 1, tokens, capacity);
      assert q + [Ref(bank, i)] + Refs(bank, i + 1, tokens) == q + Refs(bank, i, tokens);
    } else {
      assert q + Refs(bank, i, tokens) == q;
    }
  }

  ghost function Sum(r: seq<int>): int {
    if |r| == 0 then 0 else Sum(r[..|r| - 1]) + r[|r| - 1]
  }

  /** The number of queued references to the first n banks. */
  ghost function CountBelow(q: seq<Ref>, n: nat): nat {
    if n == 0 then 0 else CountBelow(q, n - 1) + Count(q, n - 1)
  }

  lemma {:induction false} CountBelowStep(q: seq<Ref>, n: nat)
    requires |q| > 0
    ensures CountBelow(q, n) == CountBelow(q[1..], n) + if q[0].bank < n then 1 else 0
  {
    if n > 0 {
      CountBelowStep(q, n - 1);
    }
  }

  lemma {:induction false} CountAll(q: seq<Ref>, n: nat)
    requires forall i :: 0 <= i < |q| ==> q[i].bank < n
    ensures CountBelow(q, n) == |q|
  {
    if |q| > 0 {
      CountBelowStep(q, n);
      CountAll(q[1..], n);
    } else {
      CountEmpty(n);
    }
  }

  lemma {:induction false} CountEmpty(n: nat)
    ensures CountBelow([], n) == 0
  {
    if n > 0 {
      CountEmpty(n - 1);
    }
  }

  lemma {:induction false} SumIsCount(q: seq<Ref>, r: seq<int>)
    requires forall b :: 0 <= b < |r| ==> r[b] == Count(q, b)
    ensures Sum(r) == CountBelow(q, |r|)
  {
    if |r| > 0 {
      SumIsCount(q, r[..|r| - 1]);
    }
  }

  /** queue.count is the sum of bank_remaining. */
  lemma CountIsSum(c: Config, s: State)
    requires QueueOk(c, s)
    ensures |s.queue| == Sum(s.remaining)
  {
    SumIsCount(s.queue, s.remaining);
    CountAll(s.queue, c.bankCount);
  }

  lemma {:induction false} SumBound(r: seq<int>, t: nat, empty: nat)
    requires forall b :: 0 <= b < |r| ==> r[b] <= t
    ensures Sum(r) <= t * |r|
    ensures empty < |r| && r[empty] == 0 ==> Sum(r) <= t * |r| - t
  {
    if |r| > 0 {
      SumBound(r[..|r| - 1], t, empty);
      assert t * |r| == t * (|r| - 1) + t;
    }
  }

  /** While a bank is empty, there is room for a whole batch. */
  lemma RoomForBatch(c: Config, s: State, b: nat)
    requires QueueOk(c, s) && b < |s.remaining| && s.remaining[b] == 0
    ensures |s.queue| + c.tokens <= Capacity(c)
  {
    CountIsSum(c, s);
    SumBound(s.remaining, c.tokens, b);
  }

  lemma {:induction false} NoneQueued(q: seq<Ref>, b: nat, i: nat)
    requires Count(q, b) == 0 && i < |q|
    ensures q[i].bank != b
  {
    if i > 0 {
      NoneQueued(q[1..], b, i - 1);
    }
  }

  /** Writing to a bank without queued references does not change what the queue stands for. */
  lemma TokensKept(q: seq<Ref>, contents: seq<int>, b: nat, v: int)
    requires b < |contents| && Count(q, b) == 0 && forall i :: 0 <= i < |q| ==> q[i].bank < |contents|
    ensures Tokens(q, contents[b := v]) == Tokens(q, contents)
  {
    forall i | 0 <= i < |q|
      ensures q[i].bank != b
    {
      NoneQueued(q, b, i);
    }
  }

  // ---------------------------------------------------------------------
  // Every step keeps the invariant
  // ---------------------------------------------------------------------

  lemma InitialInv(c: Config)
    requires ValidConfig(c)
    ensures Inv(c, Initial(c))
  {
    var s := Initial(c);
    MulMono(1, c.bankCount, c.tokens);
    EnqueueFits([], 0, 0, c.tokens, Capacity(c));
    assert s.queue == Refs(0, 0, c.tokens);
    forall b | 0 <= b < c.bankCount
      ensures s.remaining[b] == Count(s.queue, b)
    {
      CountRefs(0, 0, c.tokens, b);
    }
    assert All([0], c.tokens) == Batch(0, c.tokens);
    assert Tokens(s.queue, s.contents) == Batch(0, c.tokens);
  }

  lemma FinishShape(c: Config, s: State)
    requires Inv(c, s) && s.main.Joining? && s.result == 0
    ensures Finish(c, s) ==
      s.(started := false, done := false, queue := s.queue + Refs(s.bank, 0, c.tokens), remaining := s.remaining[s.bank := c.tokens],
         batches := s.batches + [s.launches - 1], main := if s.main.fromWait then Pop else Test)
  {
    hide HistoryOk, Accounted, MainOk;
    RoomForBatch(c, s, s.bank);
    EnqueueFits(s.queue, s.bank, 0, c.tokens, Capacity(c));
  }

  lemma FinishQueue(c: Config, s: State)
    requires Inv(c, s) && s.main.Joining? && s.result == 0
    ensures QueueOk(c, Finish(c, s))
  {
    hide HistoryOk, Accounted, MainOk, Finish;
    FinishShape(c, s);
    var b, refs := s.bank, Refs(s.bank, 0, c.tokens);
    forall a | 0 <= a < c.bankCount
      ensures (s.remaining[b := c.tokens])[a] == Count(s.queue + refs, a) <= c.tokens
    {
      CountAppend(s.queue, refs, a);
      CountRefs(b, 0, c.tokens, a);
    }
  }

  lemma FinishHistory(c: Config, s: State)
    requires Inv(c, s) && s.main.Joining? && s.thread == NoThread && s.result == 0
    ensures HistoryOk(c, Finish(c, s)) && Accounted(Finish(c, s))
  {
    hide Finish, Count, MainOk;
    FinishShape(c, s);
    var t := Finish(c, s);
    var k: nat := s.launches - 1;
    assert Tokens(t.queue, t.contents) == Tokens(s.queue, s.contents) + Batch(k, c.tokens);
    assert t.batches[..|s.batches|] == s.batches;
    assert multiset(t.batches) == multiset(s.batches) + multiset{k};
  }

  lemma FinishInv(c: Config, s: State)
    requires Inv(c, s) && s.main.Joining? && s.thread == NoThread
    ensures Inv(c, Finish(c, s))
  {
    hide HistoryOk, Accounted, Count, Enqueue;
    if s.result == 0 {
      FinishQueue(c, s);
      FinishHistory(c, s);
      FinishShape(c, s);
    } else {
      FailedFinish(c, s);
    }
  }

  lemma FailedFinish(c: Config, s: State)
    requires Inv(c, s) && s.main.Joining? && s.thread == NoThread && s.result != 0
    ensures Inv(c, Finish(c, s))
  {
    hide Count, Enqueue, Tokens, All;
  }

  lemma StartAccounted(c: Config, s: State, b: nat, threadOk: bool)
    requires Accounted(s) && b < |s.contents| && !s.inFlight && (s.inFlight <==> s.thread != NoThread)
    ensures Accounted(Start(s, b, threadOk))
  {
    var t := Start(s, b, threadOk);
    assert multiset(t.dropped) == multiset(s.dropped) + PendingRefills(s);
    assert PendingRefills(t) == multiset{};
  }

  lemma StartHistory(c: Config, s: State, b: nat, threadOk: bool)
    requires HistoryOk(c, s) && s.launches > 0 && b < |s.contents| && Count(s.queue, b) == 0
    ensures HistoryOk(c, Start(s, b, threadOk))
  {
    hide Count, All, Tokens;
    TokensKept(s.queue, s.contents, b, -1);
  }

  lemma StartSeeds(c: Config, s: State, b: nat, threadOk: bool)
    requires SeedsOk(c, s) && b < |s.contents|
    ensures SeedsOk(c, Start(s, b, threadOk))
  {
    hide Seed;
    SeedNext(c, s.launches);
  }

  lemma SeedNext(c: Config, k: nat)
    requires k >= 1
    ensures W32(Seed(c, k) + 1) == Seed(c, k + 1)
  {
    NextModulo(c.seedBase + k - 1);
  }

  lemma NextModulo(x: nat)
    ensures (x % B32 + 1) % B32 == (x + 1) % B32
  {
    var q := x / B32;
    assert x == B32 * q + x % B32;
  }

  lemma StartInv(c: Config, s: State, threadOk: bool)
    requires Inv(c, s) && s.main.Test? && MayStart(c, s)
    ensures Inv(c, Start(s, FindEmpty(s.remaining, 0), threadOk))
  {
    hide HistoryOk, Accounted, Count, SeedsOk;
    var b := FindEmpty(s.remaining, 0);
    StartSeeds(c, s, b, threadOk);
    StartHistory(c, s, b, threadOk);
    StartAccounted(c, s, b, threadOk);
  }

  lemma TakeInv(c: Config, s: State)
    requires Inv(c, s) && s.main.Pop?
    ensures Inv(c, TakeToken(s))
  {
    TakeQueue(c, s);
    TakeHistory(c, s);
    hide QueueOk, HistoryOk, Accounted, SeedsOk, ContentsOk, Count;
    var t := TakeToken(s);
    assert SeedsOk(c, t) && ContentsOk(t) by { TakeKeeps(c, s); }
    assert Accounted(t) by { TakeAccounted(s); }
  }

  lemma TakeQueue(c: Config, s: State)
    requires QueueOk(c, s) && |s.queue| > 0
    ensures QueueOk(c, TakeToken(s)) && s.queue[0].bank < |s.remaining| && s.remaining[s.queue[0].bank] > 0
  {
    assert Count(s.queue, s.queue[0].bank) > 0;
  }

  lemma TakeHistory(c: Config, s: State)
    requires HistoryOk(c, s) && |s.queue| > 0 && |s.remaining| == |s.contents|
    ensures HistoryOk(c, TakeToken(s))
  {
    hide All;
    var t := TakeToken(s);
    var r := s.queue[0];
    assert s.queue == [r] + t.queue;
    var k := Token(s.contents[r.bank], r.index);
    assert Tokens(s.queue, s.contents) == [k] + Tokens(t.queue, t.contents);
    assert t.served + Tokens(t.queue, t.contents) == s.served + Tokens(s.queue, s.contents);
  }

  lemma TakeKeeps(c: Config, s: State)
    requires SeedsOk(c, s) && ContentsOk(s) && |s.remaining| == |s.contents|
    ensures SeedsOk(c, TakeToken(s)) && ContentsOk(TakeToken(s))
  {
  }

  lemma TakeAccounted(s: State)
    requires Accounted(s) && |s.remaining| == |s.contents|
    ensures Accounted(TakeToken(s))
  {
    hide Rising;
    assert PendingRefills(TakeToken(s)) == PendingRefills(s);
  }

  /** Moving the caller alone keeps the invariant if the new place allows it. */
  lemma MoveInv(c: Config, s: State, m: Main)
    requires Inv(c, s) && !m.Returned? && (m.Joining? ==> s.done)
    requires m.Pop? ==> |s.queue| > 0
    requires m.Wait? && |s.queue| == 0 && c.threshold >= 0 ==> Active(s)
    ensures Inv(c, s.(main := m))
  {
    hide Count, Tokens, All, Rising;
  }

  lemma TestInv(c: Config, s: State, threadOk: bool)
    requires Inv(c, s) && s.main.Test?
    ensures Shaped(s) && Inv(c, CallerStep(c, s, threadOk))
  {
    hide Count, Tokens, All, Rising, Start, Holds;
    if MayStart(c, s) {
      StartInv(c, s, threadOk);
    } else {
      if |s.queue| == 0 && c.threshold >= 0 && !s.inFlight {
        EmptyBank(c, s);
      }
      MoveInv(c, s, Wait);
    }
  }

  lemma CallerInv(c: Config, s: State, threadOk: bool)
    requires Inv(c, s) && Enabled(s, Caller(threadOk))
    ensures Shaped(s) && Inv(c, CallerStep(c, s, threadOk))
  {
    hide QueueOk, HistoryOk, Accounted, MainOk, Finish, Start, TakeToken, MayStart;
    match s.main
    case Check => MoveInv(c, s, if s.done then Joining(false) else Test);
    case Joining(_) => FinishInv(c, s);
    case Test => TestInv(c, s, threadOk);
    case Wait =>
      if |s.queue| > 0 {
        MoveInv(c, s, Pop);
      } else if s.done {
        MoveInv(c, s, Joining(true));
      }
    case Pop => TakeInv(c, s);
    case _ =>
  }

  /** When the queue is empty, so is bank 0. */
  lemma EmptyBank(c: Config, s: State)
    requires ValidConfig(c) && QueueOk(c, s) && |s.queue| == 0
    ensures FindEmpty(s.remaining, 0) < |s.remaining|
  {
    assert s.remaining[0] == Count(s.queue, 0) == 0;
  }

  /** The generator ends: a new batch is in the worker's bank, or an error code in its record. */
  lemma GenerateInv(c: Config, s: State, code: int)
    requires Inv(c, s) && s.thread == Running
    ensures Shaped(s) && Inv(c, WorkerStep(s, code))
  {
    hide Count, HistoryOk, Accounted, ContentsOk;
    assert s.remaining[s.bank] == 0;
    GenerateHistory(c, s, code);
    GenerateAccounted(s, code);
    GenerateContents(s, code);
  }

  lemma GenerateContents(s: State, code: int)
    requires ContentsOk(s) && s.thread == Running && s.bank < |s.contents| == |s.remaining| && s.launches > 0
    ensures ContentsOk(WorkerStep(s, code))
  {
    var t := WorkerStep(s, code);
    forall a, b | 0 <= a < b < |t.contents| && t.contents[a] == t.contents[b]
      ensures t.contents[a] == -1
    {
      assert s.contents[a] < s.launches - 1 && s.contents[b] < s.launches - 1;
    }
  }

  lemma GenerateHistory(c: Config, s: State, code: int)
    requires HistoryOk(c, s) && s.thread == Running && s.bank < |s.contents| == |s.remaining| && s.launches > 0
    requires Count(s.queue, s.bank) == 0
    ensures HistoryOk(c, WorkerStep(s, code))
  {
    hide Count, All, Tokens;
    TokensKept(s.queue, s.contents, s.bank, s.launches - 1);
  }

  lemma GenerateAccounted(s: State, code: int)
    requires Accounted(s) && s.thread == Running && !s.done && s.bank < |s.contents| == |s.remaining|
    ensures Accounted(WorkerStep(s, code))
  {
    hide Rising, Pending;
    var t := WorkerStep(s, code);
    var k: nat := s.launches - 1;
    RisingNext(s.made, k);
    PendingAfter(s, code);
    assert multiset(s.made + [k]) == multiset(s.made) + multiset{k};
  }

  lemma PendingAfter(s: State, code: int)
    requires s.thread == Running && !s.done && s.bank < |s.contents| == |s.remaining| && s.launches > 0
    ensures PendingRefills(s) == multiset{}
    ensures PendingRefills(WorkerStep(s, code)) == if code == 0 then multiset{s.launches - 1} else multiset{}
  {
  }

  lemma RisingNext(r: seq<nat>, k: nat)
    requires Rising(r, k)
    ensures Rising(r, k + 1) && Rising(r + [k], k + 1)
  {
  }

  lemma StoreInv(c: Config, s: State, code: int)
    requires Inv(c, s) && (s.thread == Generated || s.thread == DoneStored)
    ensures Shaped(s) && Inv(c, WorkerStep(s, code))
  {
    hide Count, Tokens, All, Rising;
    assert PendingRefills(WorkerStep(s, code)) == PendingRefills(s);
  }

  lemma WorkerInv(c: Config, s: State, code: int)
    requires Inv(c, s) && s.thread != NoThread
    ensures Shaped(s) && Inv(c, WorkerStep(s, code))
  {
    hide Inv, WorkerStep;
    if s.thread == Running {
      GenerateInv(c, s, code);
    } else {
      StoreInv(c, s, code);
    }
  }

  lemma StepInv(c: Config, s: State, e: Event)
    requires Inv(c, s) && Enabled(s, e)
    ensures Shaped(s) && Inv(c, Step(c, s, e))
  {
    match e
    case Call =>
    case Caller(threadOk) => CallerInv(c, s, threadOk);
    case Worker(code) => WorkerInv(c, s, code);
  }

  // ---------------------------------------------------------------------
  // Runs
  // ---------------------------------------------------------------------

  /** The events es lead from s to t. */
  ghost predicate Leads(c: Config, s: State, es: seq<Event>, t: State)
    decreases |es|
  {
    if |es| == 0 then s == t
    else Shaped(s) && Enabled(s, es[0]) && Leads(c, Step(c, s, es[0]), es[1..], t)
  }

  ghost predicate Reachable(c: Config, s: State) {
    ValidConfig(c) && exists es :: Leads(c, Initial(c), es, s)
  }

  lemma {:induction false} LeadsInv(c: Config, s: State, es: seq<Event>, t: State)
    requires Inv(c, s) && Leads(c, s, es, t)
    ensures Inv(c, t)
    decreases |es|
  {
    hide Inv, Step;
    if |es| > 0 {
      StepInv(c, s, es[0]);
      LeadsInv(c, Step(c, s, es[0]), es[1..], t);
    }
  }

  /** In every interleaving of the two threads. */
  lemma ReachableInv(c: Config, s: State)
    requires Reachable(c, s)
    ensures Inv(c, s)
  {
    hide Inv, Leads;
    InitialInv(c);
    var es :| Leads(c, Initial(c), es, s);
    LeadsInv(c, Initial(c), es, s);
  }

  lemma {:induction false} LeadsJoin(c: Config, s: State, es: seq<Event>, t: State, fs: seq<Event>, u: State)
    requires Leads(c, s, es, t) && Leads(c, t, fs, u)
    ensures Leads(c, s, es + fs, u)
    decreases |es|
  {
    hide Step;
    if |es| == 0 {
      assert es + fs == fs;
    } else {
      assert (es + fs)[1..] == es[1..] + fs;
      LeadsJoin(c, Step(c, s, es[0]), es[1..], t, fs, u);
    }
  }

  lemma LeadsNothing(c: Config, s: State)
    ensures Leads(c, s, [], s)
  {
  }

  lemma Chain(c: Config, s: State, e: Event, es: seq<Event>, t: State)
    requires Shaped(s) && Enabled(s, e) && Leads(c, Step(c, s, e), es, t)
    ensures Leads(c, s, [e] + es, t)
  {
    hide Step;
    assert ([e] + es)[1..] == es;
  }

  /** t can be reached from s. */
  ghost predicate Path(c: Config, s: State, t: State) {
    exists es :: Leads(c, s, es, t)
  }

  lemma PathRefl(c: Config, s: State)
    ensures Path(c, s, s)
  {
    assert Leads(c, s, [], s);
  }

  lemma PathStep(c: Config, s: State, t: State, e: Event)
    requires Path(c, s, t) && Inv(c, t) && Enabled(t, e)
    ensures Shaped(t) && Path(c, s, Step(c, t, e)) && Inv(c, Step(c, t, e))
  {
    hide Inv, Leads, Step;
    StepInv(c, t, e);
    var es :| Leads(c, s, es, t);
    LeadsNothing(c, Step(c, t, e));
    Chain(c, t, e, [], Step(c, t, e));
    LeadsJoin(c, s, es, t, [e] + [], Step(c, t, e));
  }

  // ---------------------------------------------------------------------
  // Safety
  // ---------------------------------------------------------------------

  lemma {:induction false} AllLength(batches: seq<nat>, tokens: nat)
    ensures |All(batches, tokens)| == |batches| * tokens
  {
    if |batches| > 0 {
      AllLength(batches[..|batches| - 1], tokens);
      assert |batches| * tokens == (|batches| - 1) * tokens + tokens;
    }
  }

  lemma QuotientPlace(i: nat, t: nat, n: nat)
    requires t > 0 && n > 0 && i < n * t
    ensures 0 <= i / t < n && (i < (n - 1) * t ==> i / t < n - 1) && (i >= (n - 1) * t ==> i / t == n - 1 && i % t == i - (n - 1) * t)
  {
    var q := i / t;
    assert i == t * q + i % t;
    assert (n - 1) * t + t == n * t;
    if q < n - 1 { MulMono(q + 1, n - 1, t); }
    if q >= n { MulMono(n, q, t); }
    if q == n - 1 { assert t * q == (n - 1) * t; }
    if q < 0 { MulMono(q, -1, t); }
  }

  /** Where a token stands in the enqueued order. */
  lemma {:induction false} AllAt(batches: seq<nat>, tokens: nat, i: nat)
    requires tokens > 0 && i < |All(batches, tokens)|
    ensures 0 <= i / tokens < |batches| && All(batches, tokens)[i] == Token(batches[i / tokens], i % tokens)
  {
    hide Batch;
    AllLength(batches, tokens);
    var n := |batches| - 1;
    if |batches| > 0 {
      AllLength(batches[..n], tokens);
      QuotientPlace(i, tokens, n + 1);
      if i < n * tokens {
        AllAt(batches[..n], tokens, i);
      } else {
        BatchAt(batches[n], tokens, i - n * tokens);
      }
    }
  }

  lemma BatchAt(refill: nat, tokens: nat, i: nat)
    requires i < tokens
    ensures Batch(refill, tokens)[i] == Token(refill, i)
  {
  }

  /**
   * Tokens are served in the order in which their refills were enqueued, from the first on,
   * each at most once, whatever the interleaving.
   */
  lemma ServedInOrderOnce(c: Config, s: State)
    requires Reachable(c, s)
    ensures Rising(s.batches, s.launches) && s.served <= All(s.batches, c.tokens)
    ensures forall i, j :: 0 <= i < j < |s.served| ==> s.served[i] != s.served[j]
  {
    hide All, Reachable, Tokens;
    ReachableInv(c, s);
    forall i, j | 0 <= i < j < |s.served|
      ensures s.served[i] != s.served[j]
    {
      var all := All(s.batches, c.tokens);
      assert s.served[i] == all[i] && s.served[j] == all[j];
      AllAt(s.batches, c.tokens, i);
      AllAt(s.batches, c.tokens, j);
      SamePlace(i, j, c.tokens);
    }
  }

  /**
   * What acquire hands out is the token that has just been recorded as served, in the only bank that
   * holds its refill; together with the above, no token is handed out twice.
   */
  lemma HandedOut(c: Config, s: State, v: View)
    requires Reachable(c, s) && s.main == Returned(Served(v))
    ensures |s.served| > 0 && v.token == s.served[|s.served| - 1]
    ensures forall b :: 0 <= b < |s.contents| ==> (s.contents[b] == v.token.refill <==> b == v.bank)
  {
    hide Reachable, All, Tokens;
    ReachableInv(c, s);
    ServedRefill(c, s);
  }

  lemma ServedRefill(c: Config, s: State)
    requires Inv(c, s) && |s.served| > 0
    ensures s.served[|s.served| - 1].refill >= 0
  {
    hide Tokens, All;
    var i := |s.served| - 1;
    assert s.served[i] == All(s.batches, c.tokens)[i];
    AllAt(s.batches, c.tokens, i);
  }

  /** A step records a token as served exactly when it hands one out. */
  lemma ServedExactly(c: Config, s: State, e: Event)
    requires Inv(c, s) && Enabled(s, e)
    ensures Shaped(s)
    ensures var t := Step(c, s, e);
      t.served == s.served + if e.Caller? && t.main.Returned? && t.main.status.Served? then [t.main.status.view.token] else []
  {
    hide HistoryOk, Accounted, Enqueue, QueueOk;
  }

  /**
   * A refill is started exactly when the caller, at its second look, finds the stock at or below the
   * threshold, no worker thread, and an empty bank; it then goes to the first such bank.
   */
  lemma LaunchedExactly(c: Config, s: State, e: Event)
    requires Inv(c, s) && Enabled(s, e)
    ensures Shaped(s)
    ensures var t := Step(c, s, e);
      t.launches == s.launches + (if e.Caller? && s.main.Test? && |s.queue| <= c.threshold && s.thread == NoThread &&
                                     exists b :: 0 <= b < c.bankCount && s.remaining[b] == 0 then 1 else 0)
    ensures var t := Step(c, s, e); t.launches > s.launches ==>
      t.bank < c.bankCount && s.remaining[t.bank] == 0 && forall b :: 0 <= b < t.bank ==> s.remaining[b] != 0
  {
    hide HistoryOk, Accounted, Enqueue;
  }

  lemma SamePlace(i: nat, j: nat, t: nat)
    requires t > 0 && i < j
    ensures i / t < j / t || (i / t == j / t && i % t < j % t)
  {
    var q, p := i / t, j / t;
    assert i == t * q + i % t && j == t * p + j % t;
    if p < q {
      MulMono(p + 1, q, t);
    }
  }

  /** The counters agree, and pushes and pops never fail. */
  lemma NoInternalErrors(c: Config, s: State)
    requires Reachable(c, s)
    ensures |s.queue| == Sum(s.remaining) <= Capacity(c)
    ensures Active(s) ==> forall i :: 0 <= i < |s.queue| ==> s.queue[i].bank != s.bank
    ensures s.main.Returned? ==> s.main.status.Served? || s.main.status.GeneratorFailed? || s.main.status.StartFailed?
  {
    ReachableInv(c, s);
    CountIsSum(c, s);
    SumBound(s.remaining, c.tokens, 0);
    if Active(s) {
      forall i | 0 <= i < |s.queue|
        ensures s.queue[i].bank != s.bank
      {
        NoneQueued(s.queue, s.bank, i);
      }
    }
  }

  /** Until the next call of acquire, the bank of the view handed out keeps that view's token. */
  lemma {:induction false} ViewStable(c: Config, s: State, es: seq<Event>, t: State, v: View)
    requires Reachable(c, s) && s.main == Returned(Served(v)) && Leads(c, s, es, t) && forall i :: 0 <= i < |es| ==> es[i].Worker?
    ensures t.main == s.main && v.bank < |t.contents| && t.contents[v.bank] == v.token.refill
  {
    hide Inv, Reachable;
    ReachableInv(c, s);
    LeadsInv(c, s, es, t);
    WorkerLeavesMain(c, s, es, t);
    assert MainOk(c, t) by { InvMain(c, t); }
  }

  lemma InvMain(c: Config, s: State)
    requires Inv(c, s)
    ensures MainOk(c, s)
  {
  }

  lemma {:induction false} WorkerLeavesMain(c: Config, s: State, es: seq<Event>, t: State)
    requires Leads(c, s, es, t) && forall i :: 0 <= i < |es| ==> es[i].Worker?
    ensures t.main == s.main
    decreases |es|
  {
    if |es| > 0 {
      WorkerLeavesMain(c, Step(c, s, es[0]), es[1..], t);
    }
  }

  // ---------------------------------------------------------------------
  // Progress
  // ---------------------------------------------------------------------

  /** The caller found nothing to serve and goes to sleep for a moment. */
  predicate Sleeps(s: State, e: Event) {
    s.main.Wait? && |s.queue| == 0 && !s.done && e.Caller?
  }

  function MainRank(m: Main): nat {
    match m
    case Check => 6
    case Joining(fromWait) => if fromWait then 2 else 5
    case Test => 4
    case Wait => 3
    case Pop => 1
    case _ => 0
  }

  function ThreadRank(t: Thread): nat {
    match t
    case NoThread => 0
    case Running => 3
    case Generated => 2
    case DoneStored => 1
  }

  /** A launch costs the caller one step and gives the worker three. */
  function Rank(s: State): nat {
    (if s.main.Check? || (s.main.Joining? && !s.main.fromWait) || s.main.Test? then 3 else 0) + MainRank(s.main) + ThreadRank(s.thread)
  }

  /**
   * With a threshold of at least 0, an acquire that has not returned always has a step other
   * than sleeping, and every such step brings it closer to its return. A run of acquire hence
   * returns unless it sleeps for ever while the worker takes no step.
   */
  lemma AcquireProgresses(c: Config, s: State)
    requires Reachable(c, s) && c.threshold >= 0 && !s.main.Fresh? && !s.main.Returned?
    ensures Shaped(s)
    ensures exists e :: Enabled(s, e) && !Sleeps(s, e)
    ensures forall e :: Enabled(s, e) && !Sleeps(s, e) ==> Rank(Step(c, s, e)) < Rank(s)
    ensures forall e :: Enabled(s, e) && Sleeps(s, e) ==> Step(c, s, e) == s && Active(s)
  {
    hide Reachable, Count, Sum, All, Tokens;
    ReachableInv(c, s);
    if s.thread != NoThread {
      assert Enabled(s, Worker(0)) && !Sleeps(s, Worker(0));
    } else {
      assert Enabled(s, Caller(true)) && !Sleeps(s, Caller(true));
    }
    forall e | Enabled(s, e) && !Sleeps(s, e)
      ensures Rank(Step(c, s, e)) < Rank(s)
    {
      RankFalls(c, s, e);
    }
  }

  lemma RankFalls(c: Config, s: State, e: Event)
    requires Inv(c, s) && Enabled(s, e) && !Sleeps(s, e) && !s.main.Fresh? && !s.main.Returned?
    ensures Shaped(s) && Rank(Step(c, s, e)) < Rank(s)
  {
    hide QueueOk, HistoryOk, Accounted, MainOk;
    assert Shaped(s);
    match e
    case Worker(_) =>
    case Caller(_) =>
      match s.main
      case Test => {
        if MayStart(c, s) {
          assert s.thread == NoThread;
        }
      }
      case _ =>
  }

  /** No generator or thread failure is, or can be, on record. */
  predicate Healthy(s: State) {
    (s.thread == Generated || s.done ==> s.result == 0) &&
    (s.main.Returned? ==> s.main.status.Served?)
  }

  predicate Succeeds(e: Event) {
    match e
    case Call => false
    case Caller(threadOk) => threadOk
    case Worker(code) => code == 0
  }

  /** While threads start and generators succeed, acquire can only return a token. */
  lemma {:induction false} AcquireReturnsToken(c: Config, s: State, es: seq<Event>, t: State)
    requires Inv(c, s) && Healthy(s) && Leads(c, s, es, t) && forall i :: 0 <= i < |es| ==> Succeeds(es[i])
    ensures Healthy(t)
    decreases |es|
  {
    hide Inv, Step, Healthy;
    if |es| > 0 {
      StepInv(c, s, es[0]);
      HealthyStep(c, s, es[0]);
      AcquireReturnsToken(c, Step(c, s, es[0]), es[1..], t);
    }
  }

  lemma HealthyStep(c: Config, s: State, e: Event)
    requires Inv(c, s) && Healthy(s) && Enabled(s, e) && Succeeds(e)
    ensures Shaped(s) && Healthy(Step(c, s, e))
  {
    hide HistoryOk, Accounted, Sum, Capacity;
    if s.main.Joining? && e.Caller? {
      RoomForBatch(c, s, s.bank);
      EnqueueFits(s.queue, s.bank, 0, c.tokens, Capacity(c));
    }
  }

  /** The queue is empty, no refill is under way, and the caller waits. */
  predicate Stuck(s: State) {
    s.main.Wait? && |s.queue| == 0 && !Active(s)
  }

  /** The caller is inside acquire, there is nothing to serve, and it will start no refill. */
  predicate Starved(c: Config, s: State) {
    Shaped(s) && |s.queue| == 0 && !Active(s) && (s.main.Wait? || (c.threshold < 0 && (s.main.Check? || s.main.Test?)))
  }

  /** Such a call never returns, whatever the two threads do; a stuck one is the last stage of it. */
  lemma {:induction false} StarvedForever(c: Config, s: State, es: seq<Event>, t: State)
    requires Starved(c, s) && Leads(c, s, es, t)
    ensures Starved(c, t) && !t.main.Returned?
    decreases |es|
  {
    if |es| > 0 {
      StarvedForever(c, Step(c, s, es[0]), es[1..], t);
    }
  }

  /** A call of acquire on an empty queue with a negative threshold is of that kind. */
  lemma NegativeStarves(c: Config, s: State, es: seq<Event>, t: State)
    requires Reachable(c, s) && c.threshold < 0 && |s.queue| == 0 && (s.main.Fresh? || s.main.Returned?)
    requires Leads(c, s, [Call] + es, t)
    ensures !t.main.Returned? && Starved(c, t)
  {
    hide Inv, Reachable, Leads;
    ReachableInv(c, s);
    NegativeIdle(c, s);
    assert Leads(c, Step(c, s, Call), es, t) by { LeadsTail(c, s, Call, es, t); }
    assert Shaped(s) by { InvShape(c, s); }
    StarvedForever(c, Step(c, s, Call), es, t);
  }

  lemma InvShape(c: Config, s: State)
    requires Inv(c, s)
    ensures Shaped(s)
  {
  }

  lemma LeadsTail(c: Config, s: State, e: Event, es: seq<Event>, t: State)
    requires Leads(c, s, [e] + es, t)
    ensures Shaped(s) && Enabled(s, e) && Leads(c, Step(c, s, e), es, t)
  {
    hide Step;
    assert ([e] + es)[1..] == es;
  }

  /** With a negative threshold, no refill is ever under way. */
  lemma NegativeIdle(c: Config, s: State)
    requires Reachable(c, s) && c.threshold < 0
    ensures !Active(s)
  {
    hide Leads, Inv;
    InitialInv(c);
    var es :| Leads(c, Initial(c), es, s);
    NegativeRun(c, Initial(c), es, s);
  }

  lemma {:induction false} NegativeRun(c: Config, s: State, es: seq<Event>, t: State)
    requires Inv(c, s) && c.threshold < 0 && !Active(s) && Leads(c, s, es, t)
    ensures !Active(t)
    decreases |es|
  {
    hide Inv;
    if |es| > 0 {
      StepInv(c, s, es[0]);
      NegativeRun(c, Step(c, s, es[0]), es[1..], t);
    }
  }

  /** Such a state can be reached exactly when the refill threshold is negative. */
  lemma StuckIffNegativeThreshold(c: Config)
    requires ValidConfig(c)
    ensures (exists s :: Reachable(c, s) && Stuck(s)) <==> c.threshold < 0
  {
    hide Inv, Leads;
    if c.threshold < 0 {
      InitialInv(c);
      var es, t := Drain(c, Initial(c));
      assert Reachable(c, t);
    } else {
      forall s | Reachable(c, s)
        ensures !Stuck(s)
      {
        ReachableInv(c, s);
        InvMain(c, s);
      }
    }
  }

  /** Calls of acquire until the queue is empty, and one more. */
  lemma {:induction false} Drain(c: Config, s: State) returns (es: seq<Event>, t: State)
    requires Inv(c, s) && c.threshold < 0 && !Active(s) && (s.main.Fresh? || s.main.Returned?)
    ensures Leads(c, s, es, t) && Stuck(t)
    decreases |s.queue|
  {
    hide Inv, Leads, Capacity;
    var s1 := AcquireWaits(c, s);
    var head := [Call, Caller(true), Caller(true)];
    if |s.queue| == 0 {
      es, t := head, s1;
    } else {
      var s2, s3 := Step(c, s1, Caller(true)), Step(c, Step(c, s1, Caller(true)), Caller(true));
      StepInv(c, s1, Caller(true));
      StepInv(c, s2, Caller(true));
      PopReturns(c, s1, s2, s3);
      var fs;
      fs, t := Drain(c, s3);
      es := head + ([Caller(true)] + ([Caller(true)] + fs));
      Chain(c, s2, Caller(true), fs, t);
      Chain(c, s1, Caller(true), [Caller(true)] + fs, t);
      LeadsJoin(c, s, head, s1, [Caller(true)] + ([Caller(true)] + fs), t);
    }
  }

  lemma PopReturns(c: Config, s1: State, s2: State, s3: State)
    requires Inv(c, s1) && s1.main.Wait? && |s1.queue| > 0 && !Active(s1)
    requires s2 == s1.(main := Pop) && Shaped(s2) && s3 == Step(c, s2, Caller(true))
    ensures !Active(s3) && s3.main.Returned? && |s3.queue| == |s1.queue| - 1
  {
  }

  /** With a negative threshold, no refill is started. */
  lemma AcquireWaits(c: Config, s: State) returns (t: State)
    requires Inv(c, s) && c.threshold < 0 && !Active(s) && (s.main.Fresh? || s.main.Returned?)
    ensures Leads(c, s, [Call, Caller(true), Caller(true)], t) && Inv(c, t) && t == s.(main := Wait) && Shaped(t)
  {
    hide Inv, Capacity;
    StepInv(c, s, Call);
    var s1 := Step(c, s, Call);
    StepInv(c, s1, Caller(true));
    var s2 := Step(c, s1, Caller(true));
    StepInv(c, s2, Caller(true));
    t := Step(c, s2, Caller(true));
    Chain(c, s2, Caller(true), [], t);
    Chain(c, s1, Caller(true), [Caller(true)], t);
    Chain(c, s, Call, [Caller(true), Caller(true)], t);
    assert [Call] + ([Caller(true)] + ([Caller(true)] + [])) == [Call, Caller(true), Caller(true)];
  }

  // ---------------------------------------------------------------------
  // Seeds
  // ---------------------------------------------------------------------

  /** In every run, two launches share a seed exactly when a multiple of 2^32 launches lies between them. */
  lemma SeedsCollide(c: Config, s: State, i: nat, j: nat)
    requires Reachable(c, s) && i <= j < |s.seeds|
    ensures |s.seeds| == s.launches - 1
    ensures s.seeds[i] == s.seeds[j] <==> (j - i) % B32 == 0
  {
    hide Inv, Reachable;
    ReachableInv(c, s);
    InvSeeds(c, s);
    SameSeed(c, i + 1, j + 1);
  }

  lemma InvSeeds(c: Config, s: State)
    requires Inv(c, s)
    ensures SeedsOk(c, s)
  {
  }

  lemma SameSeed(c: Config, j: nat, k: nat)
    requires 1 <= j <= k
    ensures Seed(c, j) == Seed(c, k) <==> (k - j) % B32 == 0
  {
  }
}
