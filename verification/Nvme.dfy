/** The queue protocol of drivers/storage/NVMe.c: a submission ring, a
    completion ring with a phase tag, the driver on one side and a controller
    that completes commands in order on the other (section 4.6 of NVM Express 1.4). */
module Nvme {
  import opened Divisors

  // ----- rings

  /** The slot of the k-th entry ever placed in a ring of n slots. */
  function Slot(k: int, n: nat): (i: nat)
    requires n > 0
    ensures i < n
  {
    k % n
  }

  /** The phase tag of the k-th completion: 1 on the first pass, then alternating. */
  function Tag(k: int, n: nat): (tag: nat)
    requires n > 0
    ensures tag <= 1
  {
    if k / n % 2 == 0 then 1 else 0
  }

  lemma NextSlot(k: int, n: nat)
    requires n > 1
    ensures Slot(k + 1, n) == (Slot(k, n) + 1) % n
    ensures (Slot(k, n) + 1) % n == if Slot(k, n) + 1 == n then 0 else Slot(k, n) + 1
    ensures Tag(k + 1, n) == if Slot(k + 1, n) == 0 then 1 - Tag(k, n) else Tag(k, n)
  {
    var q, r := k / n, k % n;
    assert k == q * n + r;
    if r + 1 == n {
      assert k + 1 == (q + 1) * n + 0;
      DivisionUnique(k + 1, n, q + 1, 0);
      DivisionUnique(n, n, 1, 0);
    } else {
      DivisionUnique(k + 1, n, q, r + 1);
      DivisionUnique(r + 1, n, 0, r + 1);
    }
  }

  /** Fewer than n apart, entries sit in different slots. */
  lemma SlotsDiffer(j: int, k: int, n: nat)
    requires n > 0 && 0 < k - j < n
    ensures Slot(j, n) != Slot(k, n)
  {
    var q, r := j / n, j % n;
    var d := k - j;
    assert k == q * n + (r + d);
    if r + d < n {
      DivisionUnique(k, n, q, r + d);
    } else {
      assert k == (q + 1) * n + (r + d - n);
      DivisionUnique(k, n, q + 1, r + d - n);
    }
  }

  /** One pass earlier: the same slot, the other tag. */
  lemma PreviousPass(k: int, n: nat)
    requires n > 0
    ensures Slot(k - n, n) == Slot(k, n) && Tag(k - n, n) == 1 - Tag(k, n)
  {
    var q, r := k / n, k % n;
    assert k - n == (q - 1) * n + r;
    DivisionUnique(k - n, n, q - 1, r);
  }

  // ----- the state of one queue pair

  type Status = s: nat | s < 0x1_0000

  /** What a submit call returned: the status code, or a timeout. */
  datatype Outcome = Done(code: nat) | TimedOut

  /** The driver's fields, the shared rings and doorbells, and the controller's
      side with what it has fetched and posted. */
  datatype Queues<C> = Queues(
    n: nat,
    // shared memory
    sq: seq<C>, cq: seq<Status>,
    // driver: io_sq_tail, io_cq_head, io_cq_phase; a submit in progress
    sqTail: nat, cqHead: nat, phase: nat, waiting: bool,
    // doorbell registers
    sqDoorbell: nat, cqDoorbell: nat,
    // controller
    fetchHead: nat, postTail: nat, postTag: nat, fetched: seq<C>, posted: seq<nat>,
    // history: commands submitted, outcomes returned
    submitted: seq<C>, outcomes: seq<Outcome>)

  /** The rings as set up: cleared, the first expected tag 1. */
  function Initial<C>(n: nat, blank: C): Queues<C>
  {
    Queues(n, seq(n, _ => blank), seq(n, _ => 0), 0, 0, 1, false, 0, 0, 0, 0, 1, [], [], [], [])
  }

  datatype Step<C> =
    | Submit(cmd: C)        // driver: write the entry, advance the tail, ring the doorbell
    | Poll                  // driver: one turn of the polling loop
    | Timeout               // driver: give up waiting
    | Fetch                 // controller: read the next submission entry
    | Post(code: nat)       // controller: complete the oldest fetched command

  predicate Enabled<C>(q: Queues<C>, step: Step<C>)
  {
    match step
    case Submit(_) => !q.waiting
    case Poll => q.waiting
    case Timeout => q.waiting
    case Fetch => q.fetchHead != q.sqDoorbell
    case Post(code) =>
      && code < 0x8000 && |q.posted| < |q.fetched|
      && q.n > 0 && (q.postTail + 1) % q.n != q.cqDoorbell
  }

  /** The phase-tag test: `(status & 1) == io_cq_phase`. */
  predicate TagMatches<C>(q: Queues<C>)
    requires q.cqHead < |q.cq|
  {
    q.cq[q.cqHead] % 2 == q.phase
  }

  predicate Shaped<C>(q: Queues<C>)
  {
    && q.n >= 2 && |q.sq| == q.n && |q.cq| == q.n
    && q.sqTail < q.n && q.cqHead < q.n && q.fetchHead < q.n && q.postTail < q.n
    && q.phase <= 1 && q.postTag <= 1
  }

  function Apply<C>(q: Queues<C>, step: Step<C>): (q': Queues<C>)
    requires Shaped(q) && Enabled(q, step)
    ensures Shaped(q')
  {
    match step
    case Submit(cmd) =>
      var tail := (q.sqTail + 1) % q.n;
      q.(sq := q.sq[q.sqTail := cmd], sqTail := tail, sqDoorbell := tail, waiting := true,
         submitted := q.submitted + [cmd])
    case Poll =>
      if TagMatches(q) then
        var head := (q.cqHead + 1) % q.n;
        q.(cqHead := head, phase := if head == 0 then 1 - q.phase else q.phase, cqDoorbell := head,
           waiting := false, outcomes := q.outcomes + [Done(q.cq[q.cqHead] / 2 % 0x800)])
      else q
    case Timeout =>
      q.(waiting := false, outcomes := q.outcomes + [TimedOut])
    case Fetch =>
      q.(fetched := q.fetched + [q.sq[q.fetchHead]], fetchHead := (q.fetchHead + 1) % q.n)
    case Post(code) =>
      var tail := (q.postTail + 1) % q.n;
      q.(cq := q.cq[q.postTail := code * 2 + q.postTag], postTail := tail,
         postTag := if tail == 0 then 1 - q.postTag else q.postTag, posted := q.posted + [code])
  }

  // ----- the invariant

  /** The number of submits that returned a completion. */
  function Consumed(outcomes: seq<Outcome>): (k: nat)
    ensures k <= |outcomes|
  {
    if outcomes == [] then 0
    else Consumed(outcomes[..|outcomes| - 1]) + if outcomes[|outcomes| - 1].Done? then 1 else 0
  }

  function Timeouts(outcomes: seq<Outcome>): nat { |outcomes| - Consumed(outcomes) }

  ghost predicate Counters<C>(q: Queues<C>)
  {
    var s, f, p, r := |q.submitted|, |q.fetched|, |q.posted|, Consumed(q.outcomes);
    && Shaped(q)
    && r <= p <= f <= s && p - r <= q.n - 1 && |q.outcomes| + (if q.waiting then 1 else 0) == s
    && q.sqTail == q.sqDoorbell == Slot(s, q.n) && q.fetchHead == Slot(f, q.n)
    && q.postTail == Slot(p, q.n) && q.postTag == Tag(p, q.n)
    && q.cqHead == q.cqDoorbell == Slot(r, q.n) && q.phase == Tag(r, q.n)
  }

  /** The last n completions, those before the first pass counting as tag 0, are in their slots. */
  ghost predicate Completions<C>(q: Queues<C>)
    requires Shaped(q)
  {
    && (forall k :: |q.posted| - q.n <= k < |q.posted| ==> q.cq[Slot(k, q.n)] % 2 == Tag(k, q.n))
    && (forall k :: 0 <= k && |q.posted| - q.n <= k < |q.posted| ==> q.cq[Slot(k, q.n)] / 2 == q.posted[k])
  }

  /** The j-th completion consumed carries the j-th status posted. */
  ghost predicate Returned<C>(q: Queues<C>)
  {
    forall i :: 0 <= i < |q.outcomes| && q.outcomes[i].Done? ==>
      && Consumed(q.outcomes[..i]) < |q.posted|
      && q.outcomes[i].code == q.posted[Consumed(q.outcomes[..i])] % 0x800
  }

  /** What every run keeps. */
  ghost predicate Inv<C>(q: Queues<C>)
  {
    Counters(q) && Completions(q) && Returned(q)
  }

  /** The commands not yet fetched are in their slots, and what was fetched is what was submitted. */
  ghost predicate Submissions<C>(q: Queues<C>)
    requires Shaped(q)
  {
    && |q.fetched| <= |q.submitted| && q.fetched == q.submitted[..|q.fetched|]
    && forall k :: |q.fetched| <= k < |q.submitted| ==> q.sq[Slot(k, q.n)] == q.submitted[k]
  }

  /** What is kept as long as the submission ring is not filled up: one slot stays empty. */
  ghost predicate Intact<C>(q: Queues<C>)
  {
    Shaped(q) && Submissions(q) && |q.submitted| - |q.fetched| <= q.n - 1
  }

  /** There is a slot to spare for a submit. */
  predicate HasSlot<C>(q: Queues<C>)
  {
    |q.submitted| - |q.fetched| <= q.n - 2
  }

  // ----- every step keeps it

  lemma InitialInv<C>(n: nat, blank: C)
    requires n >= 2
    ensures Inv(Initial(n, blank)) && Intact(Initial(n, blank))
  {
    var q := Initial(n, blank);
    DivisionUnique(0, n, 0, 0);
    forall k: int | 0 <= k + n && k < 0 ensures Tag(k, n) == 0 {
      assert k == (-1) * n + (k + n);
      DivisionUnique(k, n, -1, k + n);
    }
    assert Slot(0, n) == 0 && Tag(0, n) == 1;
    hide Slot, Tag;
    assert Completions(q);
  }

  lemma SubmitInv<C>(q: Queues<C>, cmd: C)
    requires Inv(q) && !q.waiting
    ensures Inv(Apply(q, Submit(cmd)))
  {
    hide Slot, Tag;
    NextSlot(|q.submitted|, q.n);
  }

  /** A submit overwrites no unread command, and leaves the ring intact exactly when a slot was to spare. */
  lemma SubmitIntact<C>(q: Queues<C>, cmd: C)
    requires Inv(q) && Intact(q) && !q.waiting
    ensures Submissions(Apply(q, Submit(cmd)))
    ensures Intact(Apply(q, Submit(cmd))) <==> HasSlot(q)
  {
    hide Slot, Tag;
    var q' := Apply(q, Submit(cmd));
    var s, f := |q.submitted|, |q.fetched|;
    forall k | f <= k < s + 1 ensures q'.sq[Slot(k, q.n)] == q'.submitted[k] {
      if k < s { SlotsDiffer(k, s, q.n); }
    }
  }

  /** A submit into the last slot makes the full ring look empty: the controller fetches nothing more. */
  lemma FullLooksEmpty<C>(q: Queues<C>, cmd: C)
    requires Inv(q) && Intact(q) && !q.waiting && !HasSlot(q)
    ensures var q' := Apply(q, Submit(cmd)); |q'.submitted| - |q'.fetched| == q.n && !Enabled(q', Fetch)
  {
    NextSlot(|q.submitted|, q.n);
    PreviousPass(|q.submitted| + 1, q.n);
  }

  /** The test succeeds exactly when an unconsumed completion is at the head, and then it is the next one. */
  lemma PhaseTest<C>(q: Queues<C>)
    requires Inv(q)
    ensures TagMatches(q) <==> Consumed(q.outcomes) < |q.posted|
    ensures TagMatches(q) ==> q.cq[q.cqHead] / 2 == q.posted[Consumed(q.outcomes)]
  {
    hide Slot, Tag;
    var r := Consumed(q.outcomes);
    if r == |q.posted| {
      PreviousPass(r, q.n);
    }
  }

  lemma ConsumedAppend(outcomes: seq<Outcome>, o: Outcome)
    ensures Consumed(outcomes + [o]) == Consumed(outcomes) + if o.Done? then 1 else 0
    ensures forall i :: 0 <= i <= |outcomes| ==> (outcomes + [o])[..i] == outcomes[..i]
    ensures outcomes[..|outcomes|] == outcomes
  {
    assert (outcomes + [o])[..|outcomes|] == outcomes;
  }

  lemma ConsumedOneMore(outcomes: seq<Outcome>, o: Outcome)
    requires o.Done?
    ensures Consumed(outcomes + [o]) == Consumed(outcomes) + 1
  {
    ConsumedAppend(outcomes, o);
  }

  lemma PollInv<C>(q: Queues<C>)
    requires Inv(q) && q.waiting
    ensures Inv(Apply(q, Poll))
  {
    PhaseTest(q);
    if TagMatches(q) {
      PollCounts(q);
      PollReturns(q);
      PollKeepsRings(q);
      hide Counters, Completions, Returned;
    }
  }

  lemma PollCounts<C>(q: Queues<C>)
    requires Counters(q) && q.waiting && TagMatches(q) && Consumed(q.outcomes) < |q.posted|
    ensures Counters(Apply(q, Poll))
  {
    hide Slot, Tag, Consumed;
    NextSlot(Consumed(q.outcomes), q.n);
    ConsumedOneMore(q.outcomes, Done(q.cq[q.cqHead] / 2 % 0x800));
  }

  lemma PollKeepsRings<C>(q: Queues<C>)
    requires Shaped(q) && q.waiting && Completions(q)
    ensures Completions(Apply(q, Poll))
  {
    hide Slot, Tag;
  }

  lemma PollReturns<C>(q: Queues<C>)
    requires Shaped(q) && q.waiting && Returned(q) && TagMatches(q) && Consumed(q.outcomes) < |q.posted|
    requires q.cq[q.cqHead] / 2 == q.posted[Consumed(q.outcomes)]
    ensures Returned(Apply(q, Poll))
  {
    ConsumedAppend(q.outcomes, Done(q.cq[q.cqHead] / 2 % 0x800));
    hide Consumed;
  }

  lemma TimeoutInv<C>(q: Queues<C>)
    requires Inv(q) && q.waiting
    ensures Inv(Apply(q, Timeout))
  {
    hide Slot, Tag;
    ConsumedAppend(q.outcomes, TimedOut);
  }

  lemma FetchInv<C>(q: Queues<C>)
    requires Inv(q) && Enabled(q, Fetch)
    ensures Inv(Apply(q, Fetch))
  {
    hide Slot, Tag;
    NextSlot(|q.fetched|, q.n);
  }

  /** The controller sees work exactly when a submitted command is unfetched, and reads that command. */
  lemma FetchIntact<C>(q: Queues<C>)
    requires Inv(q) && Intact(q)
    ensures Enabled(q, Fetch) <==> |q.fetched| < |q.submitted|
    ensures Enabled(q, Fetch) ==> q.sq[q.fetchHead] == q.submitted[|q.fetched|] && Intact(Apply(q, Fetch))
  {
    hide Slot, Tag;
    var s, f := |q.submitted|, |q.fetched|;
    if f < s { SlotsDiffer(f, s, q.n); }
  }

  /** The controller is held up only while n - 1 completions wait to be consumed. */
  lemma PostInv<C>(q: Queues<C>, code: nat)
    requires Inv(q) && code < 0x8000
    ensures Enabled(q, Post(code)) <==> |q.posted| < |q.fetched| && |q.posted| - Consumed(q.outcomes) <= q.n - 2
    ensures Enabled(q, Post(code)) ==> Inv(Apply(q, Post(code)))
  {
    var p, r := |q.posted|, Consumed(q.outcomes);
    NextSlot(p, q.n);
    if p - r <= q.n - 2 {
      SlotsDiffer(r, p + 1, q.n);
    } else {
      PreviousPass(p + 1, q.n);
    }
    if Enabled(q, Post(code)) { PostKeepsCompletions(q, code); }
  }

  lemma PostKeepsCompletions<C>(q: Queues<C>, code: nat)
    requires Inv(q) && Enabled(q, Post(code)) && |q.posted| - Consumed(q.outcomes) <= q.n - 2
    ensures Inv(Apply(q, Post(code)))
  {
    hide Slot, Tag;
    var q' := Apply(q, Post(code));
    var p := |q.posted|;
    NextSlot(p, q.n);
    forall k: int | p + 1 <= k + q.n && k < p + 1
      ensures q'.cq[Slot(k, q.n)] % 2 == Tag(k, q.n)
      ensures k >= 0 ==> q'.cq[Slot(k, q.n)] / 2 == q'.posted[k]
    {
      if k < p { SlotsDiffer(k, p, q.n); }
    }
  }

  // ----- runs

  /** The steps lead from q to end, each enabled when it is taken. */
  ghost predicate Run<C>(q: Queues<C>, steps: seq<Step<C>>, end: Queues<C>)
    requires Shaped(q)
    decreases |steps|
  {
    if steps == [] then end == q
    else Enabled(q, steps[0]) && Run(Apply(q, steps[0]), steps[1..], end)
  }

  lemma StepInv<C>(q: Queues<C>, step: Step<C>)
    requires Inv(q) && Enabled(q, step)
    ensures Inv(Apply(q, step))
  {
    match step
    case Submit(cmd) => SubmitInv(q, cmd);
    case Poll => PollInv(q);
    case Timeout => TimeoutInv(q);
    case Fetch => FetchInv(q);
    case Post(code) => PostInv(q, code);
  }

  /** Safety of every run, over any number of wraps and timeouts. */
  lemma {:induction false} RunInv<C>(q: Queues<C>, steps: seq<Step<C>>, end: Queues<C>)
    requires Inv(q) && Run(q, steps, end)
    ensures Inv(end)
    decreases |steps|
  {
    hide Inv, Apply;
    if steps != [] {
      assert Shaped(q) by { InvShaped(q); }
      StepInv(q, steps[0]);
      RunInv(Apply(q, steps[0]), steps[1..], end);
    }
  }

  lemma InvShaped<C>(q: Queues<C>)
    requires Inv(q)
    ensures Shaped(q)
  {
  }

  /** Every submit of the run finds a slot to spare. */
  ghost predicate Spaced<C>(q: Queues<C>, steps: seq<Step<C>>)
    requires Shaped(q)
    decreases |steps|
  {
    steps == [] || (Enabled(q, steps[0]) && (steps[0].Submit? ==> HasSlot(q)) && Spaced(Apply(q, steps[0]), steps[1..]))
  }

  lemma StepIntact<C>(q: Queues<C>, step: Step<C>)
    requires Inv(q) && Intact(q) && Enabled(q, step) && (step.Submit? ==> HasSlot(q))
    ensures Intact(Apply(q, step))
  {
    hide Slot, Tag;
    if step.Submit? {
      SubmitIntact(q, step.cmd);
    } else if step.Fetch? {
      FetchIntact(q);
    }
  }

  /** No submission slot is overwritten unread, in every run whose submits find a slot to spare. */
  lemma {:induction false} RunIntact<C>(q: Queues<C>, steps: seq<Step<C>>, end: Queues<C>)
    requires Inv(q) && Intact(q) && Run(q, steps, end) && Spaced(q, steps)
    ensures Intact(end)
    decreases |steps|
  {
    hide Inv, Intact, Apply, HasSlot;
    if steps != [] {
      assert Shaped(q) by { InvShaped(q); }
      StepInv(q, steps[0]);
      StepIntact(q, steps[0]);
      RunIntact(Apply(q, steps[0]), steps[1..], end);
    }
  }

  lemma {:induction false} TimeoutsGrow<C>(q: Queues<C>, steps: seq<Step<C>>, end: Queues<C>)
    requires Shaped(q) && Run(q, steps, end)
    ensures Timeouts(q.outcomes) <= Timeouts(end.outcomes) && end.n == q.n
    decreases |steps|
  {
    if steps != [] {
      var q' := Apply(q, steps[0]);
      if steps[0].Timeout? { ConsumedAppend(q.outcomes, TimedOut); }
      if steps[0].Poll? && TagMatches(q) { ConsumedAppend(q.outcomes, Done(q.cq[q.cqHead] / 2 % 0x800)); }
      TimeoutsGrow(q', steps[1..], end);
    }
  }

  /** With at most n - 2 timeouts every submit finds a slot to spare. */
  lemma {:induction false} FewTimeoutsSpaced<C>(q: Queues<C>, steps: seq<Step<C>>, end: Queues<C>)
    requires Inv(q) && Run(q, steps, end) && Timeouts(end.outcomes) <= q.n - 2
    ensures Spaced(q, steps)
    decreases |steps|
  {
    if steps != [] {
      TimeoutsGrow(q, steps, end);
      var q' := Apply(q, steps[0]);
      StepInv(q, steps[0]);
      hide Inv, Counters;
      FewTimeoutsSpaced(q', steps[1..], end);
      if steps[0].Submit? { Outstanding(q); }
    }
  }

  /** Between submits the commands not consumed are those that timed out. */
  lemma Outstanding<C>(q: Queues<C>)
    requires Inv(q) && !q.waiting
    ensures |q.submitted| - |q.fetched| <= |q.submitted| - Consumed(q.outcomes) == Timeouts(q.outcomes)
  {
  }

  // ----- what the driver's callers can rely on

  /** In every run a submit that completes returns the status of the command as many
      places back as submits before it timed out. */
  lemma AnswersAreShifted<C>(n: nat, blank: C, steps: seq<Step<C>>, end: Queues<C>, k: nat)
    requires n >= 2 && Run(Initial(n, blank), steps, end)
    requires k < |end.outcomes| && end.outcomes[k].Done?
    ensures var late := Timeouts(end.outcomes[..k]);
            && 0 <= k - late < |end.posted| <= |end.fetched| <= |end.submitted|
            && end.outcomes[k].code == end.posted[k - late] % 0x800
  {
    InitialInv(n, blank);
    RunInv(Initial(n, blank), steps, end);
  }

  /** With no timeout the k-th submit returns the status of the k-th command,
      which the controller received exactly as submitted. */
  lemma EverySubmitItsOwnStatus<C>(n: nat, blank: C, steps: seq<Step<C>>, end: Queues<C>, k: nat)
    requires n >= 2 && Run(Initial(n, blank), steps, end) && Timeouts(end.outcomes) == 0
    requires k < |end.outcomes|
    ensures k < |end.posted| && k < |end.fetched| && k < |end.submitted|
    ensures end.outcomes[k] == Done(end.posted[k] % 0x800)
    ensures end.fetched[k] == end.submitted[k]
  {
    InitialInv(n, blank);
    NoTimeouts(end.outcomes, k);
    AnswersAreShifted(n, blank, steps, end, k);
    FewTimeoutsSpaced(Initial(n, blank), steps, end);
    RunIntact(Initial(n, blank), steps, end);
  }

  lemma {:induction false} NoTimeouts(outcomes: seq<Outcome>, k: nat)
    requires Timeouts(outcomes) == 0 && k <= |outcomes|
    ensures Consumed(outcomes[..k]) == k && (k < |outcomes| ==> outcomes[k].Done?)
    decreases |outcomes|
  {
    if outcomes != [] {
      var front := outcomes[..|outcomes| - 1];
      if k == |outcomes| {
        assert outcomes[..k] == outcomes;
      } else {
        assert outcomes[..k] == front[..k];
        NoTimeouts(front, k);
      }
    }
  }

  /** One timeout on a ring of three: the second submit returns the first command's
      status before its own command has even been fetched. */
  lemma LateAnswer() returns (steps: seq<Step<int>>, end: Queues<int>)
    ensures steps == [Submit(0), Timeout, Submit(1), Fetch, Post(7), Poll] && Run(Initial(3, 9), steps, end)
    ensures end.outcomes == [TimedOut, Done(7)] && end.submitted == [0, 1] && end.fetched == [0] && end.posted == [7]
  {
    var q := LateSubmit();
    end := LatePoll(q);
    hide Apply, Initial;
    steps := [Fetch, Post(7), Poll];
    RunStep(Apply(Apply(Initial(3, 9), Submit(0)), Timeout), Submit(1), steps, end);
    RunStep(Apply(Initial(3, 9), Submit(0)), Timeout, [Submit(1)] + steps, end);
    RunStep(Initial(3, 9), Submit(0), [Timeout] + ([Submit(1)] + steps), end);
    steps := [Submit(0)] + ([Timeout] + ([Submit(1)] + steps));
  }

  lemma LateSubmit() returns (q: Queues<int>)
    ensures Enabled(Initial(3, 9), Submit(0)) && Enabled(Apply(Initial(3, 9), Submit(0)), Timeout)
    ensures Enabled(Apply(Apply(Initial(3, 9), Submit(0)), Timeout), Submit(1))
    ensures q == Apply(Apply(Apply(Initial(3, 9), Submit(0)), Timeout), Submit(1))
    ensures q == Queues(3, [0, 1, 9], [0, 0, 0], 2, 0, 1, true, 2, 0, 0, 0, 1, [], [], [0, 1], [TimedOut])
  {
    FirstSubmit();
    hide Initial;
    q := SecondSubmit(Apply(Initial(3, 9), Submit(0)));
  }

  lemma FirstSubmit()
    ensures Shaped(Initial(3, 9)) && Enabled(Initial(3, 9), Submit(0))
    ensures Apply(Initial(3, 9), Submit(0)) ==
            Queues(3, [0, 9, 9], [0, 0, 0], 1, 0, 1, true, 1, 0, 0, 0, 1, [], [], [0], [])
  {
  }

  lemma SecondSubmit(q1: Queues<int>) returns (q: Queues<int>)
    requires q1 == Queues(3, [0, 9, 9], [0, 0, 0], 1, 0, 1, true, 1, 0, 0, 0, 1, [], [], [0], [])
    ensures Shaped(q1) && Enabled(Apply(q1, Timeout), Submit(1)) && q == Apply(Apply(q1, Timeout), Submit(1))
    ensures q == Queues(3, [0, 1, 9], [0, 0, 0], 2, 0, 1, true, 2, 0, 0, 0, 1, [], [], [0, 1], [TimedOut])
  {
    q := Apply(Apply(q1, Timeout), Submit(1));
  }

  lemma LatePoll(q: Queues<int>) returns (end: Queues<int>)
    requires q == Queues(3, [0, 1, 9], [0, 0, 0], 2, 0, 1, true, 2, 0, 0, 0, 1, [], [], [0, 1], [TimedOut])
    ensures Run(q, [Fetch, Post(7), Poll], end)
    ensures end.outcomes == [TimedOut, Done(7)] && end.submitted == [0, 1] && end.fetched == [0] && end.posted == [7]
  {
    var q4 := Apply(q, Fetch);
    var q5 := Apply(q4, Post(7));
    assert q5.cq == [15, 0, 0] && TagMatches(q5);
    end := Apply(q5, Poll);
    hide Apply;
    var last: seq<Step<int>> := [Poll];
    RunStep(q5, Poll, [], end);
    assert [Poll] + [] == last;
    RunStep(q4, Post(7), last, end);
    assert [Post(7)] + last == [Post(7), Poll];
    RunStep(q, Fetch, [Post(7)] + last, end);
    assert [Fetch] + ([Post(7)] + last) == [Fetch, Post(7), Poll];
  }

  lemma RunStep<C>(q: Queues<C>, step: Step<C>, rest: seq<Step<C>>, end: Queues<C>)
    requires Shaped(q) && Enabled(q, step) && Run(Apply(q, step), rest, end)
    ensures Run(q, [step] + rest, end)
  {
    assert ([step] + rest)[1..] == rest;
  }

  /** For every ring size, n - 1 timeouts can fill the ring: the bound of FewTimeoutsSpaced is sharp. */
  lemma TimeoutsFillRing<C>(n: nat, blank: C, cmd: C) returns (steps: seq<Step<C>>, end: Queues<C>)
    requires n >= 2
    ensures Run(Initial(n, blank), steps, end) && Timeouts(end.outcomes) == n - 1
    ensures Inv(end) && Intact(end) && !end.waiting && !HasSlot(end)
    ensures !Enabled(Apply(end, Submit(cmd)), Fetch) && |Apply(end, Submit(cmd)).fetched| == 0
  {
    InitialInv(n, blank);
    steps, end := Stalled(Initial(n, blank), cmd, n - 1);
    FullLooksEmpty(end, cmd);
  }

  /** As many submits as fit the ring, each given up, while the controller does nothing. */
  lemma {:induction false} Stalled<C>(q: Queues<C>, cmd: C, k: nat) returns (steps: seq<Step<C>>, end: Queues<C>)
    requires Inv(q) && Intact(q) && !q.waiting && |q.submitted| - |q.fetched| + k <= q.n - 1
    ensures Run(q, steps, end) && Timeouts(end.outcomes) == Timeouts(q.outcomes) + k
    ensures Inv(end) && Intact(end) && !end.waiting && end.n == q.n
    ensures end.fetched == q.fetched && |end.submitted| == |q.submitted| + k
    decreases k
  {
    if k == 0 {
      steps, end := [], q;
    } else {
      hide Inv, Intact, Apply, Timeouts;
      StallOnce(q, cmd);
      var q1 := Apply(q, Submit(cmd));
      steps, end := Stalled(Apply(q1, Timeout), cmd, k - 1);
      RunStep(q1, Timeout, steps, end);
      RunStep(q, Submit(cmd), [Timeout] + steps, end);
      steps := [Submit(cmd)] + ([Timeout] + steps);
    }
  }

  lemma StallOnce<C>(q: Queues<C>, cmd: C)
    requires Inv(q) && Intact(q) && !q.waiting && HasSlot(q)
    ensures Shaped(q) && Enabled(Apply(q, Submit(cmd)), Timeout)
    ensures var q2 := Apply(Apply(q, Submit(cmd)), Timeout);
            && Inv(q2) && Intact(q2) && !q2.waiting && q2.n == q.n && q2.fetched == q.fetched
            && |q2.submitted| == |q.submitted| + 1 && Timeouts(q2.outcomes) == Timeouts(q.outcomes) + 1
  {
    hide Slot, Tag, Completions, Returned;
    SubmitInv(q, cmd);
    SubmitIntact(q, cmd);
    TimeoutInv(Apply(q, Submit(cmd)));
    ConsumedAppend(q.outcomes, TimedOut);
  }

  /** The controller tries a step. */
  function Advance<C>(q: Queues<C>, step: Step<C>): (q': Queues<C>)
    requires Shaped(q)
    ensures Shaped(q') && q'.waiting == q.waiting
  {
    if (step.Fetch? || step.Post?) && Enabled(q, step) then Apply(q, step) else q
  }

  /** The controller tries several. */
  function AdvanceAll<C>(q: Queues<C>, steps: seq<Step<C>>): (q': Queues<C>)
    requires Shaped(q)
    ensures Shaped(q') && q'.waiting == q.waiting
    decreases |steps|
  {
    if steps == [] then q else AdvanceAll(Advance(q, steps[0]), steps[1..])
  }

  lemma {:induction false} AdvanceAllInv<C>(q: Queues<C>, steps: seq<Step<C>>)
    requires Inv(q)
    ensures var q' := AdvanceAll(q, steps);
            && Inv(q') && (Intact(q) ==> Intact(q'))
            && q'.n == q.n && q'.submitted == q.submitted && q'.outcomes == q.outcomes
    decreases |steps|
  {
    if steps != [] {
      var q1 := Advance(q, steps[0]);
      if q1 != q {
        StepInv(q, steps[0]);
        if Intact(q) { StepIntact(q, steps[0]); }
      }
      hide Inv, Intact;
      AdvanceAllInv(q1, steps[1..]);
    }
  }

  /** What waiting comes to: the first poll that finds a completion, or a timeout when
      the schedule is over. It lists the controller's steps before each poll. */
  function Await<C>(q: Queues<C>, schedule: seq<seq<Step<C>>>): Queues<C>
    requires Shaped(q) && q.waiting
    decreases |schedule|
  {
    if schedule == [] then Apply(q, Timeout)
    else
      var q' := AdvanceAll(q, schedule[0]);
      if TagMatches(q') then Apply(q', Poll) else Await(q', schedule[1..])
  }

  /** Where the controller gets by the bursts, if the driver consumes nothing. */
  ghost function After<C>(q: Queues<C>, bursts: seq<seq<Step<C>>>): (q': Queues<C>)
    requires Shaped(q)
    ensures Shaped(q')
    decreases |bursts|
  {
    if bursts == [] then q else After(AdvanceAll(q, bursts[0]), bursts[1..])
  }

  /** At no poll is there a completion that has not been consumed. */
  ghost predicate NonePending<C>(q: Queues<C>, schedule: seq<seq<Step<C>>>)
    requires Shaped(q)
  {
    forall k :: 0 < k <= |schedule| ==> |After(q, schedule[..k]).posted| <= Consumed(q.outcomes)
  }

  /** Waiting ends in a timeout exactly then. */
  lemma {:induction false} AwaitGivesUp<C>(q: Queues<C>, schedule: seq<seq<Step<C>>>)
    requires Inv(q) && q.waiting
    ensures Shaped(q) && |Await(q, schedule).outcomes| == |q.outcomes| + 1
    ensures Await(q, schedule).outcomes[|q.outcomes|].TimedOut? <==> NonePending(q, schedule)
    decreases |schedule|
  {
    InvShaped(q);
    if schedule != [] {
      var q', rest := AdvanceAll(q, schedule[0]), schedule[1..];
      AdvanceAllInv(q, schedule[0]);
      PhaseTest(q');
      hide Inv, Apply, AdvanceAll;
      PendingStep(q, schedule);
      if TagMatches(q') {
        PollDone(q');
      } else {
        AwaitGivesUp(q', rest);
      }
    }
  }

  lemma PollDone<C>(q: Queues<C>)
    requires Shaped(q) && q.waiting && TagMatches(q)
    ensures |Apply(q, Poll).outcomes| == |q.outcomes| + 1 && Apply(q, Poll).outcomes[|q.outcomes|].Done?
  {
  }

  lemma PendingStep<C>(q: Queues<C>, schedule: seq<seq<Step<C>>>)
    requires Shaped(q) && schedule != [] && AdvanceAll(q, schedule[0]).outcomes == q.outcomes
    ensures var q' := AdvanceAll(q, schedule[0]);
            NonePending(q, schedule) <==> |q'.posted| <= Consumed(q.outcomes) && NonePending(q', schedule[1..])
  {
    hide AdvanceAll, Consumed;
    var q', rest := AdvanceAll(q, schedule[0]), schedule[1..];
    forall k | 0 < k <= |schedule| ensures After(q, schedule[..k]) == After(q', rest[..k - 1]) {
      assert schedule[..k][1..] == rest[..k - 1];
    }
    assert rest[..0] == [] && After(q', []) == q';
    if NonePending(q, schedule) {
      assert |After(q, schedule[..1]).posted| <= Consumed(q.outcomes);
      forall k | 0 < k <= |rest| ensures |After(q', rest[..k]).posted| <= Consumed(q.outcomes) {
        assert |After(q, schedule[..k + 1]).posted| <= Consumed(q.outcomes);
      }
    }
  }

  /** One queue pair of the driver. */
  class Driver<C> {
    var q: Queues<C>

    constructor (n: nat, blank: C)
      requires n >= 2
      ensures q == Initial(n, blank) && Inv(q) && Intact(q) && !q.waiting
    {
      q := Initial(n, blank);
      InitialInv(n, blank);
    }

    /** Write the entry, ring the doorbell and poll. Before each poll the controller
        tries any number of steps; when the schedule is exhausted the driver gives up.
        A code returned is the status of this command exactly when no earlier submit timed out. */
    method SubmitCommand(cmd: C, schedule: seq<seq<Step<C>>>) returns (rc: int)
      requires Inv(q) && !q.waiting
      modifies this
      ensures Shaped(old(q)) && q == Await(Apply(old(q), Submit(cmd)), schedule)
      ensures Inv(q) && !q.waiting && q.n == old(q).n
      ensures q.submitted == old(q).submitted + [cmd]
      // it gives up exactly when no completion is pending at any poll
      ensures rc == -1 <==> NonePending(Apply(old(q), Submit(cmd)), schedule)
      ensures rc == -1 ==> q.outcomes == old(q).outcomes + [TimedOut]
      ensures rc != -1 ==> rc >= 0 && q.outcomes == old(q).outcomes + [Done(rc)]
      ensures rc != -1 ==>
                var k := |old(q).submitted| - Timeouts(old(q).outcomes);
                0 <= k < |q.posted| <= |q.fetched| && k < |q.submitted| && rc == q.posted[k] % 0x800
      // with a slot to spare the ring stays intact: the commands fetched are those submitted
      ensures old(Intact(q)) && old(HasSlot(q)) ==> Intact(q)
    {
      hide Counters, Submissions, Completions, Returned, Intact, AdvanceAll, NonePending;
      InvShaped(q);
      SubmitInv(q, cmd);
      ghost var spare := Intact(q) && HasSlot(q);
      if spare { StepIntact(q, Submit(cmd)); }
      q := Apply(q, Submit(cmd));
      ghost var q0 := q;
      AwaitGivesUp(q0, schedule);
      var i := 0;
      assert schedule[0..] == schedule;
      while i < |schedule|
        invariant i <= |schedule| && Inv(q) && q.waiting && q.n == old(q).n && Shaped(q) && (spare ==> Intact(q))
        invariant q.submitted == old(q).submitted + [cmd] && q.outcomes == old(q).outcomes
        invariant Await(q, schedule[i..]) == Await(q0, schedule)
      {
        assert schedule[i..][0] == schedule[i] && schedule[i..][1..] == schedule[i + 1..];
        AdvanceAllInv(q, schedule[i]);
        q := AdvanceAll(q, schedule[i]);
        if TagMatches(q) {
          rc := q.cq[q.cqHead] / 2 % 0x800;
          PollInv(q);
          NextStatus(q);
          if spare { StepIntact(q, Poll); }
          q := Apply(q, Poll);
          return;
        }
        i := i + 1;
      }
      TimeoutInv(q);
      if spare { StepIntact(q, Timeout); }
      q := Apply(q, Timeout);
      rc := -1;
    }
  }

  /** The completion a submit finds belongs to the command as many places back as submits timed out. */
  lemma NextStatus<C>(q: Queues<C>)
    requires Inv(q) && q.waiting && TagMatches(q)
    ensures var k := |q.submitted| - 1 - Timeouts(q.outcomes);
            && 0 <= k < |q.posted| <= |q.fetched| && k < |q.submitted|
            && q.cq[q.cqHead] / 2 == q.posted[k]
  {
    PhaseTest(q);
  }
}
