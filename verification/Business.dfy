/**
 The request and reply protocol of business.rs: any number of senders and dispatch tasks, interleaved step by step,
 over the shared sequence allocator, the pending map and the one-shot reply channels. A request is its own thread;
 the server is arbitrary and may send packets with any sequence number at any time.
 */
module Business {
  import Seq = Sequence

  type Request = nat
  type Task = nat

  /** Why the receiver of a request is gone: its post failed or panicked, or its caller's timeout dropped the future. */
  datatype Cause = PostFailed | PostPanicked | Cancelled

  /** send_packet and push_event, from the outside in. */
  datatype Phase =
    | Building                   // in next_sequence
    | Numbered                   // the packet has its sequence number
    | Inserted                   // the reply channel is in the pending map
    | Waiting                    // the packet is posted, the receiver awaits
    | Answered(sequence: nat)    // the receiver got a result, from a packet with this sequence number
    | Dropped(cause: Cause)      // the receiver is gone, the entry is not
    | Pushed                     // push_event: posted, no reply wanted

  /** dispatch_sso_packet, once resolve_event and the handlers are done. */
  datatype TaskState =
    | Resolved(sequence: nat)                     // before pending_requests.remove
    | Holding(sequence: nat, request: Request)    // removed an entry, before tx.send
    | Sent(sequence: nat, request: Request)       // tx.send passed the result on
    | Panicked(sequence: nat, request: Request)   // tx.send found the receiver dropped
    | Unclaimed(sequence: nat)                    // there was no entry

  datatype State = State(
    alloc: Seq.State,
    phases: map<Request, Phase>,
    numbers: map<Request, nat>,        // the sequence number of a request
    pending: map<nat, Request>,        // pending_requests
    mailbox: map<Request, nat>,        // what was sent to a reply channel: the sequence of the packet
    tasks: map<Task, TaskState>,
    inserted: set<Request>,            // history: requests that were put into the map
    removed: set<Request>)             // history: requests whose entry was taken out
  {
    predicate Is(r: Request, p: Phase) {
      r in phases && phases[r] == p
    }

    /** The receiver of this request is gone. */
    predicate Gone(r: Request) {
      r in phases && phases[r].Dropped?
    }

    predicate Runs(d: Task, t: TaskState) {
      d in tasks && tasks[d] == t
    }

    /** This task took the entry of this request out. */
    predicate Claims(d: Task, r: Request) {
      d in tasks && (tasks[d].Holding? || tasks[d].Sent? || tasks[d].Panicked?) && tasks[d].request == r
    }
  }

  datatype Action =
    | Begin(r: Request)
    | Allocate(a: Seq.Action)
    | Insert(r: Request)
    | Post(r: Request)
    | Drop(r: Request, cause: Cause)
    | Push(r: Request)
    | Arrive(d: Task, sequence: nat)
    | Remove(d: Task)
    | Send(d: Task)
    | Await(r: Request)

  const INIT := State(Seq.INIT, map[], map[], map[], map[], map[], {}, {})

  predicate Enabled(s: State, a: Action) {
    match a
    case Begin(r) => r !in s.phases
    case Allocate(b) => s.Is(b.t, Building) && Seq.Enabled(s.alloc, b)
    case Insert(r) => s.Is(r, Numbered) && r in s.numbers
    case Post(r) => s.Is(r, Inserted)
    case Drop(r, cause) => s.Is(r, Inserted) || (s.Is(r, Waiting) && cause == Cancelled)
    case Push(r) => s.Is(r, Numbered)
    case Arrive(d, _) => d !in s.tasks
    case Remove(d) => d in s.tasks && s.tasks[d].Resolved?
    case Send(d) => d in s.tasks && s.tasks[d].Holding?
    case Await(r) => s.Is(r, Waiting) && r in s.mailbox
  }

  function Apply(s: State, a: Action): State
    requires Enabled(s, a)
  {
    match a
    case Begin(r) => s.(phases := s.phases[r := Building])
    case Allocate(b) =>
      var alloc := Seq.Apply(s.alloc, b);
      if b.FetchAdd? then
        s.(alloc := alloc, phases := s.phases[b.t := Numbered], numbers := s.numbers[b.t := s.alloc.value])
      else s.(alloc := alloc)
    case Insert(r) =>
      s.(pending := s.pending[s.numbers[r] := r], phases := s.phases[r := Inserted], inserted := s.inserted + {r})
    case Post(r) => s.(phases := s.phases[r := Waiting])
    case Drop(r, cause) => s.(phases := s.phases[r := Dropped(cause)])
    case Push(r) => s.(phases := s.phases[r := Pushed])
    case Arrive(d, n) => s.(tasks := s.tasks[d := Resolved(n)])
    case Remove(d) =>
      var n := s.tasks[d].sequence;
      if n in s.pending then
        s.(pending := s.pending - {n}, tasks := s.tasks[d := Holding(n, s.pending[n])], removed := s.removed + {s.pending[n]})
      else s.(tasks := s.tasks[d := Unclaimed(n)])
    case Send(d) =>
      var Holding(n, r) := s.tasks[d];
      if s.Gone(r) then s.(tasks := s.tasks[d := Panicked(n, r)])
      else s.(tasks := s.tasks[d := Sent(n, r)], mailbox := s.mailbox[r := n])
    case Await(r) => s.(phases := s.phases[r := Answered(s.mailbox[r])])
  }

  predicate IsRun(run: seq<Action>)
    decreases |run|, 0
  {
    run == [] || (IsRun(run[..|run| - 1]) && Enabled(After(run[..|run| - 1]), run[|run| - 1]))
  }

  function After(run: seq<Action>): State
    requires IsRun(run)
    decreases |run|, 1
  {
    if run == [] then INIT else Apply(After(run[..|run| - 1]), run[|run| - 1])
  }

  // ----- the invariant, in layers

  /** Numbers are pairwise distinct and were all returned by the allocator. */
  ghost predicate Distinct(s: State) {
    && Seq.Inv(s.alloc)
    && (forall r :: r in s.numbers ==> s.numbers[r] < s.alloc.value && s.alloc.offsets != [])
    && (forall r, q :: r in s.numbers && q in s.numbers && s.numbers[r] == s.numbers[q] ==> r == q)
  }

  /** A request has a number from the moment its allocation returns, and is in the map's history once inserted. */
  ghost predicate Phased(s: State) {
    && (forall r :: r in s.numbers ==> r in s.phases && s.phases[r] != Building)
    && (forall r :: r in s.phases && s.phases[r] != Building ==> r in s.numbers)
    && (forall r :: r in s.inserted <==> r in s.phases && s.phases[r] !in {Building, Numbered, Pushed})
    && (forall r :: r !in s.phases ==> s.alloc.At(r) == Seq.Idle)
  }

  /** The pending map holds exactly the requests that were inserted and not yet removed, under their own numbers. */
  ghost predicate Exact(s: State) {
    && s.removed <= s.inserted
    && (forall n :: n in s.pending ==> s.pending[n] in s.inserted - s.removed)
    && (forall n :: n in s.pending ==> s.pending[n] in s.numbers && s.numbers[s.pending[n]] == n)
    && (forall r :: r in s.inserted - s.removed ==> r in s.numbers && s.numbers[r] in s.pending)
  }

  /** Every entry that was removed is one task's: it still holds it, or sent the result, or panicked on a gone receiver. */
  ghost predicate Delivered(s: State) {
    && (forall r :: r in s.removed ==> exists d :: s.Claims(d, r))
    && (forall d, e, r | s.Claims(d, r) && s.Claims(e, r) :: d == e)
    && (forall d, r | s.Claims(d, r) :: r in s.removed && r in s.numbers && s.numbers[r] == s.tasks[d].sequence)
    && (forall d, r | s.Claims(d, r) :: (s.tasks[d].Sent? <==> r in s.mailbox) && (s.tasks[d].Panicked? ==> s.Gone(r)))
    && (forall r :: r in s.mailbox ==> r in s.removed && r in s.numbers && s.mailbox[r] == s.numbers[r])
    && (forall r :: r in s.phases && s.phases[r].Answered? ==> r in s.mailbox && s.phases[r].sequence == s.mailbox[r])
  }

  ghost predicate Inv(s: State) {
    Distinct(s) && Phased(s) && Exact(s) && Delivered(s)
  }

  lemma KeepsDistinct(s: State, a: Action)
    requires Distinct(s) && Phased(s) && Enabled(s, a) && |Apply(s, a).alloc.returned| < Seq.SAFE_CALLS
    ensures Distinct(Apply(s, a))
  {
    hide Distinct, Phased, Seq.Inv, Seq.Apply, Seq.Enabled;
    if a.Allocate? {
      DistinctAfterAllocate(s, a.a);
    } else {
      DistinctFrame(s, Apply(s, a));
    }
  }

  lemma DistinctFrame(s: State, s': State)
    requires Distinct(s) && s'.alloc == s.alloc && s'.numbers == s.numbers
    ensures Distinct(s')
  {
    hide Seq.Inv;
  }

  lemma DistinctAfterAllocate(s: State, b: Seq.Action)
    requires Distinct(s) && Phased(s) && Enabled(s, Allocate(b))
    requires |Seq.Apply(s.alloc, b).returned| < Seq.SAFE_CALLS
    ensures Distinct(Apply(s, Allocate(b)))
  {
    hide Seq.Inv, Seq.Apply, Seq.Enabled;
    Seq.StepKeepsInv(s.alloc, b);
    Seq.ValueGrows(s.alloc, b);
  }

  lemma PhasedAfterAllocate(s: State, b: Seq.Action)
    requires Phased(s) && Enabled(s, Allocate(b))
    ensures Phased(Apply(s, Allocate(b)))
  {
    hide Seq.Inv, Seq.Apply, Seq.Enabled;
    forall r | r !in s.phases
      ensures Seq.Apply(s.alloc, b).At(r) == Seq.Idle
    {
      Seq.OthersStay(s.alloc, b, r);
    }
  }

  lemma KeepsPhased(s: State, a: Action)
    requires Phased(s) && Enabled(s, a)
    ensures Phased(Apply(s, a))
  {
    hide Phased, Seq.Inv, Seq.Apply, Seq.Enabled, Seq.State.At;
    match a
    case Allocate(b) => PhasedAfterAllocate(s, b);
    case Begin(r) => PhasedAfterBegin(s, r);
    case Insert(r) => PhasedAfterInsert(s, r);
    case Post(r) => PhasedAfterPhase(s, r, Waiting);
    case Drop(r, cause) => PhasedAfterPhase(s, r, Dropped(cause));
    case Push(r) => PhasedAfterPush(s, r);
    case Await(r) => PhasedAfterPhase(s, r, Answered(s.mailbox[r]));
    case _ => PhasedFrame(s, Apply(s, a));
  }

  lemma PhasedFrame(s: State, s': State)
    requires Phased(s) && s'.alloc == s.alloc && s'.phases == s.phases && s'.numbers == s.numbers && s'.inserted == s.inserted
    ensures Phased(s')
  {
    hide Seq.State.At;
  }

  lemma PhasedAfterBegin(s: State, r: Request)
    requires Phased(s) && r !in s.phases
    ensures Phased(s.(phases := s.phases[r := Building]))
  {
    hide Seq.State.At;
  }

  lemma PhasedAfterInsert(s: State, r: Request)
    requires Phased(s) && Enabled(s, Insert(r))
    ensures Phased(Apply(s, Insert(r)))
  {
    hide Seq.State.At;
  }

  lemma PhasedAfterPush(s: State, r: Request)
    requires Phased(s) && s.Is(r, Numbered)
    ensures Phased(s.(phases := s.phases[r := Pushed]))
  {
    hide Seq.State.At;
  }

  lemma PhasedAfterPhase(s: State, r: Request, p: Phase)
    requires Phased(s) && r in s.phases && s.phases[r] in {Inserted, Waiting} && p !in {Building, Numbered, Pushed}
    ensures Phased(s.(phases := s.phases[r := p]))
  {
    hide Seq.State.At;
  }

  lemma KeepsExact(s: State, a: Action)
    requires Distinct(s) && Phased(s) && Exact(s) && Enabled(s, a)
    ensures Exact(Apply(s, a))
  {
    hide Distinct, Phased, Exact, Seq.Inv, Seq.Apply, Seq.Enabled, Seq.State.At;
    match a
    case Insert(r) => ExactAfterInsert(s, r);
    case Remove(d) => ExactAfterRemove(s, d);
    case Allocate(b) => ExactAfterAllocate(s, b);
    case _ => ExactFrame(s, Apply(s, a));
  }

  lemma ExactFrame(s: State, s': State)
    requires Exact(s)
    requires s'.pending == s.pending && s'.inserted == s.inserted && s'.removed == s.removed && s'.numbers == s.numbers
    ensures Exact(s')
  {
  }

  lemma ExactAfterAllocate(s: State, b: Seq.Action)
    requires Phased(s) && Exact(s) && Enabled(s, Allocate(b))
    ensures Exact(Apply(s, Allocate(b)))
  {
    hide Seq.Inv, Seq.Apply, Seq.Enabled, Seq.State.At;
    assert b.t !in s.inserted;
  }

  lemma ExactAfterInsert(s: State, r: Request)
    requires Distinct(s) && Phased(s) && Exact(s) && Enabled(s, Insert(r))
    ensures Exact(Apply(s, Insert(r)))
  {
    hide Seq.Inv, Seq.Apply, Seq.Enabled, Seq.State.At;
    assert r !in s.inserted;
  }

  lemma ExactAfterRemove(s: State, d: Task)
    requires Distinct(s) && Phased(s) && Exact(s) && Enabled(s, Remove(d))
    ensures Exact(Apply(s, Remove(d)))
  {
    hide Seq.Inv, Seq.Apply, Seq.Enabled, Seq.State.At;
  }

  lemma KeepsDelivered(s: State, a: Action)
    requires Inv(s) && Enabled(s, a)
    ensures Delivered(Apply(s, a))
  {
    hide Distinct, Phased, Exact, Delivered, Seq.Inv, Seq.Apply, Seq.Enabled, Seq.State.At;
    match a
    case Remove(d) => DeliveredAfterRemove(s, d);
    case Send(d) => DeliveredAfterSend(s, d);
    case Arrive(d, n) => DeliveredAfterTask(s, d, Resolved(n));
    case Await(r) => DeliveredAfterAwait(s, r);
    case Allocate(b) => DeliveredAfterAllocate(s, b);
    case Begin(r) => DeliveredAfterPhase(s, r, Building);
    case Insert(r) => DeliveredAfterInsert(s, r);
    case Post(r) => DeliveredAfterPhase(s, r, Waiting);
    case Drop(r, cause) => DeliveredAfterPhase(s, r, Dropped(cause));
    case Push(r) => DeliveredAfterPhase(s, r, Pushed);
  }

  lemma EntryOf(s: State, n: nat)
    requires Exact(s)
    ensures n in s.pending ==>
              s.pending[n] in s.inserted - s.removed && s.pending[n] in s.numbers && s.numbers[s.pending[n]] == n
  {
  }

  lemma DeliveredAfterRemove(s: State, d: Task)
    requires Inv(s) && Enabled(s, Remove(d))
    ensures Delivered(Apply(s, Remove(d)))
  {
    var n := s.tasks[d].sequence;
    EntryOf(s, n);
    hide Distinct, Phased, Exact, Delivered, Seq.Apply, Seq.Enabled;
    if n in s.pending {
      DeliveredAfterTaking(s, Apply(s, Remove(d)), d, n, s.pending[n]);
    } else {
      DeliveredAfterTask(s, d, Unclaimed(n));
    }
  }

  /** A task moves between states in which it holds nothing. */
  lemma DeliveredAfterTask(s: State, d: Task, t: TaskState)
    requires Delivered(s) && (t.Resolved? || t.Unclaimed?) && (d in s.tasks ==> s.tasks[d].Resolved?)
    ensures Delivered(s.(tasks := s.tasks[d := t]))
  {
    var s' := s.(tasks := s.tasks[d := t]);
    assert forall e, r :: s'.Claims(e, r) <==> s.Claims(e, r);
    forall r | r in s'.removed
      ensures exists e :: s'.Claims(e, r)
    {
      var e :| s.Claims(e, r);
      assert s'.Claims(e, r);
    }
  }

  lemma DeliveredAfterTaking(s: State, s': State, d: Task, n: nat, r: Request)
    requires Delivered(s) && s.Runs(d, Resolved(n)) && r !in s.removed && r in s.numbers && s.numbers[r] == n
    requires s'.tasks == s.tasks[d := Holding(n, r)] && s'.removed == s.removed + {r}
    requires s'.numbers == s.numbers && s'.mailbox == s.mailbox && s'.phases == s.phases
    ensures Delivered(s')
  {
    assert forall e, q :: e != d ==> (s'.Claims(e, q) <==> s.Claims(e, q));
    assert s'.Claims(d, r);
    forall q | q in s'.removed
      ensures exists e :: s'.Claims(e, q)
    {
      if q in s.removed {
        var e :| s.Claims(e, q);
        assert s'.Claims(e, q);
      }
    }
  }

  lemma DeliveredAfterSend(s: State, d: Task)
    requires Delivered(s) && Enabled(s, Send(d))
    ensures Delivered(Apply(s, Send(d)))
  {
    hide Seq.Inv, Seq.Apply, Seq.Enabled, Seq.State.At;
    var s' := Apply(s, Send(d));
    assert s.Claims(d, s.tasks[d].request);
    assert forall e, r :: s'.Claims(e, r) <==> s.Claims(e, r);
  }

  lemma ClaimsFrame(s: State, s': State)
    requires s'.tasks == s.tasks
    ensures forall d, r :: s'.Claims(d, r) <==> s.Claims(d, r)
  {
  }

  lemma DeliveredAfterAwait(s: State, r: Request)
    requires Delivered(s) && Enabled(s, Await(r))
    ensures Delivered(Apply(s, Await(r)))
  {
    hide Seq.Apply, Seq.Enabled;
    ClaimsFrame(s, Apply(s, Await(r)));
  }

  lemma DeliveredAfterAllocate(s: State, b: Seq.Action)
    requires Phased(s) && Exact(s) && Delivered(s) && Enabled(s, Allocate(b))
    ensures Delivered(Apply(s, Allocate(b)))
  {
    hide Seq.Inv, Seq.Apply, Seq.Enabled, Seq.State.At;
    assert b.t !in s.removed;
    ClaimsFrame(s, Apply(s, Allocate(b)));
  }

  /** A sender that goes on to a phase without an answer does not touch tasks or reply channels. */
  lemma DeliveredAfterPhase(s: State, r: Request, p: Phase)
    requires Delivered(s) && !p.Answered? && !s.Gone(r)
    ensures Delivered(s.(phases := s.phases[r := p]))
  {
    ClaimsFrame(s, s.(phases := s.phases[r := p]));
  }

  lemma DeliveredAfterInsert(s: State, r: Request)
    requires Delivered(s) && Enabled(s, Insert(r))
    ensures Delivered(Apply(s, Insert(r)))
  {
    hide Seq.Apply, Seq.Enabled;
    ClaimsFrame(s, Apply(s, Insert(r)));
  }

  lemma {:induction false} RunKeepsInv(run: seq<Action>)
    requires IsRun(run) && |After(run).alloc.returned| < Seq.SAFE_CALLS
    ensures Inv(After(run))
  {
    hide Distinct, Phased, Exact, Delivered, Apply, Enabled;
    if run == [] {
      InitInv();
    } else {
      var before, a := After(run[..|run| - 1]), run[|run| - 1];
      ReturnedGrows(before, a);
      RunKeepsInv(run[..|run| - 1]);
      KeepsDistinct(before, a);
      KeepsPhased(before, a);
      KeepsExact(before, a);
      KeepsDelivered(before, a);
    }
  }

  lemma ReturnedGrows(s: State, a: Action)
    requires Enabled(s, a)
    ensures |s.alloc.returned| <= |Apply(s, a).alloc.returned|
  {
    if a.Allocate? {
      Seq.ReturnedGrows(s.alloc, a.a);
    }
  }

  lemma InitInv()
    ensures Inv(INIT)
  {
  }

  // ----- what it means for the callers

  /** In every run the pending keys are the numbers of the requests inserted and not yet removed, and no others. */
  lemma PendingIsExact(run: seq<Action>)
    requires IsRun(run) && |After(run).alloc.returned| < Seq.SAFE_CALLS
    ensures var s := After(run);
            && s.inserted - s.removed <= s.numbers.Keys
            && s.pending.Keys == (set r | r in s.inserted - s.removed :: s.numbers[r])
            && forall r :: r in s.inserted - s.removed ==> s.numbers[r] in s.pending && s.pending[s.numbers[r]] == r
  {
    RunKeepsInv(run);
    hide IsRun, After, Delivered;
    var s := After(run);
    forall n | n in s.pending
      ensures n in (set r | r in s.inserted - s.removed :: s.numbers[r])
    {
      assert s.numbers[s.pending[n]] == n;
    }
  }

  /** From the insertion on, the first packet with its number finds the entry of a request, whether or not it is posted. */
  lemma FirstReplyFindsEntry(run: seq<Action>, d: Task, r: Request)
    requires IsRun(run) && |After(run).alloc.returned| < Seq.SAFE_CALLS
    requires r in After(run).inserted - After(run).removed
    requires r in After(run).numbers && After(run).Runs(d, Resolved(After(run).numbers[r]))
    ensures var s := After(run);
            Enabled(s, Remove(d)) && Apply(s, Remove(d)).Runs(d, Holding(s.numbers[r], r))
  {
    PendingIsExact(run);
  }

  /** An answer comes from a packet with the request's own sequence number. */
  lemma AnsweredByOwnSequence(run: seq<Action>, r: Request)
    requires IsRun(run) && |After(run).alloc.returned| < Seq.SAFE_CALLS
    requires r in After(run).phases && After(run).phases[r].Answered?
    ensures r in After(run).numbers && After(run).phases[r].sequence == After(run).numbers[r]
  {
    RunKeepsInv(run);
  }

  /** Only one task ever takes out the entry of a request, and it sends to its reply channel once at most. */
  lemma SentOnce(run: seq<Action>, d: Task, e: Task, r: Request)
    requires IsRun(run) && |After(run).alloc.returned| < Seq.SAFE_CALLS
    requires After(run).Claims(d, r) && After(run).Claims(e, r)
    ensures d == e && (Enabled(After(run), Send(d)) ==> r !in After(run).mailbox)
  {
    RunKeepsInv(run);
  }

  /** A waiting receiver is never left without a sender: its entry is pending, or a task holds it, or it has its result. */
  lemma WaiterIsServed(run: seq<Action>, r: Request)
    requires IsRun(run) && |After(run).alloc.returned| < Seq.SAFE_CALLS
    requires After(run).Is(r, Waiting)
    ensures var s := After(run);
            || (r in s.numbers && s.numbers[r] in s.pending && s.pending[s.numbers[r]] == r)
            || (exists d :: s.Claims(d, r) && s.tasks[d].Holding?)
            || r in s.mailbox
  {
    PendingIsExact(run);
    RunKeepsInv(run);
    hide IsRun, After;
    var s := After(run);
    if r in s.removed && r !in s.mailbox {
      var d :| s.Claims(d, r);
      assert s.tasks[d].Holding?;
    }
  }

  // ----- receivers that are gone

  lemma LastStep(run: seq<Action>)
    requires IsRun(run) && run != []
    ensures var shorter, a := run[..|run| - 1], run[|run| - 1];
            IsRun(shorter) && Enabled(After(shorter), a) && After(run) == Apply(After(shorter), a)
  {
  }

  lemma GoneStep(s: State, a: Action, r: Request)
    requires Enabled(s, a)
    ensures Apply(s, a).Gone(r) <==> s.Gone(r) || (a.Drop? && a.r == r)
  {
    hide Seq.Enabled, Seq.Apply;
  }

  lemma PanicStep(s: State, a: Action, d: Task, n: nat, r: Request)
    requires Enabled(s, a)
    ensures Apply(s, a).Runs(d, Panicked(n, r))
            <==> s.Runs(d, Panicked(n, r)) || (a == Send(d) && s.Runs(d, Holding(n, r)) && s.Gone(r))
  {
    hide Seq.Enabled, Seq.Apply;
  }

  /** Some step of the run drops the receiver of this request. */
  predicate Drops(run: seq<Action>, r: Request) {
    exists j :: 0 <= j < |run| && run[j].Drop? && run[j].r == r
  }

  lemma DropsStep(run: seq<Action>, a: Action, r: Request)
    ensures Drops(run + [a], r) <==> Drops(run, r) || (a.Drop? && a.r == r)
  {
    var longer := run + [a];
    assert longer[|run|] == a;
    assert forall j :: 0 <= j < |run| ==> longer[j] == run[j];
  }

  /** A receiver that is gone was dropped by some step, and no step brings it back. */
  lemma {:induction false} GoneIffDropped(run: seq<Action>, r: Request)
    requires IsRun(run)
    ensures After(run).Gone(r) <==> Drops(run, r)
  {
    if run != [] {
      LastStep(run);
      hide IsRun, After, Apply, Enabled, Drops;
      var shorter, a := run[..|run| - 1], run[|run| - 1];
      GoneIffDropped(shorter, r);
      GoneStep(After(shorter), a, r);
      DropsStep(shorter, a, r);
      assert run == shorter + [a];
    }
  }

  /** Step k of the run is the send of this task, for a request whose receiver was dropped by a step before it. */
  ghost predicate SendsTooLate(run: seq<Action>, k: nat, d: Task, n: nat, r: Request) {
    k < |run| && run[k] == Send(d) && Drops(run[..k], r) && IsRun(run[..k]) && After(run[..k]).Runs(d, Holding(n, r))
  }

  lemma LateStep(run: seq<Action>, d: Task, n: nat, r: Request)
    requires IsRun(run) && run != []
    ensures var shorter := run[..|run| - 1];
            IsRun(shorter)
            && ((exists k: nat :: SendsTooLate(run, k, d, n, r))
                <==> (exists k: nat :: SendsTooLate(shorter, k, d, n, r))
                     || (run[|run| - 1] == Send(d) && Drops(shorter, r) && After(shorter).Runs(d, Holding(n, r))))
  {
    LastStep(run);
    hide IsRun, After, Apply, Enabled, Drops;
    var shorter, last := run[..|run| - 1], |run| - 1;
    if k: nat :| SendsTooLate(run, k, d, n, r) {
      assert k < last ==> run[..k] == shorter[..k];
      assert k < last ==> SendsTooLate(shorter, k, d, n, r);
    }
    if k: nat :| SendsTooLate(shorter, k, d, n, r) {
      assert run[..k] == shorter[..k];
      assert SendsTooLate(run, k, d, n, r);
    }
    if run[last] == Send(d) && Drops(shorter, r) && After(shorter).Runs(d, Holding(n, r)) {
      assert SendsTooLate(run, last, d, n, r);
    }
  }

  /**
   Over every run: a dispatch task has panicked exactly when it held an entry whose receiver had been dropped, by a post
   that failed or panicked or by a caller that gave up, at some step before its send.
   */
  lemma {:induction false} PanicIffDropped(run: seq<Action>, d: Task, n: nat, r: Request)
    requires IsRun(run)
    ensures After(run).Runs(d, Panicked(n, r)) <==> exists k: nat :: SendsTooLate(run, k, d, n, r)
  {
    if run != [] {
      LastStep(run);
      hide IsRun, After, Apply, Enabled, SendsTooLate;
      var shorter, a := run[..|run| - 1], run[|run| - 1];
      PanicIffDropped(shorter, d, n, r);
      GoneIffDropped(shorter, r);
      PanicStep(After(shorter), a, d, n, r);
      LateStep(run, d, n, r);
    }
  }

  /** In a run in which no receiver is dropped, no dispatch task ever panics. */
  lemma NoDropNoPanic(run: seq<Action>, d: Task)
    requires IsRun(run) && forall j :: 0 <= j < |run| ==> !run[j].Drop?
    ensures d in After(run).tasks ==> !After(run).tasks[d].Panicked?
  {
    hide IsRun, After;
    if d in After(run).tasks && After(run).tasks[d].Panicked? {
      PanicIffDropped(run, d, After(run).tasks[d].sequence, After(run).tasks[d].request);
    }
  }

  lemma RunAppend(run: seq<Action>, a: Action)
    requires IsRun(run) && Enabled(After(run), a)
    ensures IsRun(run + [a]) && After(run + [a]) == Apply(After(run), a)
  {
    hide Seq.Enabled, Seq.Apply;
    assert (run + [a])[..|run|] == run;
  }

  /** A packet with the number of this request is handled by a new task, up to its send. */
  function Reply(d: Task, n: nat): seq<Action> {
    [Arrive(d, n), Remove(d), Send(d)]
  }

  lemma ReplySteps(s: State, d: Task, n: nat, r: Request)
    requires n in s.pending && s.pending[n] == r && d !in s.tasks
    ensures Enabled(s, Arrive(d, n))
    ensures Enabled(Apply(s, Arrive(d, n)), Remove(d))
    ensures var held := Apply(Apply(s, Arrive(d, n)), Remove(d));
            Enabled(held, Send(d))
            && var s' := Apply(held, Send(d));
               && s'.phases == s.phases
               && s'.Runs(d, if s.Gone(r) then Panicked(n, r) else Sent(n, r))
               && (!s.Gone(r) ==> r in s'.mailbox && s'.mailbox[r] == n)
  {
    hide Seq.Enabled, Seq.Apply;
  }

  /** What the reply to an inserted request comes to, whichever run led here: a panic if its receiver is gone. */
  lemma ReplyTo(run: seq<Action>, d: Task, r: Request)
    requires IsRun(run) && |After(run).alloc.returned| < Seq.SAFE_CALLS
    requires r in After(run).inserted - After(run).removed && d !in After(run).tasks
    ensures r in After(run).numbers
    ensures var n := After(run).numbers[r];
            var run' := run + Reply(d, n);
            && IsRun(run') && After(run').phases == After(run).phases
            && After(run').Runs(d, if After(run).Gone(r) then Panicked(n, r) else Sent(n, r))
            && (!After(run).Gone(r) ==> r in After(run').mailbox && After(run').mailbox[r] == n)
  {
    PendingIsExact(run);
    hide IsRun, After, Enabled, Apply;
    var n := After(run).numbers[r];
    ReplySteps(After(run), d, n, r);
    RunAppend(run, Arrive(d, n));
    RunAppend(run + [Arrive(d, n)], Remove(d));
    RunAppend(run + [Arrive(d, n)] + [Remove(d)], Send(d));
    assert run + Reply(d, n) == run + [Arrive(d, n)] + [Remove(d)] + [Send(d)];
  }

  /** The same request, unanswered, is one late reply from a panic if its caller gives up, and from its answer if not. */
  lemma TimeoutOrAnswer(run: seq<Action>, d: Task, r: Request)
    requires IsRun(run) && |After(run).alloc.returned| < Seq.SAFE_CALLS
    requires After(run).Is(r, Waiting) && r !in After(run).removed && d !in After(run).tasks
    ensures r in After(run).numbers
    ensures var n := After(run).numbers[r];
            var late, timely := run + [Drop(r, Cancelled)] + Reply(d, n), run + Reply(d, n) + [Await(r)];
            && IsRun(late) && After(late).Runs(d, Panicked(n, r))
            && IsRun(timely) && After(timely).Is(r, Answered(n))
  {
    hide IsRun, After, Seq.Enabled, Seq.Apply;
    WaitingIsInserted(run, r);
    ReplyTo(run, d, r);
    RunAppend(run + Reply(d, After(run).numbers[r]), Await(r));
    RunAppend(run, Drop(r, Cancelled));
    ReplyTo(run + [Drop(r, Cancelled)], d, r);
  }

  lemma WaitingIsInserted(run: seq<Action>, r: Request)
    requires IsRun(run) && |After(run).alloc.returned| < Seq.SAFE_CALLS && After(run).Is(r, Waiting)
    ensures r in After(run).inserted
  {
    RunKeepsInv(run);
    hide IsRun, After, Distinct, Exact, Delivered;
  }

  /** The first request of the process, up to its wait for the reply. */
  function FirstRequest(offset: nat): seq<Action> {
    [Begin(0), Allocate(Seq.Call(0)), Allocate(Seq.Store(0, offset)), Allocate(Seq.FetchAdd(0)), Insert(0), Post(0)]
  }

  lemma FirstRequestWaits(offset: nat)
    requires Seq.FIRST_OFFSET <= offset <= Seq.LAST_OFFSET
    ensures IsRun(FirstRequest(offset))
    ensures var s := After(FirstRequest(offset));
            s.Is(0, Waiting) && s.removed == {} && s.tasks == map[] && |s.alloc.returned| == 1
  {
    assert IsRun([]) && After([]) == INIT;
    hide IsRun, After;
    var all := FirstRequest(offset);
    RunAppend([], Begin(0));
    RunAppend([] + [Begin(0)], all[1]);
    RunAppend([] + [Begin(0)] + [all[1]], all[2]);
    RunAppend([] + [Begin(0)] + [all[1]] + [all[2]], all[3]);
    RunAppend([] + [Begin(0)] + [all[1]] + [all[2]] + [all[3]], Insert(0));
    RunAppend([] + [Begin(0)] + [all[1]] + [all[2]] + [all[3]] + [Insert(0)], Post(0));
    assert all == [] + [Begin(0)] + [all[1]] + [all[2]] + [all[3]] + [Insert(0)] + [Post(0)];
  }

  lemma NoOtherCause(offset: nat, d: Task, n: nat)
    ensures forall a :: a in FirstRequest(offset) + [Drop(0, Cancelled)] + Reply(d, n) && a.Drop? ==> a.cause == Cancelled
  {
  }

  /** A run in which every post succeeds and a dispatch task panics all the same, on a reply behind the timeout. */
  lemma LateReplyPanics(offset: nat, d: Task)
    requires Seq.FIRST_OFFSET <= offset <= Seq.LAST_OFFSET
    ensures exists run: seq<Action>, n: nat :: IsRun(run) && After(run).Runs(d, Panicked(n, 0))
                             && forall a :: a in run && a.Drop? ==> a.cause == Cancelled
  {
    hide IsRun, After, FirstRequest, Reply;
    FirstRequestWaits(offset);
    var run := FirstRequest(offset);
    TimeoutOrAnswer(run, d, 0);
    var n := After(run).numbers[0];
    NoOtherCause(offset, d, n);
    assert IsRun(run + [Drop(0, Cancelled)] + Reply(d, n));
  }

  /** The entry of a request whose receiver is gone stays, and only a packet with its number takes it out. */
  lemma DroppedEntryStays(run: seq<Action>, r: Request, a: Action)
    requires IsRun(run) && |After(run).alloc.returned| < Seq.SAFE_CALLS
    requires After(run).Gone(r) && r !in After(run).removed
    requires Enabled(After(run), a)
    ensures var s := After(run);
            && r in s.numbers && s.numbers[r] in s.pending && s.pending[s.numbers[r]] == r
            && (r !in Apply(s, a).removed <==> !(a.Remove? && s.tasks[a.d].sequence == s.numbers[r]))
  {
    RunKeepsInv(run);
    hide IsRun, After;
    GoneEntryStays(After(run), r, a);
  }

  lemma GoneEntryStays(s: State, r: Request, a: Action)
    requires Distinct(s) && Phased(s) && Exact(s) && s.Gone(r) && r !in s.removed && Enabled(s, a)
    ensures r in s.numbers && s.numbers[r] in s.pending && s.pending[s.numbers[r]] == r
    ensures r !in Apply(s, a).removed <==> !(a.Remove? && s.tasks[a.d].sequence == s.numbers[r])
  {
    hide Seq.Inv, Seq.Apply, Seq.Enabled, Seq.State.At;
  }

  /** A post that fails or panics leaves an entry behind just as a timeout does: the reply to it panics too. */
  lemma FailedPostPanics(run: seq<Action>, d: Task, r: Request, cause: Cause)
    requires IsRun(run) && |After(run).alloc.returned| < Seq.SAFE_CALLS
    requires After(run).Is(r, Inserted) && r !in After(run).removed && d !in After(run).tasks
    ensures r in After(run).numbers
    ensures var n := After(run).numbers[r];
            var late := run + [Drop(r, cause)] + Reply(d, n);
            IsRun(late) && After(late).Runs(d, Panicked(n, r))
  {
    hide IsRun, After, Seq.Enabled, Seq.Apply;
    InsertedIsInserted(run, r);
    RunAppend(run, Drop(r, cause));
    ReplyTo(run + [Drop(r, cause)], d, r);
    PendingIsExact(run);
  }

  lemma InsertedIsInserted(run: seq<Action>, r: Request)
    requires IsRun(run) && |After(run).alloc.returned| < Seq.SAFE_CALLS && After(run).Is(r, Inserted)
    ensures r in After(run).inserted
  {
    RunKeepsInv(run);
    hide IsRun, After, Distinct, Exact, Delivered;
  }

  /** A pushed event leaves no entry, so a packet with its number finds nobody to answer. */
  lemma PushIsNotAnswered(run: seq<Action>, d: Task, r: Request)
    requires IsRun(run) && |After(run).alloc.returned| < Seq.SAFE_CALLS
    requires After(run).Is(r, Numbered) && d !in After(run).tasks
    ensures r in After(run).numbers
    ensures var n := After(run).numbers[r];
            var run' := run + [Push(r)] + [Arrive(d, n)] + [Remove(d)];
            && IsRun(run') && After(run').Is(r, Pushed) && After(run').Runs(d, Unclaimed(n))
            && After(run').pending == After(run).pending && After(run').mailbox == After(run).mailbox
  {
    hide IsRun, After, Seq.Enabled, Seq.Apply;
    NumberedIsAbsent(run, r);
    var n := After(run).numbers[r];
    RunAppend(run, Push(r));
    RunAppend(run + [Push(r)], Arrive(d, n));
    RunAppend(run + [Push(r)] + [Arrive(d, n)], Remove(d));
  }

  lemma NumberedIsAbsent(run: seq<Action>, r: Request)
    requires IsRun(run) && |After(run).alloc.returned| < Seq.SAFE_CALLS && After(run).Is(r, Numbered)
    ensures r in After(run).numbers && After(run).numbers[r] !in After(run).pending
  {
    RunKeepsInv(run);
    hide IsRun, After, Delivered, Seq.Inv, Seq.State.At;
  }
}
