/**
 The process-wide sequence allocator (packet.rs, SsoPacket::next_sequence) as atomic steps of any number of threads.
 Every atomic operation is on one location, so its memory orderings do not matter here.
 */
module Sequence {
  import opened ByteOrder

  const FIRST_OFFSET := 5000000
  const LAST_OFFSET := 9900000

  type Thread = nat

  /** Where a thread is: outside, behind a won compare_exchange, in the waiting loop, or before fetch_add. */
  datatype Pc = Idle | Winner | Spinning | Ready

  /** The atomic, the threads, and the history: the offsets that were stored and the numbers that were returned. */
  datatype State = State(value: u32, pcs: map<Thread, Pc>, offsets: seq<nat>, returned: seq<nat>) {
    function At(t: Thread): Pc {
      if t in pcs then pcs[t] else Idle
    }
  }

  datatype Action =
    | Call(t: Thread)                 // compare_exchange(0, 1)
    | Store(t: Thread, offset: nat)   // store of the offset that was drawn
    | Load(t: Thread)                 // one load of the waiting loop
    | FetchAdd(t: Thread)             // fetch_add and return

  const INIT := State(0, map[], [], [])

  predicate Enabled(s: State, a: Action) {
    match a
    case Call(t) => s.At(t) == Idle
    case Store(t, offset) => s.At(t) == Winner && FIRST_OFFSET <= offset <= LAST_OFFSET
    case Load(t) => s.At(t) == Spinning
    case FetchAdd(t) => s.At(t) == Ready
  }

  function Apply(s: State, a: Action): State {
    match a
    case Call(t) =>
      if s.value == 0 then s.(value := 1, pcs := s.pcs[t := Winner]) else s.(pcs := s.pcs[t := Spinning])
    case Store(t, offset) =>
      s.(value := offset % U32_LIMIT, pcs := s.pcs[t := Ready], offsets := s.offsets + [offset])
    case Load(t) =>
      if s.value == 1 then s else s.(pcs := s.pcs[t := Ready])
    case FetchAdd(t) =>
      s.(value := (s.value + 1) % U32_LIMIT, pcs := s.pcs[t := Idle], returned := s.returned + [s.value])
  }

  /** Every interleaving of the threads, from the first call on. */
  predicate IsRun(run: seq<Action>) {
    run == [] || (IsRun(run[..|run| - 1]) && Enabled(After(run[..|run| - 1]), run[|run| - 1]))
  }

  function After(run: seq<Action>): State {
    if run == [] then INIT else Apply(After(run[..|run| - 1]), run[|run| - 1])
  }

  /** The calls that can return before the counter may wrap, whatever offset was drawn. */
  const SAFE_CALLS := U32_LIMIT - LAST_OFFSET

  /** Nothing is returned before the one offset is stored; from then on the counter runs up from it. */
  ghost predicate Inv(s: State) {
    if s.offsets == [] then
      && s.returned == []
      && (forall t :: s.At(t) != Ready)
      && (s.value == 0 ==> forall t :: s.At(t) == Idle)
      && s.value in {0, 1}
      && (forall t, u :: s.At(t) == Winner && s.At(u) == Winner ==> t == u)
    else
      && |s.offsets| == 1
      && FIRST_OFFSET <= s.offsets[0] <= LAST_OFFSET
      && s.value == s.offsets[0] + |s.returned|
      && (forall t :: s.At(t) != Winner)
      && forall i :: 0 <= i < |s.returned| ==> s.returned[i] == s.offsets[0] + i
  }

  lemma StepKeepsInv(s: State, a: Action)
    requires Inv(s) && Enabled(s, a) && |Apply(s, a).returned| < SAFE_CALLS
    ensures Inv(Apply(s, a))
  {
    var s' := Apply(s, a);
    assert forall t :: t != a.t ==> s'.At(t) == s.At(t);
  }

  /** Once the offset is stored the counter only grows, and nothing is returned before. */
  lemma ValueGrows(s: State, a: Action)
    requires Inv(s) && Enabled(s, a) && |Apply(s, a).returned| < SAFE_CALLS
    ensures s.offsets != [] ==> Apply(s, a).offsets != [] && s.value <= Apply(s, a).value
    ensures a.FetchAdd? ==> s.offsets != [] && Apply(s, a).value == s.value + 1
  {
  }

  /** A step of one thread leaves every other thread where it is. */
  lemma OthersStay(s: State, a: Action, t: Thread)
    requires t != a.t
    ensures Apply(s, a).At(t) == s.At(t)
  {
  }

  lemma ReturnedGrows(s: State, a: Action)
    ensures |s.returned| <= |Apply(s, a).returned|
  {
  }

  lemma {:induction false} RunKeepsInv(run: seq<Action>)
    requires IsRun(run) && |After(run).returned| < SAFE_CALLS
    ensures Inv(After(run))
  {
    if run != [] {
      var before := After(run[..|run| - 1]);
      ReturnedGrows(before, run[|run| - 1]);
      RunKeepsInv(run[..|run| - 1]);
      StepKeepsInv(before, run[|run| - 1]);
    }
  }

  /**
   At most one thread draws an offset, and the numbers returned are the ones from it on, without gaps or repeats:
   never the sentinels 0 and 1.
   */
  lemma NumbersAreFresh(run: seq<Action>)
    requires IsRun(run) && |After(run).returned| < SAFE_CALLS
    ensures var s := After(run);
            && |s.offsets| <= 1
            && (s.returned != [] ==> |s.offsets| == 1 && 5000000 <= s.offsets[0] <= 9900000)
            && (forall i :: 0 <= i < |s.returned| ==> s.returned[i] == s.offsets[0] + i)
            && (forall i, j :: 0 <= i < j < |s.returned| ==> s.returned[i] != s.returned[j])
            && 0 !in s.returned && 1 !in s.returned
  {
    RunKeepsInv(run);
  }

  // ----- where the guarantee ends

  /** One thread alone: its first call draws this offset, and n more calls follow. */
  function Solo(offset: nat, n: nat): seq<Action> {
    if n == 0 then [Call(0), Store(0, offset), FetchAdd(0)] else Solo(offset, n - 1) + [Call(0), Load(0), FetchAdd(0)]
  }

  lemma RunAppend(run: seq<Action>, a: Action)
    requires IsRun(run) && Enabled(After(run), a)
    ensures IsRun(run + [a]) && After(run + [a]) == Apply(After(run), a)
  {
    assert (run + [a])[..|run|] == run;
  }

  /** One more call of thread 0 after the offset is stored. */
  lemma OneCall(run: seq<Action>)
    requires IsRun(run) && After(run).At(0) == Idle && After(run).value > 1
    ensures var run' := run + [Call(0), Load(0), FetchAdd(0)];
            var s, s' := After(run), After(run');
            && IsRun(run')
            && s'.value == (s.value + 1) % U32_LIMIT && s'.At(0) == Idle
            && s'.offsets == s.offsets && |s'.returned| == |s.returned| + 1
  {
    hide IsRun, After;
    RunAppend(run, Call(0));
    RunAppend(run + [Call(0)], Load(0));
    RunAppend(run + [Call(0)] + [Load(0)], FetchAdd(0));
    assert run + [Call(0), Load(0), FetchAdd(0)] == run + [Call(0)] + [Load(0)] + [FetchAdd(0)];
  }

  /** The first call of thread 0. */
  lemma FirstCall(offset: nat)
    requires FIRST_OFFSET <= offset <= LAST_OFFSET
    ensures var s := After(Solo(offset, 0));
            IsRun(Solo(offset, 0)) && s.value == offset + 1 && s.At(0) == Idle && s.offsets == [offset] && |s.returned| == 1
  {
    assert IsRun([]) && After([]) == INIT;
    RunAppend([], Call(0));
    hide IsRun, After;
    RunAppend([] + [Call(0)], Store(0, offset));
    RunAppend([] + [Call(0)] + [Store(0, offset)], FetchAdd(0));
    assert Solo(offset, 0) == [] + [Call(0)] + [Store(0, offset)] + [FetchAdd(0)];
  }

  lemma {:induction false} SoloRuns(offset: nat, n: nat)
    requires FIRST_OFFSET <= offset <= LAST_OFFSET && offset + n < U32_LIMIT
    ensures IsRun(Solo(offset, n))
    ensures var s := After(Solo(offset, n));
            && s.value == (offset + n + 1) % U32_LIMIT && s.At(0) == Idle
            && s.offsets == [offset] && |s.returned| == n + 1
  {
    hide IsRun, After;
    if n == 0 {
      FirstCall(offset);
    } else {
      SoloRuns(offset, n - 1);
      OneCall(Solo(offset, n - 1));
    }
  }

  /** At most one offset is ever drawn exactly as long as fewer than 2^32 - 9900000 calls have returned. */
  lemma OneDrawIff(n: nat)
    ensures (forall run :: IsRun(run) && |After(run).returned| <= n ==> |After(run).offsets| <= 1) <==> n < 0x1_0000_0000 - 9900000
  {
    if n < SAFE_CALLS {
      forall run | IsRun(run) && |After(run).returned| <= n
        ensures |After(run).offsets| <= 1
      {
        NumbersAreFresh(run);
      }
    } else {
      var run := Solo(LAST_OFFSET, SAFE_CALLS - 1);
      SoloRuns(LAST_OFFSET, SAFE_CALLS - 1);
      RunAppend(run, Call(0));
      RunAppend(run + [Call(0)], Store(0, FIRST_OFFSET));
      var wrapped := run + [Call(0)] + [Store(0, FIRST_OFFSET)];
      assert IsRun(wrapped) && |After(wrapped).returned| <= n && |After(wrapped).offsets| == 2;
    }
  }
}
