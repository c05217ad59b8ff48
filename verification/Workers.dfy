/**
 The concurrent part of partitioned execution: workers that drain a shared queue and publish into
 slots, as a state machine over their interleaved steps.
 */
module Workers {
  import opened Bytes
  import opened Sorting
  import opened Records

  /** `queue`: indices not taken. `holding[w]`: the index worker w executes. `slots[i]`: the published result. */
  datatype State<R> = State(queue: seq<nat>, holding: seq<Option<nat>>, exited: seq<bool>, slots: seq<Option<R>>)

  function Init<R>(partitions: nat, workers: nat): State<R> {
    State(seq(partitions, i => i), seq(workers, _ => None), seq(workers, _ => false), seq(partitions, _ => None))
  }

  predicate Idle<R>(s: State<R>, w: nat) {
    w < |s.holding| && w < |s.exited| && s.holding[w].None? && !s.exited[w]
  }

  /** `pop_front` under the queue lock. */
  predicate Pop<R(==)>(s: State<R>, t: State<R>, w: nat) {
    && Idle(s, w) && s.queue != []
    && t == s.(queue := s.queue[1..], holding := s.holding[w := Some(s.queue[0])])
  }

  /** The queue is empty, so the worker leaves its loop. */
  predicate Exit<R(==)>(s: State<R>, t: State<R>, w: nat) {
    Idle(s, w) && s.queue == [] && t == s.(exited := s.exited[w := true])
  }

  /** Executing the index a worker holds and storing the result under the results lock. */
  predicate Publish<R(==)>(s: State<R>, t: State<R>, w: nat, result: R) {
    && w < |s.holding| && s.holding[w].Some? && s.holding[w].value < |s.slots|
    && t == s.(holding := s.holding[w := None], slots := s.slots[s.holding[w].value := Some(result)])
  }

  /** `produces(i, r)`: executing partition i alone may yield r. */
  ghost predicate Next<R(!new)>(s: State<R>, t: State<R>, produces: (nat, R) -> bool) {
    || (exists w: nat :: Pop(s, t, w))
    || (exists w: nat :: Exit(s, t, w))
    || (exists w: nat, r: R :: Publish(s, t, w, r) && produces(s.holding[w].value, r))
  }

  function One(h: Option<nat>): multiset<nat> { if h.Some? then multiset{h.value} else multiset{} }

  function Held(holding: seq<Option<nat>>): multiset<nat> {
    if holding == [] then multiset{} else Held(holding[..|holding| - 1]) + One(holding[|holding| - 1])
  }

  function Filled<R>(slots: seq<Option<R>>): multiset<nat> {
    if slots == [] then multiset{}
    else Filled(slots[..|slots| - 1]) + if slots[|slots| - 1].Some? then multiset{|slots| - 1} else multiset{}
  }

  function Indices(n: nat): multiset<nat> { if n == 0 then multiset{} else Indices(n - 1) + multiset{n - 1} }

  lemma {:induction false} IndicesOnce(n: nat, i: nat)
    ensures Indices(n)[i] == if i < n then 1 else 0
  {
    if n > 0 {
      IndicesOnce(n - 1, i);
    }
  }

  lemma {:induction false} HeldUpdate(holding: seq<Option<nat>>, w: nat, h: Option<nat>)
    requires w < |holding|
    ensures Held(holding[w := h]) + One(holding[w]) == Held(holding) + One(h)
  {
    var n := |holding| - 1;
    var after := holding[w := h];
    if w < n {
      assert after[..n] == holding[..n][w := h];
      HeldUpdate(holding[..n], w, h);
      Swap(Held(after[..n]), One(after[n]), One(holding[w]));
      Swap(Held(holding[..n]), One(holding[n]), One(h));
    } else {
      assert after[..n] == holding[..n];
      Swap(Held(after[..n]), One(h), One(holding[w]));
    }
  }

  lemma Shift<T>(q: multiset<T>, before: multiset<T>, after: multiset<T>, i: multiset<T>, f: multiset<T>)
    requires after + i == before + multiset{}
    ensures q + before + f == q + after + (f + i)
  {
    assert before == after + i;
  }

  lemma Swap<T>(a: multiset<T>, b: multiset<T>, c: multiset<T>)
    ensures (a + b) + c == (a + c) + b
  {
  }

  lemma {:induction false} FilledUpdate<R>(slots: seq<Option<R>>, i: nat, r: R)
    requires i < |slots| && slots[i].None?
    ensures Filled(slots[i := Some(r)]) == Filled(slots) + multiset{i}
  {
    var n := |slots| - 1;
    if i < n {
      assert slots[i := Some(r)][..n] == slots[..n][i := Some(r)];
      FilledUpdate(slots[..n], i, r);
    } else {
      assert slots[i := Some(r)][..n] == slots[..n];
    }
  }

  lemma {:induction false} FilledAt<R>(slots: seq<Option<R>>, i: nat)
    ensures Filled(slots)[i] == if i < |slots| && slots[i].Some? then 1 else 0
  {
    if slots != [] {
      FilledAt(slots[..|slots| - 1], i);
    }
  }

  lemma {:induction false} HeldAt(holding: seq<Option<nat>>, w: nat)
    requires w < |holding| && holding[w].Some?
    ensures holding[w].value in Held(holding)
  {
    if w < |holding| - 1 {
      HeldAt(holding[..|holding| - 1], w);
    }
  }

  lemma {:induction false} NothingHeld(holding: seq<Option<nat>>)
    requires forall w | 0 <= w < |holding| :: holding[w].None?
    ensures Held(holding) == multiset{}
  {
    if holding != [] {
      NothingHeld(holding[..|holding| - 1]);
    }
  }

  /** Each index is in exactly one place, exactly once; published results are ones their partition produces. */
  ghost predicate Inv<R>(s: State<R>, produces: (nat, R) -> bool) {
    && |s.holding| == |s.exited|
    && multiset(s.queue) + Held(s.holding) + Filled(s.slots) == Indices(|s.slots|)
    && (forall w | 0 <= w < |s.exited| :: s.exited[w] ==> s.holding[w].None? && s.queue == [])
    && (forall i | 0 <= i < |s.slots| :: s.slots[i].Some? ==> produces(i, s.slots[i].value))
  }

  lemma {:induction false} InitQueue(n: nat)
    ensures multiset(seq(n, i => i)) == Indices(n)
  {
    if n > 0 {
      InitQueue(n - 1);
      assert seq(n, i => i) == seq(n - 1, i => i) + [n - 1];
    }
  }

  lemma {:induction false} NothingFilled<R>(slots: seq<Option<R>>)
    requires forall i | 0 <= i < |slots| :: slots[i].None?
    ensures Filled(slots) == multiset{}
  {
    if slots != [] {
      NothingFilled(slots[..|slots| - 1]);
    }
  }

  lemma InitInv<R>(partitions: nat, workers: nat, produces: (nat, R) -> bool)
    ensures Inv(Init(partitions, workers), produces)
  {
    var s: State<R> := Init(partitions, workers);
    InitQueue(partitions);
    NothingHeld(s.holding);
    NothingFilled(s.slots);
  }

  lemma PopInv<R>(s: State<R>, t: State<R>, w: nat, produces: (nat, R) -> bool)
    requires Inv(s, produces) && Pop(s, t, w)
    ensures Inv(t, produces)
  {
    var i := s.queue[0];
    HeldUpdate(s.holding, w, Some(i));
    HeadOf(s.queue);
    assert Held(t.holding) == Held(s.holding) + multiset{i};
    Swap(multiset{i}, multiset(t.queue), Held(s.holding));
    assert multiset(s.queue) + Held(s.holding) == multiset(t.queue) + Held(t.holding);
  }

  /** Nobody has published the index a worker holds. */
  lemma HeldIsUnfilled<R>(s: State<R>, w: nat, produces: (nat, R) -> bool)
    requires Inv(s, produces) && w < |s.holding| && s.holding[w].Some? && s.holding[w].value < |s.slots|
    ensures s.slots[s.holding[w].value].None?
  {
    var i := s.holding[w].value;
    HeldAt(s.holding, w);
    IndicesOnce(|s.slots|, i);
    FilledAt(s.slots, i);
    assert (multiset(s.queue) + Held(s.holding) + Filled(s.slots))[i] <= 1;
  }

  lemma PublishInv<R>(s: State<R>, t: State<R>, w: nat, r: R, produces: (nat, R) -> bool)
    requires Inv(s, produces) && Publish(s, t, w, r) && produces(s.holding[w].value, r)
    ensures Inv(t, produces)
  {
    var i := s.holding[w].value;
    HeldIsUnfilled(s, w, produces);
    Published(multiset(s.queue), s.holding, t.holding, w, s.slots, t.slots, i, r);
    PublishKeeps(s, t, w, r, produces);
  }

  lemma PublishKeeps<R>(s: State<R>, t: State<R>, w: nat, r: R, produces: (nat, R) -> bool)
    requires Inv(s, produces) && Publish(s, t, w, r) && produces(s.holding[w].value, r)
    ensures |t.holding| == |t.exited| && t.queue == s.queue && |t.slots| == |s.slots|
    ensures forall v | 0 <= v < |t.exited| :: t.exited[v] ==> t.holding[v].None? && t.queue == []
    ensures forall i | 0 <= i < |t.slots| :: t.slots[i].Some? ==> produces(i, t.slots[i].value)
  {
  }

  /** The index moves from the holding to the slots. */
  lemma Published<R>(q: multiset<nat>, holding: seq<Option<nat>>, after: seq<Option<nat>>, w: nat,
                     slots: seq<Option<R>>, filled: seq<Option<R>>, i: nat, r: R)
    requires w < |holding| && holding[w] == Some(i) && i < |slots| && slots[i].None?
    requires after == holding[w := None] && filled == slots[i := Some(r)]
    ensures q + Held(after) + Filled(filled) == q + Held(holding) + Filled(slots)
  {
    HeldUpdate(holding, w, None);
    FilledUpdate(slots, i, r);
    Shift(q, Held(holding), Held(after), multiset{i}, Filled(slots));
  }

  lemma NextInv<R(!new)>(s: State<R>, t: State<R>, produces: (nat, R) -> bool)
    requires Inv(s, produces) && Next(s, t, produces)
    ensures Inv(t, produces)
  {
    if w: nat :| Pop(s, t, w) {
      PopInv(s, t, w, produces);
    } else if w: nat, r: R :| Publish(s, t, w, r) && produces(s.holding[w].value, r) {
      PublishInv(s, t, w, r, produces);
    } else {
      var w: nat :| Exit(s, t, w);
      assert s.holding == t.holding;
    }
  }

  // ----- termination -------------------------------------------------------------------------------

  function Busy(holding: seq<Option<nat>>): nat {
    if holding == [] then 0 else Busy(holding[..|holding| - 1]) + if holding[|holding| - 1].Some? then 1 else 0
  }

  function Running(exited: seq<bool>): nat {
    if exited == [] then 0 else Running(exited[..|exited| - 1]) + if exited[|exited| - 1] then 0 else 1
  }

  /** Steps left: a queued index costs two, a held one costs one, a running worker exits once. */
  function StepsLeft<R>(s: State<R>): nat { 2 * |s.queue| + Busy(s.holding) + Running(s.exited) }

  lemma {:induction false} BusyUpdate(holding: seq<Option<nat>>, w: nat, h: Option<nat>)
    requires w < |holding|
    ensures Busy(holding[w := h]) + (if holding[w].Some? then 1 else 0) == Busy(holding) + (if h.Some? then 1 else 0)
  {
    var n := |holding| - 1;
    if w < n {
      assert holding[w := h][..n] == holding[..n][w := h];
      BusyUpdate(holding[..n], w, h);
    } else {
      assert holding[w := h][..n] == holding[..n];
    }
  }

  lemma {:induction false} RunningUpdate(exited: seq<bool>, w: nat)
    requires w < |exited| && !exited[w]
    ensures Running(exited[w := true]) + 1 == Running(exited)
  {
    var n := |exited| - 1;
    if w < n {
      assert exited[w := true][..n] == exited[..n][w := true];
      RunningUpdate(exited[..n], w);
    } else {
      assert exited[w := true][..n] == exited[..n];
    }
  }

  lemma NextDecreases<R(!new)>(s: State<R>, t: State<R>, produces: (nat, R) -> bool)
    requires Inv(s, produces) && Next(s, t, produces)
    ensures StepsLeft(t) + 1 == StepsLeft(s)
  {
    if w: nat :| Pop(s, t, w) {
      BusyUpdate(s.holding, w, Some(s.queue[0]));
    } else if w: nat, r: R :| Publish(s, t, w, r) && produces(s.holding[w].value, r) {
      BusyUpdate(s.holding, w, None);
    } else {
      var w: nat :| Exit(s, t, w);
      RunningUpdate(s.exited, w);
    }
  }

  /** A run: consecutive steps from the initial state. */
  ghost predicate Run<R(!new)>(run: seq<State<R>>, partitions: nat, workers: nat, produces: (nat, R) -> bool) {
    && run != [] && run[0] == Init(partitions, workers)
    && forall k | 0 <= k < |run| - 1 :: Next(run[k], run[k + 1], produces)
  }

  predicate Joined<R>(s: State<R>) { forall w | 0 <= w < |s.exited| :: s.exited[w] }

  lemma {:induction false} AllRunning(n: nat)
    ensures Running(seq(n, _ => false)) == n
  {
    if n > 0 {
      AllRunning(n - 1);
      assert seq(n, _ => false)[..n - 1] == seq(n - 1, _ => false);
    }
  }

  lemma {:induction false} RunInv<R(!new)>(run: seq<State<R>>, partitions: nat, workers: nat,
                                           produces: (nat, R) -> bool, k: nat)
    requires Run(run, partitions, workers, produces) && k < |run|
    ensures Inv(run[k], produces) && |run[k].slots| == partitions && |run[k].exited| == workers
    ensures StepsLeft(run[k]) + k == 2 * partitions + workers
  {
    if k == 0 {
      InitRun<R>(partitions, workers, produces);
    } else {
      RunInv(run, partitions, workers, produces, k - 1);
      assert Next(run[k - 1], run[k - 1 + 1], produces);
      OneStep(run[k - 1], run[k], produces);
    }
  }

  lemma InitRun<R>(partitions: nat, workers: nat, produces: (nat, R) -> bool)
    ensures var s: State<R> := Init(partitions, workers);
            Inv(s, produces) && |s.slots| == partitions && |s.exited| == workers &&
              StepsLeft(s) == 2 * partitions + workers
  {
    var s: State<R> := Init(partitions, workers);
    InitInv<R>(partitions, workers, produces);
    AllRunning(workers);
    NoneBusy(s.holding);
  }

  lemma OneStep<R(!new)>(s: State<R>, t: State<R>, produces: (nat, R) -> bool)
    requires Inv(s, produces) && Next(s, t, produces)
    ensures Inv(t, produces) && |t.slots| == |s.slots| && |t.exited| == |s.exited| && StepsLeft(t) + 1 == StepsLeft(s)
  {
    NextInv(s, t, produces);
    NextDecreases(s, t, produces);
  }

  /** No schedule gets stuck: while a worker runs, some step is possible, whatever executions yield. */
  lemma NoDeadlock<R(!new)>(s: State<R>, produces: (nat, R) -> bool, outcome: nat -> R)
    requires Inv(s, produces) && !Joined(s)
    requires forall i | 0 <= i < |s.slots| :: produces(i, outcome(i))
    ensures exists t :: Next(s, t, produces)
  {
    var w :| 0 <= w < |s.exited| && !s.exited[w];
    if s.holding[w].Some? {
      var i := s.holding[w].value;
      HeldAt(s.holding, w);
      IndicesOnce(|s.slots|, i);
      assert (multiset(s.queue) + Held(s.holding) + Filled(s.slots))[i] > 0;
      var t := s.(holding := s.holding[w := None], slots := s.slots[i := Some(outcome(i))]);
      assert Publish(s, t, w, outcome(i));
      assert Next(s, t, produces);
    } else if s.queue == [] {
      var t := s.(exited := s.exited[w := true]);
      assert Exit(s, t, w);
      assert Next(s, t, produces);
    } else {
      var t := s.(queue := s.queue[1..], holding := s.holding[w := Some(s.queue[0])]);
      assert Pop(s, t, w);
      assert Next(s, t, produces);
    }
  }

  /** Every interleaving ends after the same number of steps, with a result of its own partition in every slot. */
  lemma EveryRunFillsAllSlots<R(!new)>(run: seq<State<R>>, partitions: nat, workers: nat, produces: (nat, R) -> bool)
    requires Run(run, partitions, workers, produces) && workers > 0
    ensures |run| <= 2 * partitions + workers + 1
    ensures var last := run[|run| - 1];
            Joined(last) ==>
              && |run| == 2 * partitions + workers + 1
              && |last.slots| == partitions
              && forall i | 0 <= i < partitions :: last.slots[i].Some? && produces(i, last.slots[i].value)
  {
    var last := run[|run| - 1];
    RunInv(run, partitions, workers, produces, |run| - 1);
    if Joined(last) {
      assert last.exited[0] && last.queue == [];
      NothingHeld(last.holding);
      JoinedIsOver(last, produces);
      forall i | 0 <= i < partitions ensures last.slots[i].Some? {
        IndicesOnce(partitions, i);
        FilledAt(last.slots, i);
      }
    }
  }

  lemma JoinedIsOver<R>(s: State<R>, produces: (nat, R) -> bool)
    requires Inv(s, produces) && Joined(s) && s.queue == []
    ensures StepsLeft(s) == 0
  {
    NoneBusy(s.holding);
    NoneRunning(s.exited);
  }

  lemma {:induction false} NoneBusy(holding: seq<Option<nat>>)
    requires forall w | 0 <= w < |holding| :: holding[w].None?
    ensures Busy(holding) == 0
  {
    if holding != [] {
      NoneBusy(holding[..|holding| - 1]);
    }
  }

  lemma {:induction false} NoneRunning(exited: seq<bool>)
    requires forall w | 0 <= w < |exited| :: exited[w]
    ensures Running(exited) == 0
  {
    if exited != [] {
      NoneRunning(exited[..|exited| - 1]);
    }
  }
}
