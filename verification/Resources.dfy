/**
 Hierarchical resource accounts as a state machine: reservations charge every counter on the path
 from their account to the root, one atomic step at a time, under the root's lock; releases take no
 lock and interleave with everything. One tree of accounts is modelled, so there is one lock.
 */
module Resources {
  import opened Arithmetic
  import opened Bytes
  import opened Records

  /** The root of the tree is the account created first. */
  const ROOT: nat := 0

  /** One resource kind of one account node. */
  datatype Counter = Counter(used: nat, peak: nat, cap: nat)

  /**
   Charging: the first k counters are charged, `loaded` is the value last read from the next one.
   RollingBack: of the first k, `undone` are released again. Peaking: all charged, k peaks raised.
   Dropping: the first k are released.
   */
  datatype Phase =
    | Charging(k: nat, loaded: Option<nat>, committed: seq<nat>)
    | RollingBack(k: nat, undone: nat)
    | Peaking(k: nat, committed: seq<nat>)
    | Live
    | Dropping(k: nat)
    | Released
    | Refused

  /** `path`: the counters from the root down to the account the reservation was made on. */
  datatype Reservation = Reservation(path: seq<nat>, bytes: nat, phase: Phase)

  /** `holder`: the reservation whose transaction holds the root lock. */
  datatype State = State(counters: seq<Counter>, reservations: seq<Reservation>, holder: Option<nat>)

  datatype Step =
    | NewAccount(cap: nat)
    | Begin(path: seq<nat>, bytes: nat)
    | Load(x: nat) | CompareExchange(x: nat) | ExchangeFails(x: nat) | Reject(x: nat)
    | Undo(x: nat) | Refuse(x: nat)
    | AllCharged(x: nat) | RaisePeak(x: nat) | Commit(x: nat)
    | BeginDrop(x: nat) | Release(x: nat) | EndDrop(x: nat)

  // ----- steps ---------------------------------------------------------------------------------------

  predicate OnPath(path: seq<nat>, counters: nat) {
    && path != [] && (forall i | 0 <= i < |path| :: path[i] < counters)
    && forall i, j | 0 <= i < j < |path| :: path[i] != path[j]
  }

  /** The charge would overflow, or exceed the limit. */
  predicate Refusable(c: nat, bytes: nat, cap: nat) { c + bytes >= U64 || c + bytes > cap }

  /** `fetch_sub` on a 64-bit counter. */
  function WrappingSub(a: nat, b: nat): nat { if b <= a then a - b else a + U64 - b % U64 }

  predicate Next0(r: Reservation, counters: nat) {
    OnPath(r.path, counters) && r.phase.Charging? && r.phase.k < |r.path|
  }

  predicate Enabled(s: State, step: Step) {
    match step
    case NewAccount(cap) => cap < U64
    case Begin(path, bytes) => s.holder.None? && OnPath(path, |s.counters|) && path[0] == ROOT && bytes < U64
    case Load(x) => x < |s.reservations| && Next0(s.reservations[x], |s.counters|) &&
      s.reservations[x].phase.loaded.None?
    case CompareExchange(x) =>
      && x < |s.reservations| && Next0(s.reservations[x], |s.counters|) && s.reservations[x].phase.loaded.Some?
      && var r := s.reservations[x];
      && var c := s.counters[r.path[r.phase.k]];
      && !Refusable(r.phase.loaded.value, r.bytes, c.cap) && c.used == r.phase.loaded.value
    case ExchangeFails(x) =>
      && x < |s.reservations| && Next0(s.reservations[x], |s.counters|) && s.reservations[x].phase.loaded.Some?
      && var r := s.reservations[x];
      !Refusable(r.phase.loaded.value, r.bytes, s.counters[r.path[r.phase.k]].cap)
    case Reject(x) =>
      && x < |s.reservations| && Next0(s.reservations[x], |s.counters|) && s.reservations[x].phase.loaded.Some?
      && var r := s.reservations[x];
      Refusable(r.phase.loaded.value, r.bytes, s.counters[r.path[r.phase.k]].cap)
    case Undo(x) =>
      && x < |s.reservations| && OnPath(s.reservations[x].path, |s.counters|) && s.reservations[x].phase.RollingBack?
      && s.reservations[x].phase.undone < s.reservations[x].phase.k <= |s.reservations[x].path|
    case Refuse(x) =>
      && x < |s.reservations| && s.reservations[x].phase.RollingBack?
      && s.reservations[x].phase.undone == s.reservations[x].phase.k
    case AllCharged(x) =>
      && x < |s.reservations| && s.reservations[x].phase.Charging?
      && s.reservations[x].phase.k == |s.reservations[x].path|
    case RaisePeak(x) =>
      && x < |s.reservations| && OnPath(s.reservations[x].path, |s.counters|) && s.reservations[x].phase.Peaking?
      && s.reservations[x].phase.k < |s.reservations[x].path| == |s.reservations[x].phase.committed|
    case Commit(x) =>
      && x < |s.reservations| && s.reservations[x].phase.Peaking?
      && s.reservations[x].phase.k == |s.reservations[x].path|
    case BeginDrop(x) => x < |s.reservations| && s.reservations[x].phase.Live?
    case Release(x) =>
      && x < |s.reservations| && OnPath(s.reservations[x].path, |s.counters|) && s.reservations[x].phase.Dropping?
      && s.reservations[x].phase.k < |s.reservations[x].path|
    case EndDrop(x) =>
      && x < |s.reservations| && s.reservations[x].phase.Dropping?
      && s.reservations[x].phase.k == |s.reservations[x].path|
  }

  function Moved(s: State, x: nat, phase: Phase): State
    requires x < |s.reservations|
  {
    s.(reservations := s.reservations[x := s.reservations[x].(phase := phase)])
  }

  function WithUsed(s: State, n: nat, used: nat): State
    requires n < |s.counters|
  {
    s.(counters := s.counters[n := s.counters[n].(used := used)])
  }

  function Apply(s: State, step: Step): State
    requires Enabled(s, step)
  {
    match step
    case NewAccount(cap) => s.(counters := s.counters + [Counter(0, 0, cap)])
    case Begin(path, bytes) =>
      s.(reservations := s.reservations + [Reservation(path, bytes, Charging(0, None, []))], holder :=
         Some(|s.reservations|))
    case Load(x) =>
      var r := s.reservations[x];
      Moved(s, x, r.phase.(loaded := Some(s.counters[r.path[r.phase.k]].used)))
    case CompareExchange(x) =>
      var r := s.reservations[x];
      var next := r.phase.loaded.value + r.bytes;
      WithUsed(Moved(s, x, Charging(r.phase.k + 1, None, r.phase.committed + [next])), r.path[r.phase.k], next)
    case ExchangeFails(x) =>
      var r := s.reservations[x];
      Moved(s, x, r.phase.(loaded := Some(s.counters[r.path[r.phase.k]].used)))
    case Reject(x) => Moved(s, x, RollingBack(s.reservations[x].phase.k, 0))
    case Undo(x) =>
      var r := s.reservations[x];
      var n := r.path[r.phase.undone];
      WithUsed(Moved(s, x, RollingBack(r.phase.k, r.phase.undone + 1)), n, WrappingSub(s.counters[n].used, r.bytes))
    case Refuse(x) => Moved(s, x, Refused).(holder := None)
    case AllCharged(x) => Moved(s, x, Peaking(0, s.reservations[x].phase.committed))
    case RaisePeak(x) =>
      var r := s.reservations[x];
      var n := r.path[r.phase.k];
      var c := s.counters[n];
      Moved(s, x, Peaking(r.phase.k + 1, r.phase.committed)).(counters :=
        s.counters[n := c.(peak := Larger(c.peak, r.phase.committed[r.phase.k]))])
    case Commit(x) => Moved(s, x, Live).(holder := None)
    case BeginDrop(x) => Moved(s, x, Dropping(0))
    case Release(x) =>
      var r := s.reservations[x];
      var n := r.path[r.phase.k];
      WithUsed(Moved(s, x, Dropping(r.phase.k + 1)), n, WrappingSub(s.counters[n].used, r.bytes))
    case EndDrop(x) => Moved(s, x, Released)
  }

  // ----- what a reservation contributes --------------------------------------------------------------

  predicate InFlight(r: Reservation) { r.phase.Charging? || r.phase.RollingBack? || r.phase.Peaking? }

  /** The charged stretch of the path. */
  function From(r: Reservation): nat {
    match r.phase
    case RollingBack(_, undone) => undone
    case Dropping(k) => k
    case _ => 0
  }

  function To(r: Reservation): nat {
    match r.phase
    case Charging(k, _, _) => k
    case RollingBack(k, _) => k
    case Released => 0
    case Refused => 0
    case _ => |r.path|
  }

  ghost predicate Holds(r: Reservation, n: nat) { exists i :: From(r) <= i < To(r) && i < |r.path| && r.path[i] == n }

  ghost function Charge(r: Reservation, n: nat): nat { if Holds(r, n) then r.bytes else 0 }

  ghost function Charges(rs: seq<Reservation>, n: nat): nat {
    if rs == [] then 0 else Charges(rs[..|rs| - 1], n) + Charge(rs[|rs| - 1], n)
  }

  /** What everything but the transaction in flight contributes. */
  ghost function InFlightCharge(s: State, n: nat): nat {
    if s.holder.Some? && s.holder.value < |s.reservations| then Charge(s.reservations[s.holder.value], n) else 0
  }

  lemma {:induction false} ChargesUpdate(rs: seq<Reservation>, x: nat, r: Reservation, n: nat)
    requires x < |rs|
    ensures Charges(rs[x := r], n) + Charge(rs[x], n) == Charges(rs, n) + Charge(r, n)
  {
    var last := |rs| - 1;
    if x < last {
      assert rs[x := r][..last] == rs[..last][x := r];
      ChargesUpdate(rs[..last], x, r, n);
    } else {
      assert rs[x := r][..last] == rs[..last];
    }
  }

  lemma {:induction false} ChargesInclude(rs: seq<Reservation>, x: nat, n: nat)
    requires x < |rs|
    ensures Charge(rs[x], n) <= Charges(rs, n)
  {
    if x < |rs| - 1 {
      ChargesInclude(rs[..|rs| - 1], x, n);
    }
  }

  /** Two different contributors both fit into the sum. */
  lemma {:induction false} ChargesIncludeBoth(rs: seq<Reservation>, x: nat, y: nat, n: nat)
    requires x < |rs| && y < |rs| && x != y
    ensures Charge(rs[x], n) + Charge(rs[y], n) <= Charges(rs, n)
  {
    var last := |rs| - 1;
    if x == last {
      ChargesInclude(rs[..last], y, n);
    } else if y == last {
      ChargesInclude(rs[..last], x, n);
    } else {
      ChargesIncludeBoth(rs[..last], x, y, n);
    }
  }

  // ----- the invariant -------------------------------------------------------------------------------

  ghost predicate Shaped(r: Reservation, counters: nat) {
    && OnPath(r.path, counters) && r.bytes < U64
    && match r.phase
       case Charging(k, loaded, committed) => |committed| == k <= |r.path| && (loaded.Some? ==> k < |r.path|)
       case RollingBack(k, undone) => undone <= k <= |r.path|
       case Peaking(k, committed) => k <= |r.path| == |committed|
       case Dropping(k) => k <= |r.path|
       case _ => true
  }

  ghost predicate WellShaped(s: State) { forall x | 0 <= x < |s.reservations| ::
                                        Shaped(s.reservations[x], |s.counters|) }

  /** Only the lock holder has a transaction in flight, and it has one. */
  ghost predicate Exclusive(s: State) {
    && (s.holder.Some? ==> s.holder.value < |s.reservations|)
    && forall x | 0 <= x < |s.reservations| :: InFlight(s.reservations[x]) <==> s.holder == Some(x)
  }

  /** Usage is exactly the sum of what the reservations contribute. */
  ghost predicate Balanced(s: State) {
    forall n | 0 <= n < |s.counters| :: s.counters[n].used == Charges(s.reservations, n)
  }

  ghost predicate Capped(s: State) {
    forall n | 0 <= n < |s.counters| ::
      s.counters[n].used <= s.counters[n].cap < U64 && s.counters[n].peak <= s.counters[n].cap
  }

  /** Settled usage never exceeds the recorded peak. */
  ghost predicate Covered(s: State) {
    forall n | 0 <= n < |s.counters| :: s.counters[n].used <= s.counters[n].peak + InFlightCharge(s, n)
  }

  /** What the transaction in flight remembers still bounds the counters, since only releases interleave. */
  ghost predicate Remembered(r: Reservation, counters: seq<Counter>)
    requires Shaped(r, |counters|)
  {
    match r.phase
    case Charging(k, loaded, committed) =>
      && (loaded.Some? ==> counters[r.path[k]].used <= loaded.value)
      && forall i | 0 <= i < k :: counters[r.path[i]].used <= committed[i] <= counters[r.path[i]].cap
    case Peaking(k, committed) =>
      && (forall i | 0 <= i < k :: counters[r.path[i]].used <= counters[r.path[i]].peak)
      && (forall i | 0 <= i < |r.path| :: counters[r.path[i]].used <= committed[i] <= counters[r.path[i]].cap)
    case _ => true
  }

  ghost predicate Inv(s: State) {
    && WellShaped(s) && Exclusive(s) && Balanced(s) && Capped(s) && Covered(s)
    && (s.holder.Some? ==> Remembered(s.reservations[s.holder.value], s.counters))
  }

  function Empty(): State { State([], [], None) }

  lemma EmptyInv()
    ensures Inv(Empty())
  {
  }

  // ----- every step keeps it -------------------------------------------------------------------------

  /** A phase change that moves no charge leaves every sum alone. */
  lemma SameCharges(rs: seq<Reservation>, x: nat, r: Reservation)
    requires x < |rs| && r.path == rs[x].path && r.bytes == rs[x].bytes
    requires (From(r) == From(rs[x]) && To(r) == To(rs[x])) || (From(r) >= To(r) && From(rs[x]) >= To(rs[x]))
    ensures forall n: nat :: Charges(rs[x := r], n) == Charges(rs, n) && Charge(r, n) == Charge(rs[x], n)
  {
    forall n: nat ensures Charges(rs[x := r], n) == Charges(rs, n) && Charge(r, n) == Charge(rs[x], n) {
      assert Holds(r, n) <==> Holds(rs[x], n);
      ChargesUpdate(rs, x, r, n);
    }
  }

  /** Charging one more counter of the path. */
  lemma OneMore(rs: seq<Reservation>, x: nat, r: Reservation, k: nat)
    requires x < |rs| && r.path == rs[x].path && r.bytes == rs[x].bytes && k < |r.path|
    requires forall i, j | 0 <= i < j < |r.path| :: r.path[i] != r.path[j]
    requires From(r) == From(rs[x]) == 0 && To(rs[x]) == k && To(r) == k + 1
    ensures forall n: nat :: Charges(rs[x := r], n) == Charges(rs, n) + if n == r.path[k] then r.bytes else 0
    ensures forall n: nat :: Charge(r, n) == Charge(rs[x], n) + if n == r.path[k] then r.bytes else 0
  {
    forall n: nat
      ensures Charges(rs[x := r], n) == Charges(rs, n) + if n == r.path[k] then r.bytes else 0
      ensures Charge(r, n) == Charge(rs[x], n) + if n == r.path[k] then r.bytes else 0
    {
      if n == r.path[k] {
        assert Holds(r, n) && !Holds(rs[x], n);
      } else {
        assert Holds(r, n) <==> Holds(rs[x], n);
      }
      ChargesUpdate(rs, x, r, n);
    }
  }

  /** Releasing the first charged counter of the path. */
  lemma OneLess(rs: seq<Reservation>, x: nat, r: Reservation, k: nat)
    requires x < |rs| && r.path == rs[x].path && r.bytes == rs[x].bytes && k < To(r) <= |r.path|
    requires forall i, j | 0 <= i < j < |r.path| :: r.path[i] != r.path[j]
    requires From(rs[x]) == k && From(r) == k + 1 && To(r) == To(rs[x])
    ensures forall n: nat :: Charges(rs[x := r], n) + (if n == r.path[k] then r.bytes else 0) == Charges(rs, n)
    ensures forall n: nat :: Charge(r, n) + (if n == r.path[k] then r.bytes else 0) == Charge(rs[x], n)
  {
    forall n: nat
      ensures Charges(rs[x := r], n) + (if n == r.path[k] then r.bytes else 0) == Charges(rs, n)
      ensures Charge(r, n) + (if n == r.path[k] then r.bytes else 0) == Charge(rs[x], n)
    {
      if n == r.path[k] {
        assert !Holds(r, n) && Holds(rs[x], n);
      } else {
        assert Holds(r, n) <==> Holds(rs[x], n);
      }
      ChargesUpdate(rs, x, r, n);
    }
  }

  /** The lock holder changes phase and no counter moves. */
  lemma HolderMoves(s: State, x: nat, phase: Phase)
    requires Inv(s) && x < |s.reservations| && s.holder == Some(x)
    requires var r := s.reservations[x].(phase := phase);
             && InFlight(r) && Shaped(r, |s.counters|) && From(r) == From(s.reservations[x]) &&
               To(r) == To(s.reservations[x])
             && Remembered(r, s.counters)
    ensures Inv(Moved(s, x, phase))
  {
    SameCharges(s.reservations, x, s.reservations[x].(phase := phase));
  }

  /** A reservation outside any transaction changes phase and no counter moves. */
  lemma OthersMove(s: State, x: nat, phase: Phase)
    requires Inv(s) && x < |s.reservations| && s.holder != Some(x)
    requires var r := s.reservations[x].(phase := phase);
             && !InFlight(r) && Shaped(r, |s.counters|)
             && ((From(r) == From(s.reservations[x]) && To(r) == To(s.reservations[x]))
                 || (From(r) >= To(r) && From(s.reservations[x]) >= To(s.reservations[x])))
    ensures Inv(Moved(s, x, phase))
  {
    SameCharges(s.reservations, x, s.reservations[x].(phase := phase));
  }

  /** The transaction ends: what it holds is covered by the peaks, or it holds nothing. */
  lemma HolderLeaves(s: State, x: nat, phase: Phase)
    requires Inv(s) && x < |s.reservations| && s.holder == Some(x) && !InFlight(s.reservations[x].(phase := phase))
    requires var r := s.reservations[x].(phase := phase);
             && Shaped(r, |s.counters|)
             && ((From(r) == From(s.reservations[x]) && To(r) == To(s.reservations[x]))
                 || (From(r) >= To(r) && From(s.reservations[x]) >= To(s.reservations[x])))
    requires forall n | 0 <= n < |s.counters| && Holds(s.reservations[x], n) :: s.counters[n].used <= s.counters[n].peak
    ensures Inv(Moved(s, x, phase).(holder := None))
  {
    SameCharges(s.reservations, x, s.reservations[x].(phase := phase));
  }

  lemma LoadInv(s: State, x: nat)
    requires Inv(s) && Enabled(s, Load(x))
    ensures Inv(Apply(s, Load(x)))
  {
    var r := s.reservations[x];
    HolderMoves(s, x, r.phase.(loaded := Some(s.counters[r.path[r.phase.k]].used)));
  }

  lemma ExchangeFailsInv(s: State, x: nat)
    requires Inv(s) && Enabled(s, ExchangeFails(x))
    ensures Inv(Apply(s, ExchangeFails(x)))
  {
    var r := s.reservations[x];
    HolderMoves(s, x, r.phase.(loaded := Some(s.counters[r.path[r.phase.k]].used)));
  }

  lemma CommitInv(s: State, x: nat)
    requires Inv(s) && Enabled(s, Commit(x))
    ensures Inv(Apply(s, Commit(x)))
  {
    assert InFlight(s.reservations[x]);
    HolderLeaves(s, x, Live);
  }

  lemma RefuseInv(s: State, x: nat)
    requires Inv(s) && Enabled(s, Refuse(x))
    ensures Inv(Apply(s, Refuse(x)))
  {
    assert InFlight(s.reservations[x]);
    HolderLeaves(s, x, Refused);
  }

  lemma CompareExchangeInv(s: State, x: nat)
    requires Inv(s) && Enabled(s, CompareExchange(x))
    ensures Inv(Apply(s, CompareExchange(x)))
  {
    var r := s.reservations[x];
    var k := r.phase.k;
    var charged := r.(phase := Charging(k + 1, None, r.phase.committed + [r.phase.loaded.value + r.bytes]));
    OneMore(s.reservations, x, charged, k);
    var t := Apply(s, CompareExchange(x));
    assert InFlight(r) && s.holder == Some(x);
    KeepsShape(s, t, x, charged);
    GrowBalances(s, t, r.bytes, r.path[k]);
    GrowCovers(s, t, r.bytes, r.path[k]);
    ExchangeRemembers(r, s.counters, charged, t.counters);
  }

  lemma GrowBalances(s: State, t: State, bytes: nat, n: nat)
    requires Balanced(s) && Capped(s) && n < |s.counters| && s.counters[n].used + bytes <= s.counters[n].cap
    requires t.counters == s.counters[n := s.counters[n].(used := s.counters[n].used + bytes)]
    requires forall m: nat :: Charges(t.reservations, m) == Charges(s.reservations, m) + if m == n then bytes else 0
    ensures Balanced(t) && Capped(t)
  {
  }

  lemma GrowCovers(s: State, t: State, bytes: nat, n: nat)
    requires Covered(s) && n < |s.counters|
    requires t.counters == s.counters[n := s.counters[n].(used := s.counters[n].used + bytes)]
    requires forall m: nat | m < |s.counters| ::
             InFlightCharge(t, m) == InFlightCharge(s, m) + if m == n then bytes else 0
    ensures Covered(t)
  {
  }

  lemma ExchangeRemembers(r: Reservation, before: seq<Counter>, charged: Reservation, counters: seq<Counter>)
    requires Shaped(r, |before|) && Remembered(r, before) && r.phase.Charging? && r.phase.k < |r.path|
    requires var n := r.path[r.phase.k];
             && counters == before[n := before[n].(used := before[n].used + r.bytes)]
             && before[n].used + r.bytes <= before[n].cap
             && charged == r.(phase := Charging(r.phase.k + 1, None, r.phase.committed + [before[n].used + r.bytes]))
    ensures Remembered(charged, counters)
  {
    forall i | 0 <= i < r.phase.k ensures counters[r.path[i]] == before[r.path[i]] {
    }
  }

  /** Usage, caps and charges are as they were. */
  lemma SameUsage(s: State, t: State)
    requires Balanced(s) && Capped(s) && |t.counters| == |s.counters|
    requires forall n | 0 <= n < |t.counters| ::
               t.counters[n].used == s.counters[n].used && t.counters[n].cap == s.counters[n].cap &&
                 t.counters[n].peak <= t.counters[n].cap
    requires forall n: nat :: Charges(t.reservations, n) == Charges(s.reservations, n)
    ensures Balanced(t) && Capped(t)
  {
  }

  /** A release, by rollback or by drop, never takes a counter below zero. */
  lemma ReleaseFits(s: State, x: nat, n: nat)
    requires Inv(s) && x < |s.reservations| && n < |s.counters| && Holds(s.reservations[x], n)
    ensures s.reservations[x].bytes <= s.counters[n].used
    ensures s.holder != Some(x) ==> s.reservations[x].bytes + InFlightCharge(s, n) <= s.counters[n].used
  {
    ChargesInclude(s.reservations, x, n);
    if s.holder.Some? && s.holder.value != x {
      ChargesIncludeBoth(s.reservations, x, s.holder.value, n);
    }
  }

  lemma KeepsShape(s: State, t: State, x: nat, r: Reservation)
    requires WellShaped(s) && Exclusive(s) && x < |s.reservations| && t.reservations == s.reservations[x := r]
    requires |t.counters| == |s.counters| && t.holder == s.holder
    requires Shaped(r, |s.counters|) && (InFlight(r) <==> InFlight(s.reservations[x]))
    ensures WellShaped(t) && Exclusive(t)
  {
  }

  lemma UndoInv(s: State, x: nat)
    requires Inv(s) && Enabled(s, Undo(x))
    ensures Inv(Apply(s, Undo(x)))
  {
    var r, t := s.reservations[x], Apply(s, Undo(x));
    var u := r.phase.undone;
    var after := r.(phase := RollingBack(r.phase.k, u + 1));
    assert Holds(r, r.path[u]) && InFlight(r) && s.holder == Some(x);
    ReleaseFits(s, x, r.path[u]);
    OneLess(s.reservations, x, after, u);
    KeepsShape(s, t, x, after);
    LowerBalances(s, t, r.bytes, r.path[u]);
    LowerCovers(s, t, r.bytes, r.path[u]);
  }

  lemma ReleaseInv(s: State, x: nat)
    requires Inv(s) && Enabled(s, Release(x))
    ensures Inv(Apply(s, Release(x)))
  {
    var r, t := s.reservations[x], Apply(s, Release(x));
    var k := r.phase.k;
    var after := r.(phase := Dropping(k + 1));
    assert Holds(r, r.path[k]) && s.holder != Some(x);
    ReleaseFits(s, x, r.path[k]);
    LowerUsage(s, x, after, r.path[k]);
    assert WellShaped(t) && Exclusive(t) by { KeepsShape(s, t, x, after); }
    assert Balanced(t) by { ReleaseBalances(s, t, x, after, k); }
    assert Covered(t) && Capped(t) by { LowerCovers(s, t, r.bytes, r.path[k]); }
  }

  lemma ReleaseBalances(s: State, t: State, x: nat, after: Reservation, k: nat)
    requires Balanced(s) && x < |s.reservations| && s.reservations[x].phase.Dropping? && s.reservations[x].phase.k == k
    requires Shaped(after, |s.counters|) && after == s.reservations[x].(phase := Dropping(k + 1)) && k < |after.path|
    requires after.bytes <= s.counters[after.path[k]].used
    requires t.reservations == s.reservations[x := after]
    requires t.counters == s.counters[after.path[k] := s.counters[after.path[k]].(used :=
             s.counters[after.path[k]].used - after.bytes)]
    ensures Balanced(t)
  {
    OneLess(s.reservations, x, after, k);
    LowerBalances(s, t, after.bytes, after.path[k]);
  }

  lemma LowerBalances(s: State, t: State, bytes: nat, n: nat)
    requires Balanced(s) && n < |s.counters| && bytes <= s.counters[n].used
    requires t.counters == s.counters[n := s.counters[n].(used := s.counters[n].used - bytes)]
    requires forall m: nat :: Charges(t.reservations, m) + (if m == n then bytes else 0) == Charges(s.reservations, m)
    ensures Balanced(t)
  {
  }

  lemma LowerCovers(s: State, t: State, bytes: nat, n: nat)
    requires Covered(s) && Capped(s) && n < |s.counters| && bytes <= s.counters[n].used
    requires t.counters == s.counters[n := s.counters[n].(used := s.counters[n].used - bytes)]
    requires forall m: nat | m < |s.counters| ::
               InFlightCharge(t, m) == InFlightCharge(s, m) ||
                 (m == n && InFlightCharge(t, m) + bytes == InFlightCharge(s, m))
    ensures Covered(t) && Capped(t)
  {
  }

  lemma LowerUsage(s: State, x: nat, r: Reservation, n: nat)
    requires Inv(s) && x < |s.reservations| && n < |s.counters| && s.holder != Some(x) && r.bytes <= s.counters[n].used
    ensures s.holder.Some? ==>
              Remembered(s.reservations[x := r][s.holder.value], s.counters[n :=
                s.counters[n].(used := s.counters[n].used - r.bytes)])
  {
  }

  lemma RaisePeakInv(s: State, x: nat)
    requires Inv(s) && Enabled(s, RaisePeak(x))
    ensures Inv(Apply(s, RaisePeak(x)))
  {
    var r := s.reservations[x];
    var k := r.phase.k;
    assert InFlight(r) && s.holder == Some(x);
    var after, t := r.(phase := Peaking(k + 1, r.phase.committed)), Apply(s, RaisePeak(x));
    SameCharges(s.reservations, x, after);
    KeepsShape(s, t, x, after);
    SameUsage(s, t);
    RaiseRemembers(r, s.counters);
    RaiseCovers(s, t, x, r.path[k]);
  }

  lemma RaiseRemembers(r: Reservation, counters: seq<Counter>)
    requires Shaped(r, |counters|) && Remembered(r, counters) && r.phase.Peaking? && r.phase.k < |r.path|
    ensures var n := r.path[r.phase.k]; var c := counters[n];
            Remembered(r.(phase := Peaking(r.phase.k + 1, r.phase.committed)),
                       counters[n := c.(peak := Larger(c.peak, r.phase.committed[r.phase.k]))])
  {
  }

  lemma RaiseCovers(s: State, t: State, x: nat, n: nat)
    requires Covered(s) && s.holder == t.holder == Some(x) && x < |s.reservations| && n < |s.counters|
    requires |t.reservations| == |s.reservations| && forall m: nat ::
             Charge(t.reservations[x], m) == Charge(s.reservations[x], m)
    requires |t.counters| == |s.counters|
    requires t.counters == s.counters[n := s.counters[n].(peak := t.counters[n].peak)] &&
             s.counters[n].peak <= t.counters[n].peak
    ensures Covered(t)
  {
  }

  lemma {:induction false} UnreachedCounter(rs: seq<Reservation>, n: nat)
    requires forall x | 0 <= x < |rs| :: OnPath(rs[x].path, n)
    ensures Charges(rs, n) == 0
    decreases |rs|
  {
    if rs != [] {
      UnreachedCounter(rs[..|rs| - 1], n);
      assert !Holds(rs[|rs| - 1], n);
    }
  }

  lemma NewAccountInv(s: State, cap: nat)
    requires Inv(s) && cap < U64
    ensures Inv(Apply(s, NewAccount(cap)))
  {
    UnreachedCounter(s.reservations, |s.counters|);
    if s.holder.Some? {
      assert !Holds(s.reservations[s.holder.value], |s.counters|);
    }
  }

  lemma BeginInv(s: State, path: seq<nat>, bytes: nat)
    requires Inv(s) && Enabled(s, Begin(path, bytes))
    ensures Inv(Apply(s, Begin(path, bytes)))
  {
    var t := Apply(s, Begin(path, bytes));
    var r := t.reservations[|s.reservations|];
    assert t.reservations[..|s.reservations|] == s.reservations;
    forall n: nat ensures Charge(r, n) == 0 {
      assert !Holds(r, n);
    }
  }

  lemma StepInv(s: State, step: Step)
    requires Inv(s) && Enabled(s, step)
    ensures Inv(Apply(s, step))
  {
    match step
    case NewAccount(cap) => NewAccountInv(s, cap);
    case Begin(path, bytes) => BeginInv(s, path, bytes);
    case Load(x) => LoadInv(s, x);
    case CompareExchange(x) => CompareExchangeInv(s, x);
    case ExchangeFails(x) => ExchangeFailsInv(s, x);
    case Reject(x) =>
      assert InFlight(s.reservations[x]);
      HolderMoves(s, x, RollingBack(s.reservations[x].phase.k, 0));
    case Undo(x) => UndoInv(s, x);
    case Refuse(x) => RefuseInv(s, x);
    case AllCharged(x) =>
      assert InFlight(s.reservations[x]);
      HolderMoves(s, x, Peaking(0, s.reservations[x].phase.committed));
    case RaisePeak(x) => RaisePeakInv(s, x);
    case Commit(x) => CommitInv(s, x);
    case BeginDrop(x) => OthersMove(s, x, Dropping(0));
    case Release(x) => ReleaseInv(s, x);
    case EndDrop(x) => OthersMove(s, x, Released);
  }

  // ----- every run -----------------------------------------------------------------------------------

  /** A run is the states it passes and the steps between them, from any interleaving. */
  ghost predicate Run(states: seq<State>, steps: seq<Step>) {
    && |states| == |steps| + 1 && states[0] == Empty()
    && forall k | 0 <= k < |steps| :: Enabled(states[k], steps[k]) && states[k + 1] == Apply(states[k], steps[k])
  }

  lemma {:induction false} RunInv(states: seq<State>, steps: seq<Step>, k: nat)
    requires Run(states, steps) && k < |states|
    ensures Inv(states[k])
  {
    if k == 0 {
      EmptyInv();
    } else {
      RunInv(states, steps, k - 1);
      StepInv(states[k - 1], steps[k - 1]);
      assert states[k - 1 + 1] == Apply(states[k - 1], steps[k - 1]);
    }
  }

  /** What finished or live reservations contribute, leaving the transaction in flight out. */
  ghost function SettledCharges(rs: seq<Reservation>, n: nat): nat {
    if rs == [] then 0
    else SettledCharges(rs[..|rs| - 1], n) + if InFlight(rs[|rs| - 1]) then 0 else Charge(rs[|rs| - 1], n)
  }

  lemma {:induction false} SettledSplit(rs: seq<Reservation>, holder: Option<nat>, n: nat)
    requires forall x | 0 <= x < |rs| :: InFlight(rs[x]) <==> holder == Some(x)
    ensures Charges(rs, n) ==
            SettledCharges(rs, n) + if holder.Some? && holder.value < |rs| then Charge(rs[holder.value], n) else 0
    decreases |rs|
  {
    if rs != [] {
      SettledSplit(rs[..|rs| - 1], holder, n);
    }
  }

  /** A granted reservation charges its bytes to every account on its path; a finished one charges nothing. */
  lemma ChargeMeans(rs: seq<Reservation>, r: Reservation, n: nat)
    ensures r.phase.Live? ==> SettledCharges(rs + [r], n) == SettledCharges(rs, n) + if n in r.path then r.bytes else 0
    ensures r.phase.Released? || r.phase.Refused? || InFlight(r) ==>
            SettledCharges(rs + [r], n) == SettledCharges(rs, n)
    ensures r.phase.Dropping? && r.phase.k <= |r.path| ==>
            SettledCharges(rs + [r], n) == SettledCharges(rs, n) + if n in r.path[r.phase.k..] then r.bytes else 0
  {
    assert (rs + [r])[..|rs|] == rs;
    if r.phase.Live? && n in r.path {
      var i :| 0 <= i < |r.path| && r.path[i] == n;
      assert Holds(r, n);
    }
    if r.phase.Dropping? && r.phase.k <= |r.path| && n in r.path[r.phase.k..] {
      var i :| 0 <= i < |r.path[r.phase.k..]| && r.path[r.phase.k..][i] == n;
      assert r.path[r.phase.k + i] == n && Holds(r, n);
    }
  }

  /**
   In every state of every run, each counter is the sum of the settled reservations through it plus
   at most the one transaction in flight, never above its cap; once no transaction is in flight,
   usage is covered by the peak.
   */
  lemma Accounting(states: seq<State>, steps: seq<Step>, k: nat, n: nat)
    requires Run(states, steps) && k < |states| && n < |states[k].counters|
    ensures var s := states[k]; var c := s.counters[n];
            && c.used == SettledCharges(s.reservations, n) + InFlightCharge(s, n)
            && c.used <= c.cap && c.peak <= c.cap
            && (s.holder.None? ==> c.used == SettledCharges(s.reservations, n) && c.used <= c.peak)
    ensures forall x, y | 0 <= x < y < |states[k].reservations| ::
              !(InFlight(states[k].reservations[x]) && InFlight(states[k].reservations[y]))
  {
    RunInv(states, steps, k);
    SettledSplit(states[k].reservations, states[k].holder, n);
  }

  /** A refused reservation leaves nothing behind: it contributes to no counter, and never raised a peak. */
  lemma RefusedLeavesNothing(states: seq<State>, steps: seq<Step>, k: nat, x: nat)
    requires Run(states, steps) && k < |states| && x < |states[k].reservations| &&
             states[k].reservations[x].phase.Refused?
    ensures forall n: nat :: Charge(states[k].reservations[x], n) == 0
    ensures forall j | 0 <= j < k && j < |steps| :: !steps[j].RaisePeak? || steps[j].x != x
  {
    forall j | 0 <= j < k && j < |steps| && steps[j].RaisePeak? ensures steps[j].x != x {
      if steps[j].x == x {
        assert Past(states[j].reservations[x]) == 2;
        PastGrows(states, steps, j, k, x);
      }
    }
  }

  /** How far a reservation has come: 0 charging, 1 on the way to refusal, 2 on the way to being granted. */
  function Past(r: Reservation): nat {
    match r.phase
    case Charging(_, _, _) => 0
    case RollingBack(_, _) => 1
    case Refused => 1
    case _ => 2
  }

  lemma {:induction false} PastGrows(states: seq<State>, steps: seq<Step>, j: nat, k: nat, x: nat)
    requires Run(states, steps) && j <= k < |states| && x < |states[j].reservations|
    ensures x < |states[k].reservations| && states[k].reservations[x].path == states[j].reservations[x].path
    ensures Past(states[j].reservations[x]) > 0 ==> Past(states[k].reservations[x]) == Past(states[j].reservations[x])
    decreases k - j
  {
    if j < k {
      PastGrows(states, steps, j, k - 1, x);
      assert states[k - 1 + 1] == Apply(states[k - 1], steps[k - 1]);
      StepGrows(states[k - 1], steps[k - 1], x);
    }
  }

  lemma StepGrows(s: State, step: Step, x: nat)
    requires Enabled(s, step) && x < |s.reservations|
    ensures var t := Apply(s, step);
            && x < |t.reservations| && t.reservations[x].path == s.reservations[x].path
            && (Past(s.reservations[x]) > 0 ==> Past(t.reservations[x]) == Past(s.reservations[x]))
  {
  }

  /**
   The value a transaction reads from the next counter on its path consists of granted charges only:
   it sees nothing of its own and nothing that is later rolled back.
   */
  lemma ReadsAreGranted(states: seq<State>, steps: seq<Step>, k: nat, x: nat)
    requires Run(states, steps) && k < |steps| && (steps[k] == Load(x) || steps[k] == ExchangeFails(x))
    ensures var s, t := states[k], states[k + 1];
            var n := s.reservations[x].path[s.reservations[x].phase.k];
            && t.reservations[x].phase.loaded == Some(SettledCharges(s.reservations, n))
            && forall y, later | 0 <= y < |s.reservations| && y != x && Charge(s.reservations[y], n) > 0 &&
              k <= later < |states| ::
                 y < |states[later].reservations| && Past(states[later].reservations[y]) == 2
  {
    var s := states[k];
    var r := s.reservations[x];
    var n := r.path[r.phase.k];
    RunInv(states, steps, k);
    assert InFlight(r) && s.holder == Some(x) && !Holds(r, n);
    SettledSplit(s.reservations, s.holder, n);
    forall y, later | 0 <= y < |s.reservations| && y != x && Charge(s.reservations[y], n) > 0 && k <= later < |states|
      ensures y < |states[later].reservations| && Past(states[later].reservations[y]) == 2
    {
      assert !InFlight(s.reservations[y]) && Holds(s.reservations[y], n);
      PastGrows(states, steps, k, later, y);
    }
  }

  /** A charge is granted exactly on top of the settled usage, within the cap. */
  lemma GrantedWithinCap(states: seq<State>, steps: seq<Step>, k: nat, x: nat)
    requires Run(states, steps) && k < |steps| && steps[k] == CompareExchange(x)
    ensures var s := states[k]; var r := s.reservations[x]; var n := r.path[r.phase.k];
            && SettledCharges(s.reservations, n) + r.bytes <= s.counters[n].cap
            && states[k + 1].counters[n].used == SettledCharges(s.reservations, n) + r.bytes
  {
    var s := states[k];
    var r := s.reservations[x];
    var n := r.path[r.phase.k];
    RunInv(states, steps, k);
    assert InFlight(r) && s.holder == Some(x) && !Holds(r, n);
    SettledSplit(s.reservations, s.holder, n);
  }

  // ----- when a reservation is granted, and when it is refused ----------------------------------------

  /** Reservation x has just read the counter it is about to charge. */
  predicate Reads(step: Step, x: nat) { step == Load(x) || step == ExchangeFails(x) }

  /** A step that is not a read of x either leaves x alone or leaves nothing read. */
  lemma ReadOrKept(s: State, step: Step, x: nat)
    requires Enabled(s, step) && !Reads(step, x) && x < |Apply(s, step).reservations|
    requires var p := Apply(s, step).reservations[x].phase; p.Charging? && p.loaded.Some?
    ensures x < |s.reservations| && s.reservations[x] == Apply(s, step).reservations[x]
  {
  }

  lemma ReadValue(s: State, step: Step, x: nat)
    requires Enabled(s, step) && Reads(step, x)
    ensures var r := s.reservations[x];
            && r.phase.Charging? && r.phase.k < |r.path| && r.path[r.phase.k] < |s.counters|
            && Apply(s, step).reservations[x] ==
               r.(phase := r.phase.(loaded := Some(s.counters[r.path[r.phase.k]].used)))
  {
  }

  /** What a transaction has read comes from its last read. */
  lemma {:induction false} LastRead(states: seq<State>, steps: seq<Step>, k: nat, x: nat, r: Reservation)
    returns (j: nat)
    requires Run(states, steps) && k < |states| && x < |states[k].reservations| && r == states[k].reservations[x]
    requires r.phase.Charging? && r.phase.loaded.Some?
    ensures j < k && Reads(steps[j], x) && forall i | j < i < k :: !Reads(steps[i], x)
    ensures x < |states[j].reservations| && states[j].reservations[x].phase.Charging?
    ensures var before := states[j].reservations[x];
            && before.path == r.path && before.bytes == r.bytes && before.phase.k == r.phase.k < |r.path|
            && r.path[r.phase.k] < |states[j].counters|
            && r.phase.loaded == Some(states[j].counters[r.path[r.phase.k]].used)
  {
    assert k > 0;
    j := k - 1;
    assert states[j + 1] == Apply(states[j], steps[j]);
    if Reads(steps[j], x) {
      ReadValue(states[j], steps[j], x);
    } else {
      ReadOrKept(states[j], steps[j], x);
      j := LastRead(states, steps, j, x, r);
    }
  }

  /**
   The decision on a charge, in every run: with `settled` the granted usage when the counter was last read,
   the charge is rejected exactly when settled usage and the charge together exceed the cap or 64 bits, and
   goes through exactly when they do not and the counter still holds what was read.
   */
  lemma Decision(states: seq<State>, steps: seq<Step>, k: nat, x: nat) returns (j: nat)
    requires Run(states, steps) && k < |states| && x < |states[k].reservations|
    requires states[k].reservations[x].phase.Charging? && states[k].reservations[x].phase.loaded.Some?
    ensures j < k && (steps[j] == Load(x) || steps[j] == ExchangeFails(x))
    ensures forall i | j < i < k :: steps[i] != Load(x) && steps[i] != ExchangeFails(x)
    ensures var r := states[k].reservations[x];
            && r.phase.k < |r.path| && r.path[r.phase.k] < |states[j].counters| <= |states[k].counters|
    ensures var r := states[k].reservations[x]; var n := r.path[r.phase.k];
            var settled, cap := SettledCharges(states[j].reservations, n), states[k].counters[n].cap;
            && cap == states[j].counters[n].cap
            && (Enabled(states[k], Reject(x)) <==>
                settled + r.bytes > cap || settled + r.bytes >= 0x1_0000_0000_0000_0000)
            && (Enabled(states[k], CompareExchange(x)) <==>
                settled + r.bytes <= cap && settled + r.bytes < 0x1_0000_0000_0000_0000 &&
                  states[k].counters[n].used == settled)
            && (Enabled(states[k], ExchangeFails(x)) <==>
                settled + r.bytes <= cap && settled + r.bytes < 0x1_0000_0000_0000_0000)
  {
    j := LastRead(states, steps, k, x, states[k].reservations[x]);
    var n := states[k].reservations[x].path[states[k].reservations[x].phase.k];
    RunInv(states, steps, k);
    CapsFixed(states, steps, j, k, n);
    SettledWhenRead(states, steps, j, x);
  }

  lemma SettledWhenRead(states: seq<State>, steps: seq<Step>, j: nat, x: nat)
    requires Run(states, steps) && j < |steps| && Reads(steps[j], x)
    ensures var s := states[j]; var r := s.reservations[x]; var n := r.path[r.phase.k];
            s.counters[n].used == SettledCharges(s.reservations, n)
  {
    ReadsAreGranted(states, steps, j, x);
    ReadValue(states[j], steps[j], x);
    assert states[j + 1] == Apply(states[j], steps[j]);
  }

  /** An account keeps the cap it was created with. */
  lemma {:induction false} CapsFixed(states: seq<State>, steps: seq<Step>, j: nat, k: nat, n: nat)
    requires Run(states, steps) && j <= k < |states| && n < |states[j].counters|
    ensures n < |states[k].counters| && states[k].counters[n].cap == states[j].counters[n].cap
    ensures |states[j].counters| <= |states[k].counters|
    decreases k - j
  {
    if j < k {
      CapsFixed(states, steps, j, k - 1, n);
      assert states[k - 1 + 1] == Apply(states[k - 1], steps[k - 1]);
    }
  }

  /** A rejection has a cause: what was granted already and the charge do not fit together. */
  lemma RejectedForCause(states: seq<State>, steps: seq<Step>, k: nat, x: nat) returns (j: nat)
    requires Run(states, steps) && k < |steps| && steps[k] == Reject(x)
    ensures j < k && (steps[j] == Load(x) || steps[j] == ExchangeFails(x))
    ensures forall i | j < i < k :: steps[i] != Load(x) && steps[i] != ExchangeFails(x)
    ensures var r := states[k].reservations[x]; var n := r.path[r.phase.k];
            || SettledCharges(states[j].reservations, n) + r.bytes > states[k].counters[n].cap
            || SettledCharges(states[j].reservations, n) + r.bytes >= 0x1_0000_0000_0000_0000
  {
    j := Decision(states, steps, k, x);
  }

  /** The transaction that holds the lock can always move; without one, any reservation can begin. */
  lemma NeverStuck(states: seq<State>, steps: seq<Step>, k: nat)
    requires Run(states, steps) && k < |states|
    ensures var s := states[k];
            s.holder.Some? ==>
              var x := s.holder.value;
              || Enabled(s, Load(x)) || Enabled(s, ExchangeFails(x)) || Enabled(s, Reject(x))
              || Enabled(s, Undo(x)) || Enabled(s, Refuse(x))
              || Enabled(s, AllCharged(x)) || Enabled(s, RaisePeak(x)) || Enabled(s, Commit(x))
    ensures var s := states[k];
            s.holder.None? ==>
              forall path: seq<nat>, bytes: nat |
                && path != [] && path[0] == 0 && bytes < 0x1_0000_0000_0000_0000
                && (forall i | 0 <= i < |path| :: path[i] < |s.counters|)
                && (forall i, j | 0 <= i < j < |path| :: path[i] != path[j]) :: Enabled(s, Begin(path, bytes))
  {
    RunInv(states, steps, k);
    var s := states[k];
    if s.holder.Some? {
      assert InFlight(s.reservations[s.holder.value]);
    }
  }

  /** A granted reservation can always be given back, counter by counter. */
  lemma DropsProceed(states: seq<State>, steps: seq<Step>, k: nat, x: nat)
    requires Run(states, steps) && k < |states| && x < |states[k].reservations|
    ensures states[k].reservations[x].phase.Live? ==> Enabled(states[k], BeginDrop(x))
    ensures states[k].reservations[x].phase.Dropping? ==>
            Enabled(states[k], Release(x)) || Enabled(states[k], EndDrop(x))
  {
    RunInv(states, steps, k);
    assert Shaped(states[k].reservations[x], |states[k].counters|);
  }

  // ----- peaks are usage that was reached ---------------------------------------------------------------

  function Committed(r: Reservation): seq<nat> {
    match r.phase
    case Charging(_, _, committed) => committed
    case Peaking(_, committed) => committed
    case _ => []
  }

  lemma CommittedStep(s: State, step: Step, x: nat, i: nat)
    requires Enabled(s, step) && WellShaped(s) && x < |Apply(s, step).reservations|
    requires i < |Committed(Apply(s, step).reservations[x])|
    ensures var t := Apply(s, step); var r := t.reservations[x];
            || (x < |s.reservations| && i < |Committed(s.reservations[x])| &&
                s.reservations[x].path == r.path && Committed(s.reservations[x])[i] == Committed(r)[i])
            || (step == CompareExchange(x) && i < |r.path| && r.path[i] < |t.counters| &&
                t.counters[r.path[i]].used == Committed(r)[i])
  {
  }

  lemma {:induction false} CommittedWasReached(states: seq<State>, steps: seq<Step>, k: nat, x: nat, i: nat)
    returns (j: nat)
    requires Run(states, steps) && k < |states| && x < |states[k].reservations|
    requires i < |Committed(states[k].reservations[x])|
    ensures i < |states[k].reservations[x].path| && j < k && steps[j].CompareExchange?
    ensures var n := states[k].reservations[x].path[i];
            n < |states[j + 1].counters| && states[j + 1].counters[n].used == Committed(states[k].reservations[x])[i]
  {
    assert k > 0;
    j := k - 1;
    RunInv(states, steps, j);
    assert states[j + 1] == Apply(states[j], steps[j]);
    CommittedStep(states[j], steps[j], x, i);
    if x < |states[j].reservations| && i < |Committed(states[j].reservations[x])| &&
       states[j].reservations[x].path == states[k].reservations[x].path &&
       Committed(states[j].reservations[x])[i] == Committed(states[k].reservations[x])[i] {
      j := CommittedWasReached(states, steps, j, x, i);
    }
  }

  lemma PeakStep(s: State, step: Step, n: nat)
    requires Enabled(s, step) && n < |Apply(s, step).counters|
    ensures var t := Apply(s, step);
            || (n >= |s.counters| && t.counters[n].peak == 0)
            || (n < |s.counters| && t.counters[n].peak == s.counters[n].peak)
            || (step.RaisePeak? && var r := s.reservations[step.x];
                r.phase.k < |Committed(r)| && r.phase.k < |r.path| && n == r.path[r.phase.k] &&
                  t.counters[n].peak == Committed(r)[r.phase.k])
  {
  }

  /** Every peak on record is usage that the counter really had, right after some charge. */
  lemma {:induction false} PeakWasReached(states: seq<State>, steps: seq<Step>, k: nat, n: nat)
    requires Run(states, steps) && k < |states| && n < |states[k].counters| && states[k].counters[n].peak > 0
    ensures exists j :: 0 <= j < k && steps[j].CompareExchange? && n < |states[j + 1].counters| &&
                          states[j + 1].counters[n].used == states[k].counters[n].peak
  {
    assert k > 0;
    assert states[k - 1 + 1] == Apply(states[k - 1], steps[k - 1]);
    PeakStep(states[k - 1], steps[k - 1], n);
    var s, step := states[k - 1], steps[k - 1];
    if n < |s.counters| && states[k].counters[n].peak == s.counters[n].peak {
      PeakWasReached(states, steps, k - 1, n);
    } else {
      var r := s.reservations[step.x];
      var j := CommittedWasReached(states, steps, k - 1, step.x, r.phase.k);
    }
  }
}
