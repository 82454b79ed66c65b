/**
  Starting and stopping hardware threads (sbi/src/hart.c, sbi/src/lock.c) as an interleaving
  of atomic steps.  Any number of callers may be inside hart_start, hart_stop and
  hart_handle_msip at the same time, on any harts.
 */
module HartProtocol {

  const MAX_ALLOWABLE_HARTS := 8

  datatype Status = Invalid | Stopped | Starting | Started

  /** What hart_start passes on to the hart it starts. */
  datatype Params = Params(target: nat, scratch: nat, satp: nat)

  /**
    The shared words of one hart: its lock, its HartData and its software-interrupt bit;
    and three histories: the starts accepted, how many of them were acknowledged to their
    caller, and the parameters of every launch.
   */
  datatype Hart = Hart(
    locked: bool, status: Status, params: Params, msip: bool,
    accepted: seq<Params>, acknowledged: nat, launched: seq<Params>)

  /** Where a caller is.  Each constructor names the next atomic step of the call. */
  datatype Pc =
    | Idle(result: bool)
    // hart_start
    | TryStart(hart: nat, p: Params)
    | CheckStopped(hart: nat, p: Params)
    | SetStarting(hart: nat, p: Params)
    | SetTarget(hart: nat, p: Params)
    | SetScratch(hart: nat, p: Params)
    | SetSatp(hart: nat, p: Params)
    | RaiseMsip(hart: nat, p: Params)
    | UnlockStart(hart: nat, ret: bool)
    // hart_stop
    | TryStop(hart: nat)
    | CheckStarted(hart: nat)
    | SetStopped(hart: nat)
    | UnlockStop(hart: nat)
    // hart_handle_msip
    | Spin(hart: nat)
    | ClearMsip(hart: nat)
    | CheckStarting(hart: nat)
    | LoadTarget(hart: nat)
    | LoadScratch(hart: nat, mepc: nat)
    | LoadSatp(hart: nat, mepc: nat, sscratch: nat)
    | SetStarted(hart: nat, csrs: Params)
    | UnlockMsip(hart: nat)
  {
    /** The caller is between taking and releasing the lock of hart h. */
    predicate Holds(h: nat) {
      !Idle? && hart == h && !TryStart? && !TryStop? && !Spin?
    }

    predicate InRange() {
      Idle? || hart < MAX_ALLOWABLE_HARTS
    }
  }

  datatype State = State(harts: seq<Hart>, callers: map<nat, Pc>)

  /** Call starts a new call in an idle caller, Go takes the next step of one, Ipi is any other software interrupt. */
  datatype Action =
    | CallStart(c: nat, hart: nat, p: Params)
    | CallStop(c: nat, hart: nat)
    | TakeMsip(c: nat, hart: nat)
    | Go(c: nat)
    | Ipi(hart: nat)

  predicate Free(s: State, c: nat) {
    c !in s.callers || s.callers[c].Idle?
  }

  function Begin(s: State, c: nat, hart: nat, pc: Pc): State {
    if !Free(s, c) then s
    else if hart >= MAX_ALLOWABLE_HARTS then s.(callers := s.callers[c := Idle(false)])
    else s.(callers := s.callers[c := pc])
  }

  /** The atomic step of caller pc on hart d: the new hart and the new caller. */
  function StepOf(d: Hart, pc: Pc): (Hart, Pc)
    requires !pc.Idle?
  {
    match pc
    // mutex_trylock is one atomic swap: the lock is taken in any case, and was ours if it was free.
    case TryStart(h, p) => (d.(locked := true), if d.locked then Idle(false) else CheckStopped(h, p))
    case CheckStopped(h, p) => (d, if d.status != Stopped then UnlockStart(h, false) else SetStarting(h, p))
    case SetStarting(h, p) => (d.(status := Starting, accepted := d.accepted + [p]), SetTarget(h, p))
    case SetTarget(h, p) => (d.(params := d.params.(target := p.target)), SetScratch(h, p))
    case SetScratch(h, p) => (d.(params := d.params.(scratch := p.scratch)), SetSatp(h, p))
    case SetSatp(h, p) => (d.(params := d.params.(satp := p.satp)), RaiseMsip(h, p))
    case RaiseMsip(h, p) => (d.(msip := true), UnlockStart(h, true))
    case UnlockStart(h, ret) =>
      (d.(locked := false, acknowledged := d.acknowledged + if ret then 1 else 0), Idle(ret))
    case TryStop(h) => (d.(locked := true), if d.locked then Idle(false) else CheckStarted(h))
    case CheckStarted(h) => (d, if d.status != Started then UnlockStop(h) else SetStopped(h))
    case SetStopped(h) => (d.(status := Stopped), UnlockStop(h))
    case UnlockStop(h) => (d.(locked := false), Idle(false))
    case Spin(h) => (d.(locked := true), if d.locked then Spin(h) else ClearMsip(h))
    case ClearMsip(h) => (d.(msip := false), CheckStarting(h))
    case CheckStarting(h) => (d, if d.status == Starting then LoadTarget(h) else UnlockMsip(h))
    case LoadTarget(h) => (d, LoadScratch(h, d.params.target))
    case LoadScratch(h, mepc) => (d, LoadSatp(h, mepc, d.params.scratch))
    case LoadSatp(h, mepc, sscratch) => (d, SetStarted(h, Params(mepc, sscratch, d.params.satp)))
    case SetStarted(h, csrs) => (d.(status := Started, launched := d.launched + [csrs]), UnlockMsip(h))
    case UnlockMsip(h) => (d.(locked := false), Idle(true))
  }

  function Step(s: State, a: Action): (s': State)
    requires WellFormed(s)
    ensures WellFormed(s')
  {
    match a
    case CallStart(c, h, p) => Begin(s, c, h, TryStart(h, p))
    case CallStop(c, h) => Begin(s, c, h, TryStop(h))
    case TakeMsip(c, h) => Begin(s, c, h, Spin(h))
    case Ipi(h) => if h < |s.harts| then s.(harts := s.harts[h := s.harts[h].(msip := true)]) else s
    case Go(c) =>
      if Free(s, c) then s
      else
        var pc := s.callers[c];
        var (d, pc') := StepOf(s.harts[pc.hart], pc);
        State(s.harts[pc.hart := d], s.callers[c := pc'])
  }

  ghost predicate WellFormed(s: State) {
    |s.harts| == MAX_ALLOWABLE_HARTS && forall c :: c in s.callers ==> s.callers[c].InRange()
  }

  /** Every accepted start has been launched, except at most the last one. */
  ghost predicate Settled(d: Hart) {
    d.accepted == if d.status == Starting then d.launched + [d.params] else d.launched
  }

  /** What other callers may find when the lock is free. */
  ghost predicate Quiet(d: Hart) {
    Settled(d) && |d.accepted| == d.acknowledged && (d.status == Starting ==> d.msip)
  }

  /** What a caller inside the critical section of hart d knows. */
  ghost predicate Knows(d: Hart, pc: Pc) {
    match pc
    case CheckStopped(_, _) => Quiet(d)
    case SetStarting(_, _) => Quiet(d) && d.status == Stopped
    case SetTarget(_, p) => Accepting(d, p)
    case SetScratch(_, p) => Accepting(d, p) && d.params.target == p.target
    case SetSatp(_, p) => Accepting(d, p) && d.params.target == p.target && d.params.scratch == p.scratch
    case RaiseMsip(_, p) => Accepting(d, p) && d.params == p
    case UnlockStart(_, ret) =>
      && Settled(d) && (d.status == Starting ==> d.msip)
      && |d.accepted| == d.acknowledged + if ret then 1 else 0
    case CheckStarted(_) => Quiet(d)
    case SetStopped(_) => Quiet(d) && d.status == Started
    case UnlockStop(_) => Quiet(d)
    case ClearMsip(_) => Quiet(d)
    case CheckStarting(_) => Settled(d) && |d.accepted| == d.acknowledged
    case LoadTarget(_) => Launching(d)
    case LoadScratch(_, mepc) => Launching(d) && mepc == d.params.target
    case LoadSatp(_, mepc, sscratch) => Launching(d) && mepc == d.params.target && sscratch == d.params.scratch
    case SetStarted(_, csrs) => Launching(d) && csrs == d.params
    case UnlockMsip(_) => Quiet(d) && d.status != Starting
    case _ => true
  }

  ghost predicate Accepting(d: Hart, p: Params) {
    d.status == Starting && d.accepted == d.launched + [p] && |d.accepted| == d.acknowledged + 1
  }

  ghost predicate Launching(d: Hart) {
    d.status == Starting && Settled(d) && |d.accepted| == d.acknowledged
  }

  /** The lock of hart h is held by exactly the callers inside its critical section, never two. */
  ghost predicate LockOk(s: State, h: nat)
    requires h < |s.harts|
  {
    && (s.harts[h].locked <==> exists c :: c in s.callers && s.callers[c].Holds(h))
    && (forall b, c :: b in s.callers && c in s.callers && s.callers[b].Holds(h) && s.callers[c].Holds(h) ==> b == c)
  }

  ghost predicate HartOk(s: State, h: nat)
    requires h < |s.harts|
  {
    && LockOk(s, h)
    && (!s.harts[h].locked ==> Quiet(s.harts[h]))
    && (forall c :: c in s.callers && s.callers[c].Holds(h) ==> Knows(s.harts[h], s.callers[c]))
  }

  ghost predicate Inv(s: State) {
    WellFormed(s) && forall h :: 0 <= h < |s.harts| ==> HartOk(s, h)
  }

  /** After boot (sbi/src/main.c:81-84, 131): locks free, nobody inside, no start asked for. */
  ghost predicate Init(s: State) {
    && |s.harts| == MAX_ALLOWABLE_HARTS
    && (forall c :: c in s.callers ==> s.callers[c].Idle?)
    && forall h :: 0 <= h < |s.harts| ==>
         var d := s.harts[h];
         !d.locked && d.status != Starting && d.accepted == [] && d.launched == [] && d.acknowledged == 0
  }

  lemma InitInv(s: State)
    requires Init(s)
    ensures Inv(s)
  {
  }

  /** One atomic step of one caller, seen from its own hart. */
  lemma OwnStep(d: Hart, pc: Pc)
    requires !pc.Idle? && (pc.Holds(pc.hart) ==> Knows(d, pc))
    requires !pc.Holds(pc.hart) && !d.locked ==> Quiet(d)
    ensures var (d', pc') := StepOf(d, pc);
            && (pc'.Idle? || pc'.hart == pc.hart)
            && (pc'.Holds(pc.hart) ==> Knows(d', pc'))
            && (pc.Holds(pc.hart) && !pc'.Holds(pc.hart) ==> !d'.locked && Quiet(d'))
            && (pc.Holds(pc.hart) && pc'.Holds(pc.hart) ==> d'.locked == d.locked)
            && (!pc.Holds(pc.hart) ==> d' == d.(locked := true) && (pc'.Holds(pc.hart) <==> !d.locked))
  {
  }

  lemma GoOwn(s: State, c: nat)
    requires Inv(s) && !Free(s, c)
    ensures HartOk(Step(s, Go(c)), s.callers[c].hart)
  {
    var pc := s.callers[c];
    var h := pc.hart;
    var d := s.harts[h];
    assert HartOk(s, h);
    OwnStep(d, pc);
    var (d', pc') := StepOf(d, pc);
    var s' := Step(s, Go(c));
    assert s'.callers[c] == pc' && s'.harts[h] == d';
    forall b | b in s'.callers && b != c && s'.callers[b].Holds(h)
      ensures !pc.Holds(h) && d.locked && Knows(d', s'.callers[b])
    {
      assert s.callers[b].Holds(h) && Knows(d, s.callers[b]);
      LockedKnows(d, s.callers[b]);
    }
    if d'.locked {
      if !pc'.Holds(h) {
        var b :| b in s.callers && s.callers[b].Holds(h);
        assert s'.callers[b].Holds(h);
      } else {
        assert s'.callers[c].Holds(h);
      }
    }
  }

  /** A failed swap leaves the word as it was for the holder. */
  lemma LockedKnows(d: Hart, pc: Pc)
    requires Knows(d, pc)
    ensures Knows(d.(locked := true), pc) && Knows(d.(msip := true), pc)
  {
  }

  /** A change of one caller that holds hart h neither before nor after does not concern h. */
  lemma CallerElsewhere(s: State, s': State, c: nat, h: nat)
    requires |s.harts| == |s'.harts| && h < |s.harts| && HartOk(s, h) && s'.harts[h] == s.harts[h]
    requires c in s'.callers && s'.callers == s.callers[c := s'.callers[c]]
    requires !s'.callers[c].Holds(h) && (c in s.callers ==> !s.callers[c].Holds(h))
    ensures HartOk(s', h)
  {
    forall b | b != c
      ensures b in s'.callers <==> b in s.callers
      ensures b in s.callers ==> s'.callers[b] == s.callers[b]
    {
    }
    if s'.harts[h].locked {
      var b :| b in s.callers && s.callers[b].Holds(h);
      assert s'.callers[b].Holds(h);
    }
  }

  lemma BeginInv(s: State, c: nat, hart: nat, pc: Pc)
    requires Inv(s) && !pc.Idle? && pc.hart == hart && !pc.Holds(hart)
    ensures Inv(Begin(s, c, hart, pc))
  {
    var s' := Begin(s, c, hart, pc);
    if Free(s, c) {
      forall h | 0 <= h < |s.harts|
        ensures HartOk(s', h)
      {
        CallerElsewhere(s, s', c, h);
      }
    }
  }

  lemma IpiInv(s: State, h: nat)
    requires Inv(s)
    ensures Inv(Step(s, Ipi(h)))
  {
    if h < |s.harts| {
      var s' := Step(s, Ipi(h));
      assert HartOk(s, h);
      forall c | c in s.callers && s.callers[c].Holds(h)
        ensures Knows(s'.harts[h], s'.callers[c])
      {
        LockedKnows(s.harts[h], s.callers[c]);
      }
      forall g | 0 <= g < |s.harts|
        ensures HartOk(s', g)
      {
        assert HartOk(s, g);
        if s'.harts[g].locked {
          var b :| b in s.callers && s.callers[b].Holds(g);
          assert s'.callers[b].Holds(g);
        }
      }
    }
  }

  /** Every atomic step of every caller keeps the invariant. */
  lemma StepInv(s: State, a: Action)
    requires Inv(s)
    ensures Inv(Step(s, a))
  {
    match a
    case CallStart(c, h, p) => BeginInv(s, c, h, TryStart(h, p));
    case CallStop(c, h) => BeginInv(s, c, h, TryStop(h));
    case TakeMsip(c, h) => BeginInv(s, c, h, Spin(h));
    case Ipi(h) => IpiInv(s, h);
    case Go(c) =>
      if !Free(s, c) {
        var pc := s.callers[c];
        var s' := Step(s, a);
        forall h | 0 <= h < |s.harts|
          ensures HartOk(s', h)
        {
          if h == pc.hart {
            GoOwn(s, c);
          } else {
            OwnHart(s.harts[pc.hart], pc);
            CallerElsewhere(s, s', c, h);
          }
        }
      }
  }

  lemma OwnHart(d: Hart, pc: Pc)
    requires !pc.Idle?
    ensures StepOf(d, pc).1.Idle? || StepOf(d, pc).1.hart == pc.hart
  {
  }

  /** The state after a whole interleaving. */
  function Run(s: State, actions: seq<Action>): (s': State)
    requires WellFormed(s)
    ensures WellFormed(s')
    decreases |actions|
  {
    if actions == [] then s else Step(Run(s, actions[..|actions| - 1]), actions[|actions| - 1])
  }

  lemma {:induction false} RunInv(s: State, actions: seq<Action>)
    requires Init(s)
    ensures Inv(Run(s, actions))
    decreases |actions|
  {
    if actions == [] {
      InitInv(s);
    } else {
      RunInv(s, actions[..|actions| - 1]);
      StepInv(Run(s, actions[..|actions| - 1]), actions[|actions| - 1]);
    }
  }

  /** No start is lost: a starting hart whose lock is free has its interrupt pending. */
  lemma NoLostStart(s: State, actions: seq<Action>, h: nat)
    requires Init(s) && h < MAX_ALLOWABLE_HARTS
    ensures var d := Run(s, actions).harts[h];
            d.status == Starting && !d.locked ==> d.msip
  {
    RunInv(s, actions);
    assert HartOk(Run(s, actions), h);
  }

  /**
    No start is torn, repeated or reordered: the launches of a hart are exactly its accepted
    starts in order, but for one that is pending while the hart is starting.
   */
  lemma LaunchesAreAcceptedStarts(s: State, actions: seq<Action>, h: nat)
    requires Init(s) && h < MAX_ALLOWABLE_HARTS
    ensures var d := Run(s, actions).harts[h];
            && d.launched <= d.accepted
            && |d.accepted| == |d.launched| + (if d.status == Starting then 1 else 0)
  {
    RunInv(s, actions);
    var s' := Run(s, actions);
    assert HartOk(s', h);
    if s'.harts[h].locked {
      var c :| c in s'.callers && s'.callers[c].Holds(h);
      assert Knows(s'.harts[h], s'.callers[c]);
    }
  }

  /** hart_start reports success exactly once for every accepted start, and never for another. */
  lemma AcknowledgedAreAccepted(s: State, actions: seq<Action>, h: nat)
    requires Init(s) && h < MAX_ALLOWABLE_HARTS
    ensures var d := Run(s, actions).harts[h];
            && d.acknowledged <= |d.accepted| <= d.acknowledged + 1
            && (!d.locked ==> |d.accepted| == d.acknowledged)
  {
    RunInv(s, actions);
    var s' := Run(s, actions);
    assert HartOk(s', h);
    if s'.harts[h].locked {
      var c :| c in s'.callers && s'.callers[c].Holds(h);
      assert Knows(s'.harts[h], s'.callers[c]);
    }
  }

  /** The per-hart lock excludes: never two callers inside the critical section of one hart. */
  lemma MutualExclusion(s: State, actions: seq<Action>, h: nat, b: nat, c: nat)
    requires Init(s) && h < MAX_ALLOWABLE_HARTS
    requires var callers := Run(s, actions).callers;
             b in callers && c in callers && callers[b].Holds(h) && callers[c].Holds(h)
    ensures b == c
  {
    RunInv(s, actions);
    assert HartOk(Run(s, actions), h);
  }

  /** k steps of caller c in a row. */
  function Alone(s: State, c: nat, k: nat): (s': State)
    requires WellFormed(s)
    ensures WellFormed(s')
  {
    if k == 0 then s else Step(Alone(s, c, k - 1), Go(c))
  }

  /** A caller that is not disturbed moves on as StepOf says, and nothing else changes. */
  lemma AloneStep(s: State, c: nat, k: nat, t: State, pc: Pc)
    requires WellFormed(s) && Alone(s, c, k) == t && c in t.callers && t.callers[c] == pc && !pc.Idle?
    ensures pc.hart < |t.harts|
    ensures var (d, pc') := StepOf(t.harts[pc.hart], pc);
            Alone(s, c, k + 1) == State(t.harts[pc.hart := d], t.callers[c := pc'])
  {
  }

  /** The same in terms of the state before the call, of which only caller c and hart h have changed. */
  lemma AloneAt(s: State, c: nat, h: nat, s1: State, k: nat, d: Hart, pc: Pc)
    requires WellFormed(s1) && h < |s.harts| && !pc.Idle? && pc.hart == h
    requires Alone(s1, c, k) == With(s, c, h, d, pc)
    ensures Alone(s1, c, k + 1) == With(s, c, h, StepOf(d, pc).0, StepOf(d, pc).1)
  {
    hide Alone, WellFormed, StepOf;
    AloneStep(s1, c, k, With(s, c, h, d, pc), pc);
  }

  /** s with hart h and caller c replaced. */
  function With(s: State, c: nat, h: nat, d: Hart, pc: Pc): State
    requires h < |s.harts|
  {
    State(s.harts[h := d], s.callers[c := pc])
  }

  /** A call that has returned takes no further steps. */
  lemma {:induction false} AloneIdle(s: State, c: nat, k: nat, n: nat)
    requires WellFormed(s) && k <= n && Free(Alone(s, c, k), c)
    ensures Alone(s, c, n) == Alone(s, c, k)
  {
    if k < n {
      AloneIdle(s, c, k, n - 1);
    }
  }

  lemma Called(s: State, c: nat, h: nat, pc: Pc)
    requires WellFormed(s) && Free(s, c) && h < |s.harts| && pc.InRange()
    ensures WellFormed(With(s, c, h, s.harts[h], pc))
    ensures Begin(s, c, h, pc) == With(s, c, h, s.harts[h], pc) == Alone(Begin(s, c, h, pc), c, 0)
  {
  }

  /** k steps of one caller on its hart, seen apart from the rest of the state. */
  function Turns(d: Hart, pc: Pc, k: nat): (Hart, Pc)
    decreases k
  {
    if k == 0 || pc.Idle? then (d, pc) else Turns(StepOf(d, pc).0, StepOf(d, pc).1, k - 1)
  }

  lemma {:induction false} AloneTurns(s: State, c: nat, h: nat, s1: State, i: nat, k: nat, d: Hart, pc: Pc)
    requires WellFormed(s1) && h < |s.harts| && (pc.Idle? || pc.hart == h)
    requires Alone(s1, c, i) == With(s, c, h, d, pc)
    ensures var (d', pc') := Turns(d, pc, k); Alone(s1, c, i + k) == With(s, c, h, d', pc')
    decreases k
  {
    hide Alone, WellFormed, StepOf;
    if pc.Idle? {
      AloneIdle(s1, c, i, i + k);
    } else if k > 0 {
      AloneAt(s, c, h, s1, i, d, pc);
      OwnHart(d, pc);
      AloneTurns(s, c, h, s1, i + 1, k - 1, StepOf(d, pc).0, StepOf(d, pc).1);
    }
  }

  /** A call on hart h, from its first step on. */
  lemma CallTurns(s: State, c: nat, h: nat, pc: Pc, k: nat)
    requires WellFormed(s) && Free(s, c) && pc.InRange() && !pc.Idle? && pc.hart == h
    ensures h < |s.harts|
    ensures var (d, pc') := Turns(s.harts[h], pc, k); Alone(Begin(s, c, h, pc), c, k) == With(s, c, h, d, pc')
  {
    hide Alone, StepOf;
    Called(s, c, h, pc);
    AloneTurns(s, c, h, Begin(s, c, h, pc), 0, k, s.harts[h], pc);
  }

  lemma Turn(d: Hart, pc: Pc, k: nat, d': Hart, pc': Pc)
    requires !pc.Idle? && StepOf(d, pc) == (d', pc')
    ensures Turns(d, pc, k + 1) == Turns(d', pc', k)
  {
    hide StepOf;
  }

  lemma NoTurn(d: Hart, result: bool, k: nat)
    ensures Turns(d, Idle(result), k) == (d, Idle(result))
  {
  }

  /** What the steps of hart_start come to. */
  lemma StartTurns(d: Hart, h: nat, p: Params)
    ensures Turns(d, TryStart(h, p), 8) ==
            if d.locked || d.status != Stopped then (d, Idle(false))
            else (Hart(false, Starting, p, true, d.accepted + [p], d.acknowledged + 1, d.launched), Idle(true))
  {
    hide Turns;
    if d.locked {
      Turn(d, TryStart(h, p), 7, d, Idle(false));
      NoTurn(d, false, 7);
    } else {
      var d1 := d.(locked := true);
      Turn(d, TryStart(h, p), 7, d1, CheckStopped(h, p));
      if d.status != Stopped {
        Turn(d1, CheckStopped(h, p), 6, d1, UnlockStart(h, false));
        Turn(d1, UnlockStart(h, false), 5, d, Idle(false));
        NoTurn(d, false, 5);
      } else {
        Turn(d1, CheckStopped(h, p), 6, d1, SetStarting(h, p));
        StoreTurns(d1, h, p);
      }
    }
  }

  /** The part of hart_start behind the test: four words are stored, */
  lemma StoreTurns(d: Hart, h: nat, p: Params)
    ensures Turns(d, SetStarting(h, p), 6) ==
            (Hart(false, Starting, p, true, d.accepted + [p], d.acknowledged + 1, d.launched), Idle(true))
  {
    hide Turns;
    var d2 := d.(status := Starting, accepted := d.accepted + [p]);
    var d3 := d2.(params := d.params.(target := p.target));
    var d4 := d2.(params := Params(p.target, p.scratch, d.params.satp));
    Turn(d, SetStarting(h, p), 5, d2, SetTarget(h, p));
    Turn(d2, SetTarget(h, p), 4, d3, SetScratch(h, p));
    Turn(d3, SetScratch(h, p), 3, d4, SetSatp(h, p));
    RaiseTurns(d4, h, p);
  }

  /** then the interrupt is raised. */
  lemma RaiseTurns(d: Hart, h: nat, p: Params)
    requires d.params.target == p.target && d.params.scratch == p.scratch
    ensures Turns(d, SetSatp(h, p), 3) ==
            (Hart(false, d.status, p, true, d.accepted, d.acknowledged + 1, d.launched), Idle(true))
  {
    hide Turns, StepOf;
    SatpStored(d, h, p);
    Turn(d, SetSatp(h, p), 2, d.(params := p), RaiseMsip(h, p));
    UnlockTurns(d.(params := p), h, p);
  }

  lemma SatpStored(d: Hart, h: nat, p: Params)
    requires d.params.target == p.target && d.params.scratch == p.scratch
    ensures StepOf(d, SetSatp(h, p)) == (d.(params := p), RaiseMsip(h, p))
  {
  }

  lemma UnlockTurns(d: Hart, h: nat, p: Params)
    ensures Turns(d, RaiseMsip(h, p), 2) ==
            (Hart(false, d.status, d.params, true, d.accepted, d.acknowledged + 1, d.launched), Idle(true))
  {
    hide Turns;
    var d6 := d.(msip := true);
    Turn(d, RaiseMsip(h, p), 1, d6, UnlockStart(h, true));
    UnlockTurn(d6, h);
  }

  lemma UnlockTurn(d: Hart, h: nat)
    ensures Turns(d, UnlockStart(h, true), 1) ==
            (Hart(false, d.status, d.params, d.msip, d.accepted, d.acknowledged + 1, d.launched), Idle(true))
  {
    var e := Hart(false, d.status, d.params, d.msip, d.accepted, d.acknowledged + 1, d.launched);
    Turn(d, UnlockStart(h, true), 0, e, Idle(true));
  }

  /** What the steps of hart_stop come to. */
  lemma StopTurns(d: Hart, h: nat)
    ensures Turns(d, TryStop(h), 4) ==
            if d.locked || d.status != Started then (d, Idle(false)) else (d.(status := Stopped), Idle(false))
  {
    hide Turns;
    if d.locked {
      Turn(d, TryStop(h), 3, d, Idle(false));
      NoTurn(d, false, 3);
    } else {
      var d1 := d.(locked := true);
      Turn(d, TryStop(h), 3, d1, CheckStarted(h));
      if d.status != Started {
        Turn(d1, CheckStarted(h), 2, d1, UnlockStop(h));
        Turn(d1, UnlockStop(h), 1, d, Idle(false));
        NoTurn(d, false, 1);
      } else {
        var d2, d3 := d1.(status := Stopped), d.(status := Stopped);
        Turn(d1, CheckStarted(h), 2, d1, SetStopped(h));
        Turn(d1, SetStopped(h), 1, d2, UnlockStop(h));
        Turn(d2, UnlockStop(h), 0, d3, Idle(false));
        NoTurn(d3, false, 0);
      }
    }
  }

  /** What the steps of hart_handle_msip come to, once it has the lock. */
  lemma HandlerTurns(d: Hart, h: nat)
    requires !d.locked
    ensures Turns(d, Spin(h), 8) ==
            (if d.status == Starting then d.(status := Started, msip := false, launched := d.launched + [d.params])
             else d.(msip := false),
             Idle(true))
  {
    hide Turns;
    var d1 := d.(locked := true);
    var d2 := d1.(msip := false);
    Turn(d, Spin(h), 7, d1, ClearMsip(h));
    Turn(d1, ClearMsip(h), 6, d2, CheckStarting(h));
    if d.status != Starting {
      var d3 := d.(msip := false);
      Turn(d2, CheckStarting(h), 5, d2, UnlockMsip(h));
      Turn(d2, UnlockMsip(h), 4, d3, Idle(true));
      NoTurn(d3, true, 4);
    } else {
      Turn(d2, CheckStarting(h), 5, d2, LoadTarget(h));
      LaunchTurns(d2, h);
    }
  }

  /** The part of hart_handle_msip behind the test: three words are loaded, */
  lemma LaunchTurns(d: Hart, h: nat)
    ensures Turns(d, LoadTarget(h), 5)
            == (d.(locked := false, status := Started, launched := d.launched + [d.params]), Idle(true))
  {
    hide Turns;
    var e := d.params;
    Turn(d, LoadTarget(h), 4, d, LoadScratch(h, e.target));
    Turn(d, LoadScratch(h, e.target), 3, d, LoadSatp(h, e.target, e.scratch));
    Turn(d, LoadSatp(h, e.target, e.scratch), 2, d, SetStarted(h, e));
    SetTurns(d, h);
  }

  /** then the hart is started. */
  lemma SetTurns(d: Hart, h: nat)
    ensures Turns(d, SetStarted(h, d.params), 2)
            == (d.(locked := false, status := Started, launched := d.launched + [d.params]), Idle(true))
  {
    hide Turns;
    var d2 := d.(status := Started, launched := d.launched + [d.params]);
    var d3 := d2.(locked := false);
    Turn(d, SetStarted(h, d.params), 1, d2, UnlockMsip(h));
    Turn(d2, UnlockMsip(h), 0, d3, Idle(true));
    NoTurn(d3, true, 0);
  }

  /**
    hart_start, called when no one else moves: it returns true if and only if hart h exists, its
    lock is free and it is stopped.  Then the hart is starting with the parameters given and its
    interrupt pending; in any other case no hart has changed.
   */
  lemma StartAlone(s: State, h: nat, c: nat, p: Params)
    requires WellFormed(s) && Free(s, c)
    ensures var s' := Alone(Step(s, CallStart(c, h, p)), c, 8);
            var ok := h < 8 && !s.harts[h].locked && s.harts[h].status == Stopped;
            && s'.callers == s.callers[c := Idle(ok)]
            && (!ok ==> s'.harts == s.harts)
            && (ok ==>
                  var d := s.harts[h];
                  s'.harts == s.harts[h := Hart(false, Starting, p, true,
                                                d.accepted + [p], d.acknowledged + 1, d.launched)])
  {
    hide WellFormed, Alone, Turns, StepOf;
    HartCount(s);
    if h >= 8 {
      Refused(s, c, h, TryStart(h, p), 8);
    } else {
      CallTurns(s, c, h, TryStart(h, p), 8);
      StartTurns(s.harts[h], h, p);
    }
  }

  /** There are eight harts; a call on any other one returns at once. */
  lemma Refused(s: State, c: nat, h: nat, pc: Pc, k: nat)
    requires WellFormed(s) && Free(s, c) && h >= 8
    ensures WellFormed(Begin(s, c, h, pc))
    ensures Alone(Begin(s, c, h, pc), c, k) == s.(callers := s.callers[c := Idle(false)])
  {
    AloneIdle(Begin(s, c, h, pc), c, 0, k);
  }

  /** hart_stop, called when no one else moves: a started hart whose lock is free is stopped, no other one changes. */
  lemma StopAlone(s: State, h: nat, c: nat)
    requires WellFormed(s) && Free(s, c)
    ensures var s' := Alone(Step(s, CallStop(c, h)), c, 4);
            var ok := h < 8 && !s.harts[h].locked && s.harts[h].status == Started;
            && s'.callers == s.callers[c := Idle(false)]
            && s'.harts == if ok then s.harts[h := s.harts[h].(status := Stopped)] else s.harts
  {
    hide WellFormed, Alone, Turns, StepOf;
    HartCount(s);
    if h >= 8 {
      Refused(s, c, h, TryStop(h), 4);
    } else {
      CallTurns(s, c, h, TryStop(h), 4);
      StopTurns(s.harts[h], h);
    }
  }

  /**
    hart_handle_msip, when no one else moves and the lock is free: it clears the interrupt, and
    launches the hart with its parameters if and only if it is starting.
   */
  lemma HandlerAlone(s: State, h: nat, c: nat)
    requires WellFormed(s) && Free(s, c) && h < |s.harts| && !s.harts[h].locked
    ensures var s' := Alone(Step(s, TakeMsip(c, h)), c, 8);
            var d := s.harts[h];
            && s'.callers == s.callers[c := Idle(true)]
            && s'.harts == s.harts[h :=
                 if d.status == Starting then d.(status := Started, msip := false, launched := d.launched + [d.params])
                 else d.(msip := false)]
  {
    hide WellFormed, Alone, Turns, StepOf;
    HartCount(s);
    CallTurns(s, c, h, Spin(h), 8);
    HandlerTurns(s.harts[h], h);
  }

  lemma HartCount(s: State)
    requires WellFormed(s)
    ensures |s.harts| == MAX_ALLOWABLE_HARTS == 8
  {
  }

  lemma QuietWhenFree(s: State, h: nat)
    requires Inv(s) && h < |s.harts| && !s.harts[h].locked
    ensures WellFormed(s) && |s.harts| == MAX_ALLOWABLE_HARTS && Quiet(s.harts[h])
  {
    assert HartOk(s, h);
  }

  /** The interrupt of a pending start launches the hart with the parameters of the start last accepted. */
  lemma PendingStartLaunches(s: State, h: nat, c: nat)
    requires Inv(s) && h < |s.harts| && Free(s, c)
    requires !s.harts[h].locked && s.harts[h].status == Starting
    ensures var d := s.harts[h];
            var d' := Alone(Step(s, TakeMsip(c, h)), c, 8).harts[h];
            && d'.status == Started && !d'.locked && d'.accepted == d.accepted == d'.launched
            && d'.launched == d.launched + [d.params]
  {
    QuietWhenFree(s, h);
    HandlerAlone(s, h, c);
  }
}
