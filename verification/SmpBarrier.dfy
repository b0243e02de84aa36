/** The barrier smp_wait of includes/smp.h, as N harts whose atomic accesses to the shared counter
    interleave in any order, over any number of rounds; and what main publishes through it. */
module SmpBarrier {
  import opened Options

  /** Where a hart is.  Waiting is the loop after atomic_inc, Released the point between the two
      loops, Leaving the loop after atomic_dec. */
  datatype Pc = Outside | Waiting | Released | Leaving

  /** How often the hart has executed atomic_inc, and how often it has returned. */
  datatype Hart = Hart(pc: Pc, entered: nat, left: nat)

  /** The two statics main hands over. */
  datatype Boot = Boot(opensbiFunc: nat, newFdt: nat)

  datatype State = State(count: int, harts: seq<Hart>, boot: Option<Boot>)

  ghost predicate Init(s: State) {
    && |s.harts| > 0 && s.count == 0 && s.boot == None
    && forall h :: 0 <= h < |s.harts| ==> s.harts[h] == Hart(Outside, 0, 0)
  }

  // ---- the atomic steps --------------------------------------------------------------------

  /** Hart 0 stores opensbi_func and new_fdt before its first smp_wait. */
  ghost predicate Publish(s: State, s': State) {
    && |s.harts| > 0 && s.harts[0].pc == Outside && s.harts[0].entered == 0
    && s.boot == None && s'.boot.Some?
    && s' == s.(boot := s'.boot)
  }

  /** atomic_inc */
  ghost predicate Enter(s: State, s': State, h: nat) {
    && h < |s.harts| && s.harts[h].pc == Outside
    && (h == 0 && s.harts[0].entered == 0 ==> s.boot.Some?)
    && s' == s.(count := s.count + 1,
                harts := s.harts[h := Hart(Waiting, s.harts[h].entered + 1, s.harts[h].left)])
  }

  /** The read that ends the first loop. */
  ghost predicate Pass(s: State, s': State, h: nat) {
    && h < |s.harts| && s.harts[h].pc == Waiting
    && !(s.count < |s.harts|)
    && s' == s.(harts := s.harts[h := s.harts[h].(pc := Released)])
  }

  /** atomic_dec */
  ghost predicate Decrement(s: State, s': State, h: nat) {
    && h < |s.harts| && s.harts[h].pc == Released
    && s' == s.(count := s.count - 1, harts := s.harts[h := s.harts[h].(pc := Leaving)])
  }

  /** The read that ends the second loop. */
  ghost predicate Exit(s: State, s': State, h: nat) {
    && h < |s.harts| && s.harts[h].pc == Leaving
    && !(s.count > 0)
    && s' == s.(harts := s.harts[h := Hart(Outside, s.harts[h].entered, s.harts[h].left + 1)])
  }

  /** A read that keeps a hart in its loop. */
  ghost predicate Spin(s: State, s': State, h: nat) {
    && h < |s.harts| && s' == s
    && ((s.harts[h].pc == Waiting && s.count < |s.harts|) || (s.harts[h].pc == Leaving && s.count > 0))
  }

  /** The steps of a hart that is inside the barrier. */
  ghost predicate InsideStep(s: State, s': State, h: nat) {
    Pass(s, s', h) || Decrement(s, s', h) || Exit(s, s', h)
  }

  ghost predicate HartStep(s: State, s': State, h: nat) {
    Enter(s, s', h) || InsideStep(s, s', h) || Spin(s, s', h)
  }

  ghost predicate Step(s: State, s': State) {
    Publish(s, s') || exists h: nat :: HartStep(s, s', h)
  }

  /** s' is reached from s in n steps. */
  ghost predicate Reach(s: State, s': State, n: nat)
    decreases n
  {
    if n == 0 then s == s' else exists m :: Step(s, m) && Reach(m, s', n - 1)
  }

  ghost predicate Reachable(s: State) {
    exists s0, n: nat :: Init(s0) && Reach(s0, s, n)
  }

  // ---- the invariant -----------------------------------------------------------------------

  predicate Counted(h: Hart) {
    h.pc == Waiting || h.pc == Released
  }

  /** The number of harts between increment and decrement. */
  function Inside(hs: seq<Hart>): nat {
    if hs == [] then 0 else (if Counted(hs[0]) then 1 else 0) + Inside(hs[1..])
  }

  ghost predicate BooksKept(h: Hart) {
    h.entered == h.left + if h.pc == Outside then 0 else 1
  }

  /** Round r + 1 is filling up: no hart has seen it full. */
  ghost predicate Gathering(s: State, r: nat) {
    forall h :: 0 <= h < |s.harts| ==>
      BooksKept(s.harts[h]) &&
      match s.harts[h].pc
      case Waiting => s.harts[h].entered == r + 1
      case Released => false
      case Outside => s.harts[h].entered == r
      case Leaving => s.harts[h].entered == r
  }

  /** Round r + 1 was full: all harts are in it, none has left it. */
  ghost predicate Draining(s: State, r: nat) {
    forall h :: 0 <= h < |s.harts| ==>
      BooksKept(s.harts[h]) && s.harts[h].pc != Outside && s.harts[h].entered == r + 1
  }

  ghost predicate Inv(s: State) {
    && |s.harts| > 0
    && s.count == Inside(s.harts)
    && (exists r: nat :: Gathering(s, r) || Draining(s, r))
    && (s.harts[0].entered > 0 ==> s.boot.Some?)
  }

  lemma {:induction false} InsideSet(hs: seq<Hart>, h: nat, x: Hart)
    requires h < |hs|
    ensures Inside(hs[h := x]) == Inside(hs) - (if Counted(hs[h]) then 1 else 0) + (if Counted(x) then 1 else 0)
    decreases |hs|
  {
    if h > 0 {
      InsideSet(hs[1..], h - 1, x);
      assert hs[h := x][1..] == hs[1..][h - 1 := x];
    } else {
      assert hs[h := x][1..] == hs[1..];
    }
  }

  /** The count is full only if every hart is inside, and zero only if none is. */
  lemma {:induction false} InsideBounds(hs: seq<Hart>)
    ensures Inside(hs) <= |hs|
    ensures Inside(hs) == |hs| <==> forall h :: 0 <= h < |hs| ==> Counted(hs[h])
    ensures Inside(hs) == 0 <==> forall h :: 0 <= h < |hs| ==> !Counted(hs[h])
    decreases |hs|
  {
    if hs != [] {
      InsideBounds(hs[1..]);
      assert hs == [hs[0]] + hs[1..];
    }
  }

  lemma {:induction false} InitInv(s: State)
    requires Init(s)
    ensures Inv(s)
  {
    InsideBounds(s.harts);
    assert Gathering(s, 0);
  }

  lemma {:induction false} EnterKeeps(s: State, s': State, h: nat, r: nat)
    requires Inv(s) && Enter(s, s', h)
    requires Gathering(s, r) || Draining(s, r)
    ensures Gathering(s', r)
  {
  }

  /** The first hart to see the count full turns gathering into draining. */
  lemma {:induction false} PassKeeps(s: State, s': State, h: nat, r: nat)
    requires Inv(s) && Pass(s, s', h)
    requires Gathering(s, r) || Draining(s, r)
    ensures Draining(s', r)
  {
    InsideBounds(s.harts);
  }

  lemma {:induction false} DecrementKeeps(s: State, s': State, h: nat, r: nat)
    requires Inv(s) && Decrement(s, s', h)
    requires Gathering(s, r) || Draining(s, r)
    ensures Draining(s', r)
  {
  }

  /** The first hart to leave a round opens the next one. */
  lemma {:induction false} ExitKeeps(s: State, s': State, h: nat, r: nat)
    requires Inv(s) && Exit(s, s', h)
    requires Gathering(s, r) || Draining(s, r)
    ensures Gathering(s, r) ==> Gathering(s', r)
    ensures Draining(s, r) ==> Gathering(s', r + 1)
  {
    InsideBounds(s.harts);
  }

  lemma {:induction false} HartStepInv(s: State, s': State, h: nat)
    requires Inv(s) && HartStep(s, s', h)
    ensures Inv(s')
  {
    var r: nat :| Gathering(s, r) || Draining(s, r);
    InsideSet(s.harts, h, s'.harts[h]);
    if Enter(s, s', h) {
      EnterKeeps(s, s', h, r);
    } else if Pass(s, s', h) {
      PassKeeps(s, s', h, r);
    } else if Decrement(s, s', h) {
      DecrementKeeps(s, s', h, r);
    } else if Exit(s, s', h) {
      ExitKeeps(s, s', h, r);
    }
  }

  /** Every step keeps the invariant. */
  lemma {:induction false} StepInv(s: State, s': State)
    requires Inv(s) && Step(s, s')
    ensures Inv(s')
  {
    if Publish(s, s') {
      var r: nat :| Gathering(s, r) || Draining(s, r);
      assert Gathering(s', r) || Draining(s', r);
    } else {
      var h: nat :| HartStep(s, s', h);
      HartStepInv(s, s', h);
    }
  }

  lemma {:induction false} ReachInv(s: State, s': State, n: nat)
    requires Inv(s) && Reach(s, s', n)
    ensures Inv(s')
    decreases n
  {
    hide Step;
    if n > 0 {
      var m :| Step(s, m) && Reach(m, s', n - 1);
      StepInv(s, m);
      ReachInv(m, s', n - 1);
    }
  }

  // ---- safety ------------------------------------------------------------------------------

  /** In every reachable state, whatever the interleaving and however many rounds have passed:
      no hart has left a round that some hart has not entered; the harts' rounds differ by at
      most one; the counter is the number of harts between increment and decrement. */
  lemma {:induction false} BarrierSafe(s: State)
    requires Reachable(s)
    ensures forall g, h :: 0 <= g < |s.harts| && 0 <= h < |s.harts| ==>
              && s.harts[g].left <= s.harts[h].entered
              && s.harts[g].entered <= s.harts[h].entered + 1
              && s.harts[g].left <= s.harts[h].left + 1
    ensures s.count == Inside(s.harts)
  {
    var s0, n: nat :| Init(s0) && Reach(s0, s, n);
    InitInv(s0);
    ReachInv(s0, s, n);
    var r: nat :| Gathering(s, r) || Draining(s, r);
  }

  /** A hart that has passed the barrier once finds what hart 0 published, in every later state. */
  lemma {:induction false} PublishedSeen(s: State, s': State, n: nat, h: nat)
    requires Reachable(s) && Reach(s, s', n)
    requires h < |s.harts| && s.harts[h].left > 0
    ensures s.boot.Some? && s'.boot == s.boot
  {
    BarrierSafe(s);
    var s0, k: nat :| Init(s0) && Reach(s0, s, k);
    InitInv(s0);
    ReachInv(s0, s, k);
    BootKept(s, s', n);
  }

  lemma {:induction false} BootStep(s: State, s': State)
    requires s.boot.Some? && Step(s, s')
    ensures s'.boot == s.boot
  {
  }

  lemma {:induction false} BootKept(s: State, s': State, n: nat)
    requires s.boot.Some? && Reach(s, s', n)
    ensures s'.boot == s.boot
    decreases n
  {
    hide Step;
    if n > 0 {
      var m :| Step(s, m) && Reach(m, s', n - 1);
      BootStep(s, m);
      BootKept(m, s', n - 1);
    }
  }

  // ---- when the barrier can still be passed --------------------------------------------------

  /** Some hart waits for the count to be full and some hart waits for it to be zero. */
  ghost predicate Stuck(s: State) {
    exists a, b :: 0 <= a < |s.harts| && 0 <= b < |s.harts| && s.harts[a].pc == Waiting && s.harts[b].pc == Leaving
  }

  ghost predicate AllOut(s: State) {
    forall h :: 0 <= h < |s.harts| ==> s.harts[h].pc == Outside
  }

  lemma {:induction false} StuckHartStep(s: State, s': State, h: nat, a: nat, b: nat)
    requires Inv(s) && HartStep(s, s', h)
    requires a < |s.harts| && b < |s.harts| && s.harts[a].pc == Waiting && s.harts[b].pc == Leaving
    ensures s'.harts[a].pc == Waiting && s'.harts[b].pc == Leaving && |s'.harts| == |s.harts|
    ensures forall g :: 0 <= g < |s.harts| ==> s'.harts[g].left == s.harts[g].left
  {
    InsideBounds(s.harts);
    assert Counted(s.harts[a]) && !Counted(s.harts[b]);
  }

  /** Once stuck, the counter is neither full nor zero, and every step leaves it that way: nobody
      passes the first loop and nobody returns, ever again. */
  lemma {:induction false} StuckForever(s: State, s': State)
    requires Inv(s) && Stuck(s) && Step(s, s')
    ensures 0 < s.count < |s.harts|
    ensures Stuck(s') && |s'.harts| == |s.harts|
    ensures forall h :: 0 <= h < |s.harts| ==> s'.harts[h].left == s.harts[h].left
  {
    hide Gathering, Draining;
    InsideBounds(s.harts);
    var a: nat, b: nat :| a < |s.harts| && b < |s.harts| && s.harts[a].pc == Waiting && s.harts[b].pc == Leaving;
    assert Counted(s.harts[a]) && !Counted(s.harts[b]);
    if !Publish(s, s') {
      var h: nat :| HartStep(s, s', h);
      hide HartStep;
      StuckHartStep(s, s', h, a, b);
    }
    assert s'.harts[a].pc == Waiting && s'.harts[b].pc == Leaving;
  }

  lemma {:induction false} StuckStays(s: State, s': State, n: nat)
    requires Inv(s) && Stuck(s) && Reach(s, s', n)
    ensures Stuck(s') && !AllOut(s') && |s'.harts| == |s.harts|
    ensures forall h :: 0 <= h < |s.harts| ==> s'.harts[h].left == s.harts[h].left
    decreases n
  {
    hide Step;
    if n > 0 {
      var m :| Step(s, m) && Reach(m, s', n - 1);
      StepInv(s, m);
      StuckForever(s, m);
      StuckStays(m, s', n - 1);
    }
  }

  // A measure for one round: how many steps the harts have left to take.

  function Weight(h: Hart, filling: bool): nat {
    match h.pc
    case Outside => if filling then 4 else 0
    case Waiting => 3
    case Released => 2
    case Leaving => 1
  }

  function Weights(hs: seq<Hart>, filling: bool): nat {
    if hs == [] then 0 else Weight(hs[0], filling) + Weights(hs[1..], filling)
  }

  predicate Filling(hs: seq<Hart>) {
    exists h :: 0 <= h < |hs| && hs[h].pc == Waiting
  }

  /** Steps left until all harts are outside, provided nothing gets stuck. */
  function Measure(s: State): nat {
    Weights(s.harts, Filling(s.harts)) + if s.boot == None then 1 else 0
  }

  lemma {:induction false} WeightsSet(hs: seq<Hart>, h: nat, x: Hart, filling: bool)
    requires h < |hs|
    ensures Weights(hs[h := x], filling) == Weights(hs, filling) - Weight(hs[h], filling) + Weight(x, filling)
    decreases |hs|
  {
    if h > 0 {
      WeightsSet(hs[1..], h - 1, x, filling);
      assert hs[h := x][1..] == hs[1..][h - 1 := x];
    } else {
      assert hs[h := x][1..] == hs[1..];
    }
  }

  lemma {:induction false} WeightsInside(hs: seq<Hart>)
    requires forall h :: 0 <= h < |hs| ==> hs[h].pc != Outside
    ensures Weights(hs, true) == Weights(hs, false)
    decreases |hs|
  {
    if hs != [] {
      WeightsInside(hs[1..]);
    }
  }

  /** While no hart waits in the first loop, every step of a hart inside the barrier brings the
      round closer to its end, in any order, and no hart can start to wait but by entering. */
  lemma {:induction false} DrainStep(s: State, s': State, h: nat)
    requires Inv(s) && !Filling(s.harts) && InsideStep(s, s', h)
    ensures !Filling(s'.harts) && Inv(s')
    ensures Measure(s') < Measure(s)
  {
    WeightsSet(s.harts, h, s'.harts[h], false);
    assert HartStep(s, s', h);
    StepInv(s, s');
  }

  /** ... and as long as some hart is inside, some such step is possible. */
  lemma {:induction false} DrainEnabled(s: State) returns (s': State, h: nat)
    requires Inv(s) && !Filling(s.harts) && !AllOut(s)
    ensures InsideStep(s, s', h)
  {
    InsideBounds(s.harts);
    if b :| 0 <= b < |s.harts| && s.harts[b].pc == Released {
      h := b;
      s' := s.(count := s.count - 1, harts := s.harts[h := s.harts[h].(pc := Leaving)]);
    } else {
      h :| 0 <= h < |s.harts| && s.harts[h].pc != Outside;
      s' := s.(harts := s.harts[h := Hart(Outside, s.harts[h].entered, s.harts[h].left + 1)]);
    }
  }

  /** s' is reached from s in n steps of harts inside the barrier. */
  ghost predicate InsideRun(s: State, s': State, n: nat)
    decreases n
  {
    if n == 0 then s == s' else exists m, h: nat :: InsideStep(s, m, h) && InsideRun(m, s', n - 1)
  }

  ghost predicate NoInsideStep(s: State) {
    forall s', h: nat :: !InsideStep(s, s', h)
  }

  /** Progress in every run: once all harts of a round have passed the first loop, and as long as none
      starts another round, whatever order they run in, they take at most Measure(s) steps, and when
      no step is left the count is zero and every hart is out. */
  lemma {:induction false} DrainEnds(s: State, s': State, n: nat)
    requires Inv(s) && !Filling(s.harts) && InsideRun(s, s', n)
    ensures n + Measure(s') <= Measure(s) && Inv(s') && !Filling(s'.harts)
    ensures NoInsideStep(s') <==> AllOut(s')
    ensures AllOut(s') ==> s'.count == 0
    decreases n
  {
    hide Inv, Measure, Filling, InsideStep;
    if n > 0 {
      var m, h: nat :| InsideStep(s, m, h) && InsideRun(m, s', n - 1);
      DrainStep(s, m, h);
      DrainEnds(m, s', n - 1);
    } else {
      Drained(s);
    }
  }

  lemma {:induction false} Drained(s: State)
    requires Inv(s) && !Filling(s.harts)
    ensures NoInsideStep(s) <==> AllOut(s)
    ensures AllOut(s) ==> s.count == 0
  {
    InsideBounds(s.harts);
    if !AllOut(s) {
      var s', h := DrainEnabled(s);
    }
  }

  /** A hart outside enters while others wait. */
  lemma {:induction false} FillStep(s: State, o: nat) returns (s': State)
    requires Inv(s) && Filling(s.harts) && !Stuck(s)
    requires o < |s.harts| && s.harts[o].pc == Outside
    ensures Step(s, s') && !Stuck(s') && Measure(s') < Measure(s)
  {
    if o == 0 && s.harts[0].entered == 0 && s.boot == None {
      s' := s.(boot := Some(Boot(0, 0)));
      assert Publish(s, s');
    } else {
      s' := s.(count := s.count + 1, harts := s.harts[o := Hart(Waiting, s.harts[o].entered + 1, s.harts[o].left)]);
      assert HartStep(s, s', o);
      assert s'.harts[o].pc == Waiting;
      WeightsSet(s.harts, o, s'.harts[o], true);
    }
  }

  /** When all harts are in, one that waits can pass. */
  lemma {:induction false} FullStep(s: State, a: nat) returns (s': State)
    requires Inv(s) && !Stuck(s)
    requires a < |s.harts| && s.harts[a].pc == Waiting
    requires forall h :: 0 <= h < |s.harts| ==> s.harts[h].pc != Outside
    ensures Step(s, s') && !Stuck(s') && Measure(s') < Measure(s)
  {
    InsideBounds(s.harts);
    assert forall h :: 0 <= h < |s.harts| ==> s.harts[h].pc != Leaving;
    s' := s.(harts := s.harts[a := s.harts[a].(pc := Released)]);
    assert HartStep(s, s', a);
    WeightsSet(s.harts, a, s'.harts[a], true);
    WeightsInside(s'.harts);
  }

  /** A state that is not stuck can get all harts out. */
  lemma {:induction false} CanFinish(s: State) returns (s': State, n: nat)
    requires Inv(s) && !Stuck(s)
    ensures Reach(s, s', n) && AllOut(s')
    decreases Measure(s)
  {
    hide Inv, Measure;
    if AllOut(s) {
      return s, 0;
    }
    var m: State;
    if a :| 0 <= a < |s.harts| && s.harts[a].pc == Waiting {
      if o :| 0 <= o < |s.harts| && s.harts[o].pc == Outside {
        m := FillStep(s, o);
      } else {
        m := FullStep(s, a);
      }
    } else {
      var h;
      m, h := DrainEnabled(s);
      DrainStep(s, m, h);
      assert HartStep(s, m, h);
    }
    hide Step;
    StepInv(s, m);
    s', n := CanFinish(m);
    n := n + 1;
  }

  /** Exactly when the barrier can still be passed: from a reachable state some run gets every
      hart out of it if and only if no hart waits in the first loop while another one waits in
      the second. */
  lemma {:induction false} ProgressExactly(s: State)
    requires Reachable(s)
    ensures (exists s', n: nat :: Reach(s, s', n) && AllOut(s')) <==> !Stuck(s)
  {
    var s0, k: nat :| Init(s0) && Reach(s0, s, k);
    InitInv(s0);
    ReachInv(s0, s, k);
    if Stuck(s) {
      forall s', n: nat | Reach(s, s', n) ensures !AllOut(s') {
        StuckStays(s, s', n);
      }
    } else {
      var s', n := CanFinish(s);
      assert Reach(s, s', n) && AllOut(s');
    }
  }

  // ---- when the barrier can get stuck --------------------------------------------------------

  lemma {:induction false} ReachMore(s: State, m: State, s': State, n: nat)
    requires Reach(s, m, n) && Step(m, s')
    ensures Reach(s, s', n + 1)
    decreases n
  {
    hide Step;
    if n > 0 {
      var x :| Step(s, x) && Reach(x, m, n - 1);
      ReachMore(x, m, s', n - 1);
    } else {
      assert Step(s, s') && Reach(s', s', 0);
    }
  }

  /** n harts of which the first k wait in the first loop of round 1. */
  function Filled(n: nat, k: nat): State {
    State(k, seq(n, i => if i < k then Hart(Waiting, 1, 0) else Hart(Outside, 0, 0)), Some(Boot(0, 0)))
  }

  lemma {:induction false} FilledReached(n: nat, k: nat)
    requires 0 < n && k <= n
    ensures Reach(Filled(n, 0).(boot := None), Filled(n, k), k + 1)
  {
    var s0 := Filled(n, 0).(boot := None);
    if k == 0 {
      assert Publish(s0, Filled(n, 0));
      assert Reach(s0, s0, 0);
      ReachMore(s0, s0, Filled(n, 0), 0);
    } else {
      FilledReached(n, k - 1);
      var s, s' := Filled(n, k - 1), Filled(n, k);
      assert s'.harts == s.harts[k - 1 := Hart(Waiting, 1, 0)];
      assert HartStep(s, s', k - 1);
      ReachMore(s0, s, s', k);
    }
  }

  /** Two harts are enough: one passes the full count and decrements it before another one has
      read it.  A single hart never gets stuck. */
  lemma {:induction false} StuckReachable(n: nat)
    requires n > 0
    ensures (exists s :: Reachable(s) && |s.harts| == n && Stuck(s)) <==> n >= 2
  {
    if n >= 2 {
      FilledReached(n, n);
      var s0, s := Filled(n, 0).(boot := None), Filled(n, n);
      var s1 := s.(harts := s.harts[0 := Hart(Released, 1, 0)]);
      assert HartStep(s, s1, 0);
      ReachMore(s0, s, s1, n + 1);
      var s2 := s1.(count := n - 1, harts := s1.harts[0 := Hart(Leaving, 1, 0)]);
      assert HartStep(s1, s2, 0);
      ReachMore(s0, s1, s2, n + 2);
      assert Init(s0) && Reach(s0, s2, n + 3);
      assert s2.harts[1].pc == Waiting && s2.harts[0].pc == Leaving;
      assert Reachable(s2) && |s2.harts| == n && Stuck(s2);
    }
  }
}
