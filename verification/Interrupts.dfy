/** The interrupt-level protocol: KeRaiseIrql and KeLowerIrql, the Grand Central dispatcher, the
    decrementer handler and the two calls that connect and disconnect a source.

    A 32-bit interrupt mask is the set of its one bits.  The model starts where
    HalpInitializeInterrupts starts, so the I/O window is mapped and HalpSetGcMask always writes. */
module Interrupts {
  import opened Words

  type Irql = n: int | 0 <= n < 32
  type Line = n: int | 0 <= n < 32

  const CLOCK2_LEVEL: Irql := 28
  const HIGH_LEVEL: Irql := 31
  const DEVICE_VECTORS := 32
  const LOWEST_DEVICE_LEVEL := 12
  const HIGHEST_DEVICE_LEVEL := 27

  /** HalpInterruptToIrql. */
  const LINE_LEVELS: seq<Irql> := [
    12, 12, 13, 13, 14, 14, 15, 15, 16, 16, 17, 17, 18, 18, 19, 19,
    20, 20, 21, 21, 22, 23, 24, 25, 25, 25, 24, 25, 25, 25, 26, 27]

  function LevelOf(line: Line): (level: Irql)
    ensures LOWEST_DEVICE_LEVEL <= level <= HIGHEST_DEVICE_LEVEL
  {
    LINE_LEVELS[line]
  }

  /** The sources an IRQL leaves open. */
  function Above(irql: Irql): set<Line> {
    set b: Line | 0 <= b < 32 && LevelOf(b) > irql
  }

  // ---- the protocol as a state machine ------------------------------------------------------

  /** One interrupt in progress, and the level it interrupted (a handler's local oldIrql).  `seen` is
      the register the dispatcher has loaded the registered sources into, while it is stopping one. */
  datatype Frame = Device(line: Line, interrupted: Irql, seen: Option<set<Line>>) | Clock(interrupted: Irql)
  {
    function Level(): Irql { if Device? then LevelOf(line) else CLOCK2_LEVEL }
  }

  datatype State = State(irql: Irql, ee: bool, mask: set<Line>, registered: set<Line>, frames: seq<Frame>)
  {
    /** A handler gives back every level it raised, and goes no lower than where it started. */
    function Floor(): Irql { if frames == [] then 0 else Top().Level() }

    function Top(): Frame
      requires frames != []
    {
      frames[|frames| - 1]
    }
  }

  datatype Action =
    | Raise(to: Irql)
    | Lower(to: Irql)
    | Enable(vector: nat)
    | Disable(vector: nat)
    | External(events: set<Line>, line: Line)
    | Decrementer
    | UnwantedLoad
    | UnwantedStore
    | Return

  function SetLevel(s: State, to: Irql): State {
    s.(irql := to, mask := Above(to) * s.registered, ee := to < CLOCK2_LEVEL)
  }

  function RaiseTo(s: State, to: Irql): Option<State> {
    if to == s.irql then Some(s)
    else if to < s.irql then None               // bugcheck
    else Some(SetLevel(s, to))
  }

  function LowerTo(s: State, to: Irql): Option<State> {
    if to == s.irql then Some(s)
    else if to > s.irql then None               // bugcheck
    else Some(SetLevel(s, to))
  }

  /** The critical section both HalEnableSystemInterrupt and HalDisableSystemInterrupt run at
      HIGH_LEVEL. */
  function Reregister(s: State, registered: set<Line>): Option<State> {
    var high := RaiseTo(s, HIGH_LEVEL);
    if high.None? then None
    else LowerTo(high.value.(registered := registered, mask := Above(s.irql) * registered), s.irql)
  }

  predicate IsDeviceVector(vector: nat) { DEVICE_VECTORS <= vector < DEVICE_VECTORS + 32 }

  /** The dispatcher's choice among the pending sources: the highest IRQL; between sources of the
      same IRQL the highest-numbered pending source wins if it is one of them, otherwise the
      lowest-numbered. */
  ghost predicate IsPick(pending: set<Line>, line: Line) {
    && line in pending
    && (forall c :: c in pending ==> LevelOf(c) <= LevelOf(line))
    && ((forall c :: c in pending ==> c <= line)
        || ((forall c :: c in pending && LevelOf(c) == LevelOf(line) ==> line <= c)
            && exists c :: c in pending && c > line && LevelOf(c) < LevelOf(line)
                           && forall d :: d in pending ==> d <= c))
  }

  /** The level the dispatcher runs a source at, with its "should not happen" clamp. */
  function DispatchLevel(irql: Irql, line: Line): Irql {
    if LevelOf(line) <= irql then irql else LevelOf(line)
  }

  function WithTop(s: State, top: Frame): State
    requires s.frames != []
  {
    s.(frames := s.frames[..|s.frames| - 1] + [top])
  }

  ghost function Step(s: State, a: Action): Option<State> {
    match a
    case Raise(to) => RaiseTo(s, to)
    case Lower(to) => if to < s.Floor() then None else LowerTo(s, to)
    case Enable(vector) =>
      if IsDeviceVector(vector) then Reregister(s, s.registered + {vector - DEVICE_VECTORS}) else Some(s)
    case Disable(vector) =>
      if IsDeviceVector(vector) then Reregister(s, s.registered - {vector - DEVICE_VECTORS}) else Some(s)
    case External(events, line) =>
      if !s.ee then None
      else if events * s.mask == {} then Some(s)          // spurious
      else if !IsPick(events * s.mask, line) then None
      else
        var level := DispatchLevel(s.irql, line);
        Some(State(level, true, Above(level) * s.registered - {line}, s.registered,
                   s.frames + [Device(line, s.irql, None)]))
    case Decrementer =>
      if !s.ee then None
      else Some(State(CLOCK2_LEVEL, false, Above(CLOCK2_LEVEL) * s.registered, s.registered,
                      s.frames + [Clock(s.irql)]))
    case UnwantedLoad =>
      if s.frames == [] || s.Top().Clock? then None
      else Some(WithTop(s, s.Top().(seen := Some(s.registered))))
    case UnwantedStore =>
      if s.frames == [] || s.Top().Clock? || s.Top().seen.None? then None
      else Some(WithTop(s, s.Top().(seen := None)).(registered := s.Top().seen.value - {s.Top().line}))
    case Return =>
      if s.frames == [] then None
      else
        var back := s.Top().interrupted;
        Some(State(back, true, Above(back) * s.registered, s.registered, s.frames[..|s.frames| - 1]))
  }

  ghost function Run(s: State, acts: seq<Action>): Option<State>
    decreases |acts|
  {
    if acts == [] then Some(s)
    else
      var next := Step(s, acts[0]);
      if next.None? then None else Run(next.value, acts[1..])
  }

  function Initial(irql: Irql): State { State(irql, false, {}, {}, []) }

  // ---- what every step keeps ------------------------------------------------------------------

  /** Every interrupt in progress runs strictly above the level it interrupted, and at or below
      the level that interrupted it. */
  ghost predicate Nested(frames: seq<Frame>, irql: Irql) {
    && (forall i :: 0 <= i < |frames| ==> frames[i].interrupted < frames[i].Level())
    && (forall i :: 0 <= i < |frames| ==> frames[i].interrupted < CLOCK2_LEVEL)
    && (forall i :: 0 <= i < |frames| - 1 ==> frames[i].Level() <= frames[i + 1].interrupted)
    && (frames != [] ==> frames[|frames| - 1].Level() <= irql)
  }

  /** Interrupts are only ever open to sources above the current level. */
  ghost predicate Inv(s: State) {
    && (s.ee ==> s.mask <= Above(s.irql) && s.irql < CLOCK2_LEVEL)
    && Nested(s.frames, s.irql)
  }

  /** And to all the registered ones above it: the hardware's mask is the current level's. */
  ghost predicate Exact(s: State) {
    s.ee ==> s.mask == Above(s.irql) * s.registered
  }

  lemma SetLevelKeepsInv(s: State, to: Irql)
    ensures Inv(s) && s.Floor() <= to ==> Inv(SetLevel(s, to))
  {
  }

  lemma ReregisterKeepsInv(s: State, registered: set<Line>)
    requires Inv(s)
    ensures Reregister(s, registered).Some? && Inv(Reregister(s, registered).value)
  {
    if s.irql < HIGH_LEVEL {
      var high := SetLevel(s, HIGH_LEVEL).(registered := registered, mask := Above(s.irql) * registered);
      SetLevelKeepsInv(high, s.irql);
    }
  }

  lemma DispatchKeepsInv(s: State, events: set<Line>, line: Line)
    requires Inv(s) && s.ee && line in events * s.mask
    ensures DispatchLevel(s.irql, line) == LevelOf(line) > s.irql
    ensures Inv(State(LevelOf(line), true, Above(LevelOf(line)) * s.registered - {line}, s.registered,
                      s.frames + [Device(line, s.irql, None)]))
  {
    hide LevelOf;
    OwnLevelIsMasked(line, s.registered);
    assert line in Above(s.irql);
  }

  /** A source is not open at its own level, so masking it as well adds nothing. */
  lemma OwnLevelIsMasked(line: Line, registered: set<Line>)
    ensures line !in Above(LevelOf(line))
    ensures Above(LevelOf(line)) * registered - {line} == Above(LevelOf(line)) * registered
  {
    hide LevelOf;
  }

  lemma FloorIsBelow(s: State)
    ensures Inv(s) ==> s.Floor() <= s.irql
  {
  }

  lemma DecrementerKeepsInv(s: State)
    ensures Inv(s) && Step(s, Decrementer).Some? ==> Inv(Step(s, Decrementer).value)
  {
    hide Above, LevelOf;
  }

  lemma WithTopKeepsNested(s: State, top: Frame)
    requires s.frames != [] && Nested(s.frames, s.irql)
    requires top.interrupted == s.Top().interrupted && top.Level() == s.Top().Level()
    ensures Nested(WithTop(s, top).frames, s.irql)
  {
    hide LevelOf;
    var now := WithTop(s, top).frames;
    assert forall i :: 0 <= i < |now| ==> now[i].interrupted == s.frames[i].interrupted && now[i].Level() == s.frames[i].Level();
  }

  lemma ReturnKeepsInv(s: State)
    ensures Inv(s) && Step(s, Return).Some? ==> Inv(Step(s, Return).value)
  {
  }

  lemma StepKeepsInv(s: State, a: Action)
    requires Inv(s) && Step(s, a).Some?
    ensures Inv(Step(s, a).value)
  {
    hide Nested, Above, LevelOf, Inv, WithTop;
    match a
    case Raise(to) =>
      FloorIsBelow(s);
      SetLevelKeepsInv(s, if to < s.irql then s.irql else to);
    case Lower(to) =>
      SetLevelKeepsInv(s, to);
    case Enable(vector) =>
      if IsDeviceVector(vector) {
        ReregisterKeepsInv(s, s.registered + {vector - DEVICE_VECTORS});
      }
    case Disable(vector) =>
      if IsDeviceVector(vector) {
        ReregisterKeepsInv(s, s.registered - {vector - DEVICE_VECTORS});
      }
    case External(events, line) =>
      if events * s.mask != {} {
        DispatchKeepsInv(s, events, line);
      }
    case Decrementer => DecrementerKeepsInv(s);
    case UnwantedLoad => UnwantedKeepsInv(s, a);
    case UnwantedStore => UnwantedKeepsInv(s, a);
    case Return => ReturnKeepsInv(s);
  }

  lemma UnwantedKeepsInv(s: State, a: Action)
    requires Inv(s) && (a.UnwantedLoad? || a.UnwantedStore?) && Step(s, a).Some?
    ensures Inv(Step(s, a).value)
  {
    hide Above, LevelOf, Nested;
    WithTopKeepsNested(s, s.Top().(seen := if a.UnwantedLoad? then Some(s.registered) else None));
  }

  /** Safety over whole runs, whatever the order of calls, interrupts and returns: with interrupts
      open, nothing at or below the current level gets through. */
  lemma {:induction false} RunKeepsInv(s: State, acts: seq<Action>)
    requires Inv(s) && Run(s, acts).Some?
    ensures Inv(Run(s, acts).value)
    decreases |acts|
  {
    if acts != [] {
      StepKeepsInv(s, acts[0]);
      RunKeepsInv(Step(s, acts[0]).value, acts[1..]);
    }
  }

  /** The clamp in the dispatcher never fires: whatever is taken is strictly above what it
      interrupts, in every state any run from HalpInitializeInterrupts can reach. */
  lemma NestedInterruptIsHigher(start: Irql, acts: seq<Action>, events: set<Line>, line: Line)
    requires Run(Initial(start), acts).Some?
    requires var s := Run(Initial(start), acts).value;
             s.ee && events * s.mask != {} && IsPick(events * s.mask, line)
    ensures var s := Run(Initial(start), acts).value;
            DispatchLevel(s.irql, line) == LevelOf(line) > s.irql
  {
    RunKeepsInv(Initial(start), acts);
    var s := Run(Initial(start), acts).value;
    assert line in Above(s.irql);
  }

  // ---- stopping a source with interrupts open --------------------------------------------------

  /** What the dispatcher has loaded is not, above the current level, what is registered now. */
  ghost predicate Disturbed(s: State)
    requires s.frames != [] && s.Top().Device? && s.Top().seen.Some?
  {
    s.ee && Above(s.irql) * s.Top().seen.value != Above(s.irql) * s.registered
  }

  /** Every step keeps the mask the current level's, but for one: the store that stops an unwanted
      source, exactly when what was loaded for it is no longer what is registered above the level.
      StopIsAtomicIff says what that takes. */
  lemma StepKeepsExactIff(s: State, a: Action)
    requires Inv(s) && Exact(s) && Step(s, a).Some?
    ensures Exact(Step(s, a).value) <==> !(a.UnwantedStore? && Disturbed(s))
  {
    hide Nested, Above, LevelOf;
    match a
    case External(events, line) =>
      if events * s.mask != {} {
        DispatchKeepsInv(s, events, line);
        OwnLevelIsMasked(line, s.registered);
      }
    case UnwantedStore => StoreKeepsExactIff(s);
    case _ =>
  }

  lemma StoreKeepsExactIff(s: State)
    requires Inv(s) && Exact(s) && Step(s, UnwantedStore).Some?
    ensures Exact(Step(s, UnwantedStore).value) <==> !Disturbed(s)
  {
    hide LevelOf;
    var line, seen := s.Top().line, s.Top().seen.value;
    assert line !in Above(s.irql);
    assert Above(s.irql) * (seen - {line}) == Above(s.irql) * seen;
  }

  /** No store of the run is disturbed. */
  ghost predicate Undisturbed(s: State, acts: seq<Action>)
    decreases |acts|
  {
    acts != [] && Step(s, acts[0]).Some? ==>
      !(acts[0].UnwantedStore? && Disturbed(s)) && Undisturbed(Step(s, acts[0]).value, acts[1..])
  }

  /** So on every run without such a store the mask is exact throughout. */
  lemma {:induction false} RunKeepsExact(s: State, acts: seq<Action>)
    requires Inv(s) && Exact(s) && Run(s, acts).Some? && Undisturbed(s, acts)
    ensures Exact(Run(s, acts).value)
    decreases |acts|
  {
    hide Inv, Exact, Step, Disturbed;
    if acts != [] {
      StepKeepsInv(s, acts[0]);
      StepKeepsExactIff(s, acts[0]);
      RunKeepsExact(Step(s, acts[0]).value, acts[1..]);
    }
  }

  /** Nothing of the handler at `depth` runs: there the machine is only interrupted, and it never
      returns from there. */
  ghost predicate OnlyInterrupted(s: State, acts: seq<Action>, depth: nat)
    decreases |acts|
  {
    |s.frames| >= depth &&
    (acts == [] ||
     (Step(s, acts[0]).Some? && (|s.frames| == depth ==> acts[0].External? || acts[0].Decrementer?)
      && OnlyInterrupted(Step(s, acts[0]).value, acts[1..], depth)))
  }

  /** `t` is `s` again, whatever is registered by now, or `s` interrupted. */
  ghost predicate Resumes(s: State, t: State) {
    var depth := |s.frames|;
    && |t.frames| >= depth && t.frames[..depth] == s.frames
    && if |t.frames| == depth then t.irql == s.irql && t.ee == s.ee && Exact(t) && (s.ee || t == s)
       else t.frames[depth].interrupted == s.irql && s.ee
  }

  lemma StepResumes(s: State, t: State, a: Action)
    requires Resumes(s, t) && Step(t, a).Some? && |Step(t, a).value.frames| >= |s.frames|
    requires |t.frames| == |s.frames| ==> a.External? || a.Decrementer?
    ensures Resumes(s, Step(t, a).value)
  {
    hide Above, LevelOf, IsPick;
    var depth, next := |s.frames|, Step(t, a).value;
    if |t.frames| > depth && |next.frames| > depth {
      StepKeepsFrames(t, a, depth);
    }
    assert next.frames[..depth] == s.frames;
  }

  lemma {:induction false} RunResumes(s: State, t: State, acts: seq<Action>)
    requires Resumes(s, t) && OnlyInterrupted(t, acts, |s.frames|)
    ensures Run(t, acts).Some? && Resumes(s, Run(t, acts).value)
    decreases |acts|
  {
    hide Step, Resumes;
    if acts != [] {
      assert |Step(t, acts[0]).value.frames| >= |s.frames|;
      StepResumes(s, t, acts[0]);
      RunResumes(s, Step(t, acts[0]).value, acts[1..]);
    }
  }

  /** The handler at the top of `s` stops its source; between its load and its store interrupts come,
      do `during` and have returned in `t`. */
  ghost predicate Stopping(s: State, during: seq<Action>, t: State) {
    && Inv(s) && Exact(s) && Step(s, UnwantedLoad).Some?
    && OnlyInterrupted(Step(s, UnwantedLoad).value, during, |s.frames|)
    && Run(Step(s, UnwantedLoad).value, during) == Some(t) && |t.frames| == |s.frames|
  }

  /** The dispatcher stops a source by a load and a store, and interrupts come in between.  The update
      leaves registered what was registered at its load, without the source.  So the mask is exact
      again exactly when those interrupts have left alone what is registered above the level, and
      nothing of theirs is undone exactly when they have left alone everything but the source. */
  lemma StopIsAtomicIff(s: State, during: seq<Action>, t: State)
    requires Stopping(s, during, t)
    ensures var line, run := s.Top().line, Run(s, [UnwantedLoad] + during + [UnwantedStore]);
            && run.Some?
            && run.value.irql == s.irql && run.value.frames == WithTop(s, s.Top().(seen := None)).frames
            && run.value.registered == s.registered - {line}
            && (Exact(run.value) <==> Above(s.irql) * t.registered == Above(s.irql) * s.registered)
            && (run.value.registered == t.registered - {line} <==> t.registered - {line} == s.registered - {line})
  {
    hide Run, Stopping, Resumes, Exact, Above;
    StopRuns(s, during, t);
    StoreAfter(s, t);
  }

  /** Interrupts that connect, disconnect and stop no source leave everything alone. */
  lemma StopIsAtomic(s: State, during: seq<Action>, t: State)
    requires Stopping(s, during, t) && forall i :: 0 <= i < |during| ==> !Registers(during[i])
    ensures Run(s, [UnwantedLoad] + during + [UnwantedStore]) ==
            Some(WithTop(s, s.Top().(seen := None)).(registered := s.registered - {s.Top().line}))
  {
    hide Run, Above, OnlyInterrupted;
    StopRuns(s, during, t);
    RegistrationsStay(Step(s, UnwantedLoad).value, during);
    StoreAfter(s, t);
  }

  lemma StopRuns(s: State, during: seq<Action>, t: State)
    requires Stopping(s, during, t)
    ensures Inv(s) && Step(s, UnwantedLoad).Some? && Resumes(Step(s, UnwantedLoad).value, t) && |t.frames| == |s.frames|
    ensures Run(s, [UnwantedLoad] + during + [UnwantedStore]) == Step(t, UnwantedStore)
  {
    hide Step, Run, OnlyInterrupted, Inv;
    LoadKeepsExact(s);
    RunResumes(Step(s, UnwantedLoad).value, Step(s, UnwantedLoad).value, during);
    OneStepRun(s, UnwantedLoad);
    RunJoins(s, [UnwantedLoad], during);
    RunJoins(s, [UnwantedLoad] + during, [UnwantedStore]);
    OneStepRun(t, UnwantedStore);
  }

  lemma LoadKeepsExact(s: State)
    requires Step(s, UnwantedLoad).Some?
    ensures var loaded := Step(s, UnwantedLoad).value;
            |loaded.frames| == |s.frames| && (Exact(s) ==> Resumes(loaded, loaded))
  {
    var loaded := Step(s, UnwantedLoad).value;
    assert loaded.frames[..|loaded.frames|] == loaded.frames;
  }

  /** The store, once what interrupted it has returned. */
  lemma StoreAfter(s: State, t: State)
    requires Inv(s) && Step(s, UnwantedLoad).Some? && Resumes(Step(s, UnwantedLoad).value, t) && |t.frames| == |s.frames|
    ensures var line, after := s.Top().line, Step(t, UnwantedStore);
            && after == Some(t.(frames := WithTop(s, s.Top().(seen := None)).frames, registered := s.registered - {line}))
            && t.irql == s.irql && t.ee == s.ee && (!s.ee ==> t.mask == s.mask) && Exact(t)
            && (Exact(after.value) <==> Above(s.irql) * t.registered == Above(s.irql) * s.registered)
  {
    hide LevelOf;
    var line, loaded := s.Top().line, Step(s, UnwantedLoad).value;
    assert t.frames[..|loaded.frames|] == t.frames;
    assert line !in Above(s.irql);
    assert Above(s.irql) * (s.registered - {line}) == Above(s.irql) * s.registered;
  }

  predicate Registers(a: Action) { a.Enable? || a.Disable? || a.UnwantedStore? }

  lemma {:induction false} RegistrationsStay(s: State, acts: seq<Action>)
    requires Run(s, acts).Some? && forall i :: 0 <= i < |acts| ==> !Registers(acts[i])
    ensures Run(s, acts).value.registered == s.registered
    decreases |acts|
  {
    hide Above, LevelOf, IsPick;
    if acts != [] {
      assert !Registers(acts[0]);
      RegistrationsStay(Step(s, acts[0]).value, acts[1..]);
    }
  }

  lemma OneStepRun(s: State, a: Action)
    ensures Run(s, [a]) == Step(s, a)
  {
    hide Step;
    assert [a][1..] == [];
    assert Step(s, a).Some? ==> Run(Step(s, a).value, []) == Step(s, a);
  }

  /** It happens: while source 0 is being stopped, source 31 interrupts and is stopped as well; the
      first store brings 31 back, which is then registered, above the level and not open. */
  lemma StopIsUndone()
    ensures var acts := [Enable(32), Enable(63), External({0}, 0), UnwantedLoad, External({31}, 31), UnwantedLoad,
                         UnwantedStore, Return, UnwantedStore];
            var run := Run(Initial(0), acts);
            && run.Some? && run.value == State(12, true, {}, {31}, [Device(0, 0, None)])
            && 31 in Above(12) && !Exact(run.value)
  {
    hide Step, Run, Above, LevelOf;
    var a, b, c := [Enable(32), Enable(63)], [External({0}, 0), UnwantedLoad], [External({31}, 31), UnwantedLoad];
    var d := [UnwantedStore, Return, UnwantedStore];
    AboveBoth();
    Connected();
    FirstLoad();
    SecondLoad();
    BothStores();
    RunJoins(Initial(0), a, b);
    RunJoins(Initial(0), a + b, c);
    RunJoins(Initial(0), a + b + c, d);
    assert a + b + c + d == [Enable(32), Enable(63), External({0}, 0), UnwantedLoad, External({31}, 31), UnwantedLoad,
                             UnwantedStore, Return, UnwantedStore];
    assert 31 in Above(12) * {31};
  }

  const BOTH: set<Line> := {0, 31}

  /** The states of that run: both connected, the first loaded, the second loaded, and the end. */
  const CONNECTED := State(0, true, BOTH, BOTH, [])
  const LOADED := State(12, true, {31}, BOTH, [Device(0, 0, Some(BOTH))])
  const LOADED_TWICE := State(27, true, {}, BOTH, [Device(0, 0, Some(BOTH)), Device(31, 12, Some(BOTH))])
  const UNDONE := State(12, true, {}, {31}, [Device(0, 0, None)])

  lemma {:induction false} RunJoins(s: State, a: seq<Action>, b: seq<Action>)
    requires Run(s, a).Some?
    ensures Run(s, a + b) == Run(Run(s, a).value, b)
    decreases |a|
  {
    hide Step;
    if a == [] {
      assert a + b == b;
    } else {
      assert (a + b)[0] == a[0] && (a + b)[1..] == a[1..] + b;
      RunJoins(Step(s, a[0]).value, a[1..], b);
    }
  }

  lemma RunTwo(s: State, a: Action, t: State, b: Action, u: State)
    requires Step(s, a) == Some(t) && Step(t, b) == Some(u)
    ensures Run(s, [a, b]) == Some(u)
  {
    hide Step;
    assert Run(u, []) == Some(u);
    assert Run(t, [b]) == Some(u);
    assert [a, b][1..] == [b];
  }

  /** Which of the sources 0 and 31 are above the levels they run at. */
  lemma AboveBoth()
    ensures forall i: Irql :: 0 in Above(i) <==> i < 12
    ensures forall i: Irql :: 31 in Above(i) <==> i < 27
    ensures LevelOf(0) == 12 && LevelOf(31) == 27
  {
  }

  lemma Connected()
    ensures Run(Initial(0), [Enable(32), Enable(63)]) == Some(CONNECTED)
  {
    hide Above, LevelOf;
    AboveBoth();
    var none: set<Line>, low: set<Line>, high: set<Line> := {}, {0}, {31};
    assert Above(0) * low == low && Above(0) * BOTH == BOTH;
    assert none + low == low && low + high == BOTH;
    RunTwo(Initial(0), Enable(32), State(0, true, low, low, []), Enable(63), CONNECTED);
  }

  /** One step of each kind, on a given top frame. */
  lemma TakeStep(s: State, line: Line, t: State)
    requires s.ee && line in s.mask && LevelOf(line) > s.irql
    requires t == State(LevelOf(line), true, Above(LevelOf(line)) * s.registered - {line}, s.registered,
                        s.frames + [Device(line, s.irql, None)])
    ensures Step(s, External({line}, line)) == Some(t)
  {
    hide Above, LevelOf;
    assert {line} * s.mask == {line};
    assert IsPick({line}, line);
  }

  lemma LoadStep(s: State, rest: seq<Frame>, line: Line, back: Irql)
    ensures Step(s.(frames := rest + [Device(line, back, None)]), UnwantedLoad) ==
            Some(s.(frames := rest + [Device(line, back, Some(s.registered))]))
  {
    assert (rest + [Device(line, back, None)])[..|rest|] == rest;
  }

  lemma StoreStep(s: State, rest: seq<Frame>, line: Line, back: Irql, seen: set<Line>)
    ensures Step(s.(frames := rest + [Device(line, back, Some(seen))]), UnwantedStore) ==
            Some(s.(frames := rest + [Device(line, back, None)], registered := seen - {line}))
  {
    assert (rest + [Device(line, back, Some(seen))])[..|rest|] == rest;
  }

  lemma ReturnStep(s: State, rest: seq<Frame>, f: Frame)
    ensures Step(s.(frames := rest + [f]), Return) ==
            Some(State(f.interrupted, true, Above(f.interrupted) * s.registered, s.registered, rest))
  {
    hide Above;
    assert (rest + [f])[..|rest|] == rest;
  }

  lemma FirstLoad()
    ensures Run(CONNECTED, [External({0}, 0), UnwantedLoad]) == Some(LOADED)
  {
    hide Above, LevelOf, Step;
    AboveBoth();
    assert Above(12) * BOTH - {0} == {31};
    var taken := LOADED.(frames := [Device(0, 0, None)]);
    assert [] + [Device(0, 0, None)] == taken.frames;
    TakeStep(CONNECTED, 0, taken);
    LoadStep(taken, [], 0, 0);
    assert [] + [Device(0, 0, Some(BOTH))] == LOADED.frames;
    RunTwo(CONNECTED, External({0}, 0), taken, UnwantedLoad, LOADED);
  }

  lemma SecondLoad()
    ensures Run(LOADED, [External({31}, 31), UnwantedLoad]) == Some(LOADED_TWICE)
  {
    hide Above, LevelOf, Step;
    AboveBoth();
    assert Above(27) * BOTH - {31} == {};
    var rest := [Device(0, 0, Some(BOTH))];
    var taken := LOADED_TWICE.(frames := rest + [Device(31, 12, None)]);
    TakeStep(LOADED, 31, taken);
    LoadStep(taken, rest, 31, 12);
    assert rest + [Device(31, 12, Some(BOTH))] == LOADED_TWICE.frames;
    RunTwo(LOADED, External({31}, 31), taken, UnwantedLoad, LOADED_TWICE);
  }

  lemma BothStores()
    ensures Run(LOADED_TWICE, [UnwantedStore, Return, UnwantedStore]) == Some(UNDONE)
  {
    hide Above, LevelOf, Step;
    AboveBoth();
    var rest := [Device(0, 0, Some(BOTH))];
    assert BOTH - {31} == {0} && BOTH - {0} == {31} && Above(12) * {0} == {};
    var u, w := State(27, true, {}, {0}, rest + [Device(31, 12, None)]), State(12, true, {}, {0}, rest);
    assert rest + [Device(31, 12, Some(BOTH))] == LOADED_TWICE.frames;
    StoreStep(LOADED_TWICE, rest, 31, 12, BOTH);
    ReturnStep(u, rest, Device(31, 12, None));
    assert [] + rest == rest;
    StoreStep(w, [], 0, 0, BOTH);
    assert [] + [Device(0, 0, None)] == UNDONE.frames;
    RunTwo(u, Return, w, UnwantedStore, UNDONE);
    assert [UnwantedStore, Return, UnwantedStore][1..] == [Return, UnwantedStore];
  }

  /** Some raised source is registered and above the current level. */
  ghost predicate Wants(s: State, events: set<Line>) {
    exists line :: line in events && line in s.registered && LevelOf(line) > s.irql
  }

  /** With interrupts open, the machine is interrupted for exactly the events it should be, whatever
      they are, exactly as long as the mask is exact. */
  lemma DeliverableIffAbove(s: State)
    requires Inv(s) && s.ee
    ensures Exact(s) <==> forall events: set<Line> :: events * s.mask != {} <==> Wants(s, events)
  {
    hide LevelOf;
    forall events: set<Line>
      ensures Exact(s) ==> (events * s.mask != {} <==> Wants(s, events))
    {
      if line :| line in events && line in s.registered && LevelOf(line) > s.irql {
        assert Exact(s) ==> line in events * s.mask;
      }
    }
    if forall events: set<Line> :: events * s.mask != {} <==> Wants(s, events) {
      forall line: Line
        ensures line in s.mask <==> line in Above(s.irql) * s.registered
      {
        assert {line} * s.mask == if line in s.mask then {line} else {};
        assert Wants(s, {line}) <==> line in s.registered && LevelOf(line) > s.irql;
      }
    }
  }

  /** Interrupts are open to exactly the events with a registered source above the level. */
  ghost predicate OpenAbove(s: State) {
    s.ee && forall events: set<Line> :: events * s.mask != {} <==> Wants(s, events)
  }

  lemma ExactIsOpen(s: State)
    ensures Inv(s) && s.ee && Exact(s) ==> OpenAbove(s)
  {
    hide Inv, Exact, Wants;
    if Inv(s) && s.ee {
      DeliverableIffAbove(s);
    }
  }

  // ---- what each routine is for ------------------------------------------------------------------

  /** Raising: refused below the current level; otherwise the level is the one asked for, open to what
      is above it below level 28 and closed from there on, and nothing else has changed. */
  lemma RaiseMeans(s: State, to: Irql)
    requires Inv(s) && Exact(s) && s.ee
    ensures Step(s, Raise(to)).None? <==> to < s.irql
    ensures to >= s.irql ==>
              var t := Step(s, Raise(to)).value;
              && t.irql == to && t.registered == s.registered && t.frames == s.frames
              && (if to < 28 then OpenAbove(t) else !t.ee)
  {
    hide Nested, OpenAbove, LevelOf, Above;
    if to >= s.irql {
      StepKeepsInv(s, Raise(to));
      StepKeepsExactIff(s, Raise(to));
      ExactIsOpen(Step(s, Raise(to)).value);
    }
  }

  /** Lowering: refused above the current level; a real one opens interrupts to what is above the new
      level, below level 28. */
  lemma LowerMeans(s: State, to: Irql)
    requires Inv(s) && Exact(s) && s.Floor() <= to
    ensures Step(s, Lower(to)).None? <==> to > s.irql
    ensures to == s.irql ==> Step(s, Lower(to)) == Some(s)
    ensures to < s.irql ==>
              var t := Step(s, Lower(to)).value;
              && t.irql == to && t.registered == s.registered && t.frames == s.frames
              && (if to < 28 then OpenAbove(t) else !t.ee)
  {
    hide Nested, OpenAbove, LevelOf, Above;
    if to <= s.irql {
      StepKeepsInv(s, Lower(to));
      StepKeepsExactIff(s, Lower(to));
      ExactIsOpen(Step(s, Lower(to)).value);
    }
  }

  /** Connecting vector 32 + n registers source n, disconnecting takes it out, and any other vector does
      nothing; the level stays, and below level 28 interrupts are then open above it. */
  lemma RegisterMeans(s: State, vector: nat, connect: bool)
    requires Inv(s) && Exact(s)
    ensures var step := Step(s, if connect then Enable(vector) else Disable(vector));
            && step.Some?
            && if 32 <= vector < 64 then
                 var t := step.value;
                 && t.irql == s.irql && t.frames == s.frames
                 && t.registered == (if connect then s.registered + {vector - 32} else s.registered - {vector - 32})
                 && (s.irql < 28 ==> OpenAbove(t)) && (s.irql >= 28 ==> !t.ee)
               else step.value == s
  {
    hide Nested, OpenAbove, LevelOf, Above;
    var a := if connect then Enable(vector) else Disable(vector);
    if 32 <= vector < 64 {
      StepKeepsInv(s, a);
      StepKeepsExactIff(s, a);
      ExactIsOpen(Step(s, a).value);
    }
  }

  /** Taking an interrupt: it runs at its source's level, above the one interrupted, open to what is
      above that again; events that are all masked change nothing. */
  lemma InterruptMeans(s: State, events: set<Line>, line: Line)
    requires Inv(s) && Exact(s) && s.ee
    ensures events * s.mask == {} ==> Step(s, External(events, line)) == Some(s)
    ensures IsPick(events * s.mask, line) ==>
            var step := Step(s, External(events, line));
            && step.Some? && step.value.irql == LevelOf(line) > s.irql && OpenAbove(step.value)
            && step.value.registered == s.registered && step.value.frames == s.frames + [Device(line, s.irql, None)]
  {
    hide Nested, OpenAbove, LevelOf, Above, IsPick;
    if IsPick(events * s.mask, line) {
      PickIsPending(events * s.mask, line);
      DispatchKeepsInv(s, events, line);
      StepKeepsInv(s, External(events, line));
      StepKeepsExactIff(s, External(events, line));
      ExactIsOpen(Step(s, External(events, line)).value);
    }
  }

  lemma PickIsPending(pending: set<Line>, line: Line)
    ensures IsPick(pending, line) ==> line in pending
  {
  }

  /** Of two sources of one level the higher wins when it is the highest pending, and the lower when a
      still higher number of a lower level is pending too. */
  lemma TiesBreak(line: Line)
    ensures LevelOf(23) == LevelOf(25) > LevelOf(26)
    ensures IsPick({23, 25}, line) <==> line == 25
    ensures IsPick({23, 25, 26}, line) <==> line == 23
  {
    assert 23 in {23 as Line, 25, 26} && 25 in {23 as Line, 25, 26} && 26 in {23 as Line, 25, 26};
    assert 23 in {23 as Line, 25} && 25 in {23 as Line, 25};
  }

  /** The clock runs at level 28, closed to everything. */
  lemma ClockMeans(s: State)
    requires s.ee
    ensures var step := Step(s, Decrementer);
            && step.Some? && step.value.irql == 28 && !step.value.ee && step.value.registered == s.registered
            && step.value.frames == s.frames + [Clock(s.irql)]
  {
  }

  /** Two sources a level from level 12 on, then the ones the machine orders by hand. */
  lemma LevelsAre(line: Line)
    ensures LevelOf(line) == if line < 20 then 12 + line / 2
                             else if line < 24 then line + 2
                             else if line == 26 then 24
                             else if line < 30 then 25
                             else line - 4
  {
  }

  lemma {:induction false} LevelsClimb(frames: seq<Frame>, irql: Irql, k: nat)
    requires Nested(frames, irql) && k < |frames|
    ensures frames[k].Level() >= LOWEST_DEVICE_LEVEL + k
  {
    if k > 0 {
      LevelsClimb(frames, irql, k - 1);
    }
  }

  /** The stack of interrupts is never deeper than one per device level plus the clock, and only
      its top can be the clock. */
  lemma NestingIsBounded(start: Irql, acts: seq<Action>)
    requires Run(Initial(start), acts).Some?
    ensures var s := Run(Initial(start), acts).value;
            && |s.frames| <= HIGHEST_DEVICE_LEVEL - LOWEST_DEVICE_LEVEL + 2
            && (forall i :: 0 <= i < |s.frames| - 1 ==> s.frames[i].Device?)
            && ((forall i :: 0 <= i < |s.frames| ==> s.frames[i].Device?)
                ==> |s.frames| <= HIGHEST_DEVICE_LEVEL - LOWEST_DEVICE_LEVEL + 1)
            && (|s.frames| > 0 && s.frames[|s.frames| - 1].Clock? ==> !s.ee)
  {
    RunKeepsInv(Initial(start), acts);
    var s := Run(Initial(start), acts).value;
    forall i | 0 <= i < |s.frames| - 1
      ensures s.frames[i].Device?
    {
      assert s.frames[i + 1].interrupted < CLOCK2_LEVEL;
    }
    if |s.frames| > 1 {
      LevelsClimb(s.frames, s.irql, |s.frames| - 2);
    }
    if |s.frames| > 0 {
      LevelsClimb(s.frames, s.irql, |s.frames| - 1);
    }
  }

  // ---- what an interrupt leaves behind ---------------------------------------------------------

  /** Every state the run passes through has more than `depth` interrupts in progress. */
  ghost predicate StaysAbove(s: State, acts: seq<Action>, depth: nat)
    decreases |acts|
  {
    |s.frames| > depth &&
    (acts == [] || (Step(s, acts[0]).Some? && StaysAbove(Step(s, acts[0]).value, acts[1..], depth)))
  }

  lemma {:induction false} FramesBelowAreKept(s: State, acts: seq<Action>, depth: nat)
    requires StaysAbove(s, acts, depth)
    ensures Run(s, acts).Some?
    ensures var t := Run(s, acts).value;
            && |t.frames| > depth && t.frames[..depth] == s.frames[..depth]
            && t.frames[depth].interrupted == s.frames[depth].interrupted
    decreases |acts|
  {
    hide Step;
    if acts != [] {
      StepKeepsFrames(s, acts[0], depth);
      FramesBelowAreKept(Step(s, acts[0]).value, acts[1..], depth);
    }
  }

  lemma StepKeepsFrames(s: State, a: Action, depth: nat)
    requires |s.frames| > depth && Step(s, a).Some? && |Step(s, a).value.frames| > depth
    ensures var t := Step(s, a).value;
            t.frames[..depth] == s.frames[..depth] && t.frames[depth].interrupted == s.frames[depth].interrupted
  {
    hide Above, LevelOf;
  }

  /** An interrupt, everything its handler does (further interrupts included) and its return put
      the interrupted code back at its level, with interrupts open and that level's mask computed
      from the sources registered now, even when handlers changed which those are. */
  lemma ReturnRestores(start: Irql, before: seq<Action>, entry: Action, during: seq<Action>)
    requires Run(Initial(start), before).Some?
    requires var s := Run(Initial(start), before).value;
             && Step(s, entry).Some?
             && |Step(s, entry).value.frames| > |s.frames|
             && StaysAbove(Step(s, entry).value, during, |s.frames|)
    requires var s := Run(Initial(start), before).value;
             var end := Run(Step(s, entry).value, during);
             end.Some? && |end.value.frames| == |s.frames| + 1
    ensures var s := Run(Initial(start), before).value;
            var t := Run(Step(s, entry).value, during).value;
            var back := Step(t, Return);
            && back.Some?
            && back.value == s.(registered := t.registered, mask := Above(s.irql) * t.registered)
            && (t.registered == s.registered && Exact(s) ==> back.value == s)
  {
    RunKeepsInv(Initial(start), before);
    var s := Run(Initial(start), before).value;
    var entered := Step(s, entry).value;
    FramesBelowAreKept(entered, during, |s.frames|);
    var t := Run(entered, during).value;
    assert entry.External? || entry.Decrementer?;
    assert entered.frames[..|s.frames|] == s.frames;
    assert t.frames[..|t.frames| - 1] == s.frames;
  }

  // ---- the routines themselves ----------------------------------------------------------------

  /** The processor control region's IRQL, MSR[EE], Grand Central's mask register with its shadow,
      and the HAL's own tables.  `frames` records which handlers are in progress. */
  class Hal {
    var currentIrql: Irql
    var ee: bool
    var gcMask: set<Line>
    var registered: set<Line>
    const irqlToMask: array<set<Line>>
    ghost var frames: seq<Frame>

    ghost predicate Valid()
      reads this, irqlToMask
    {
      irqlToMask.Length == 32 && forall i: Irql :: irqlToMask[i] == Above(i)
    }

    ghost function Abs(): State
      reads this
    {
      State(currentIrql, ee, gcMask, registered, frames)
    }

    /** HalpInitializeInterrupts, as far as it touches the protocol. */
    constructor (irql: Irql)
      ensures Valid() && fresh(irqlToMask)
      ensures Abs() == Initial(irql)
    {
      irqlToMask := new set<Line>[32];
      currentIrql, ee, gcMask, registered, frames := irql, false, {}, {}, [];
      new;
      InitPriorityMask();
    }

    method InitPriorityMask()
      requires irqlToMask.Length == 32
      modifies irqlToMask
      ensures Valid()
    {
      for irql := 0 to 32
        invariant forall i: Irql :: i < irql ==> irqlToMask[i] == Above(i)
      {
        irqlToMask[irql] := MaskOf(irql);
      }
    }

    /** The inner loop: one level's mask. */
    method MaskOf(irql: Irql) returns (m: set<Line>)
      ensures m == Above(irql)
    {
      m := {};
      for bit := 0 to 32
        invariant m == set b: Line | 0 <= b < bit && LevelOf(b) > irql
      {
        if LINE_LEVELS[bit] > irql {
          m := m + {bit};
        }
      }
    }

    method SetGcMask(mask: set<Line>)
      modifies this`gcMask
      ensures gcMask == mask
    {
      gcMask := mask;
    }

    /** `bugcheck` stands for KeBugCheckEx, which does not return. */
    method KeRaiseIrql(newIrql: Irql) returns (bugcheck: bool, oldIrql: Irql)
      requires Valid()
      modifies this
      ensures Valid() && oldIrql == old(currentIrql)
      ensures bugcheck <==> Step(old(Abs()), Raise(newIrql)).None?
      ensures Abs() == if bugcheck then old(Abs()) else Step(old(Abs()), Raise(newIrql)).value
    {
      var cur := currentIrql;
      oldIrql := cur;
      bugcheck := false;
      if newIrql == cur {
        return;
      }
      if newIrql < cur {
        bugcheck := true;
        return;
      }
      ee := false;
      currentIrql := newIrql;
      SetGcMask(irqlToMask[newIrql] * registered);
      if newIrql < CLOCK2_LEVEL {
        ee := true;
      }
    }

    method KeLowerIrql(newIrql: Irql) returns (bugcheck: bool)
      requires Valid()
      modifies this
      ensures Valid()
      ensures bugcheck <==> LowerTo(old(Abs()), newIrql).None?
      ensures Abs() == if bugcheck then old(Abs()) else LowerTo(old(Abs()), newIrql).value
    {
      var cur := currentIrql;
      bugcheck := false;
      if newIrql != cur {
        if newIrql > cur {
          bugcheck := true;
          return;
        }
        ee := false;
        currentIrql := newIrql;
        SetGcMask(irqlToMask[newIrql] * registered);
        if newIrql < CLOCK2_LEVEL {
          ee := true;
        }
      }
    }

    /** The critical section succeeds from every level: raising to HIGH_LEVEL and lowering back
        never bugchecks. */
    method HalEnableSystemInterrupt(vector: nat) returns (ok: bool)
      requires Valid()
      modifies this
      ensures Valid() && ok == IsDeviceVector(vector)
      ensures Step(old(Abs()), Enable(vector)) == Some(Abs())
    {
      if vector < DEVICE_VECTORS || vector >= DEVICE_VECTORS + 32 {
        return false;
      }
      var bit := vector - DEVICE_VECTORS;
      var bugcheck, irql := KeRaiseIrql(HIGH_LEVEL);
      registered := registered + {bit};
      SetGcMask(irqlToMask[irql] * registered);
      bugcheck := KeLowerIrql(irql);
      return true;
    }

    method HalDisableSystemInterrupt(vector: nat)
      requires Valid()
      modifies this
      ensures Valid()
      ensures Step(old(Abs()), Disable(vector)) == Some(Abs())
    {
      if vector < DEVICE_VECTORS || vector >= DEVICE_VECTORS + 32 {
        return;
      }
      var bit := vector - DEVICE_VECTORS;
      var bugcheck, irql := KeRaiseIrql(HIGH_LEVEL);
      registered := registered - {bit};
      SetGcMask(irqlToMask[irql] * registered);
      bugcheck := KeLowerIrql(irql);
    }

    /** HalpExternalInterrupt up to the point where interrupts are open again and the handler is
        called.  Taken with EE on; the processor has cleared it. */
    method ExternalEntry(events: set<Line>) returns (dispatched: bool, bit: Line, oldIrql: Irql)
      requires Valid() && ee
      modifies this
      ensures Valid() && oldIrql == old(currentIrql)
      ensures dispatched <==> events * old(gcMask) != {}
      ensures dispatched ==> IsPick(events * old(gcMask), bit)
      ensures Step(old(Abs()), External(events, bit)) == Some(Abs())
    {
      var pending := events * gcMask;
      oldIrql := currentIrql;
      bit := 0;
      if pending == {} {
        return false, bit, oldIrql;
      }
      ee := false;
      bit := SelectLine(pending);
      var newIrql := LINE_LEVELS[bit];
      if newIrql <= oldIrql {
        newIrql := oldIrql;
      }
      currentIrql := newIrql;
      SetGcMask(irqlToMask[newIrql] * registered - {bit});
      ee := true;
      frames := frames + [Device(bit, oldIrql, None)];
      dispatched := true;
    }

    /** A source without a routine is taken out of the registered ones, with interrupts open: the load
        and the store of that update. */
    method LoadRegistered() returns (seen: set<Line>)
      requires Valid() && frames != [] && frames[|frames| - 1].Device?
      modifies this`frames
      ensures Valid() && Step(old(Abs()), UnwantedLoad) == Some(Abs())
      ensures frames != [] && frames[|frames| - 1].Device? && frames[|frames| - 1].seen == Some(seen)
    {
      seen := registered;
      frames := frames[..|frames| - 1] + [frames[|frames| - 1].(seen := Some(seen))];
    }

    method StoreWithout(seen: set<Line>, bit: Line)
      requires Valid() && frames != [] && frames[|frames| - 1].Device?
      requires frames[|frames| - 1].seen == Some(seen) && frames[|frames| - 1].line == bit
      modifies this`registered, this`frames
      ensures Valid() && Step(old(Abs()), UnwantedStore) == Some(Abs())
    {
      registered := seen - {bit};
      frames := frames[..|frames| - 1] + [frames[|frames| - 1].(seen := None)];
    }

    /** HalpExternalInterrupt from the handler's return on, and the kernel's return to the
        interrupted context, which had EE on. */
    method ExternalExit(oldIrql: Irql)
      requires Valid() && frames != [] && frames[|frames| - 1].interrupted == oldIrql
      modifies this
      ensures Valid()
      ensures Step(old(Abs()), Return) == Some(Abs())
    {
      ee := false;
      currentIrql := oldIrql;
      SetGcMask(irqlToMask[oldIrql] * registered);
      frames := frames[..|frames| - 1];
      ee := true;
    }

    /** HalpDecrementerInterrupt up to KeUpdateSystemTime; its end is ExternalExit's. */
    method DecrementerEntry() returns (oldIrql: Irql)
      requires Valid() && ee
      modifies this
      ensures Valid() && oldIrql == old(currentIrql)
      ensures Step(old(Abs()), Decrementer) == Some(Abs())
    {
      ee := false;
      oldIrql := currentIrql;
      currentIrql := CLOCK2_LEVEL;
      SetGcMask(irqlToMask[CLOCK2_LEVEL] * registered);
      frames := frames + [Clock(oldIrql)];
    }
  }

  /** The dispatcher's scan: start from the highest-numbered pending source, then prefer any of
      strictly higher IRQL. */
  method SelectLine(pending: set<Line>) returns (bit: Line)
    requires pending != {}
    ensures IsPick(pending, bit)
  {
    hide LevelOf, IsPick;
    var top := HighestBit(pending);
    bit := top;
    for b := 0 to 32
      invariant bit in pending
      invariant forall c :: c in pending && c < b ==> LevelOf(c) <= LevelOf(bit)
      invariant LevelOf(top) <= LevelOf(bit)
      invariant bit == top || (LevelOf(top) < LevelOf(bit) && bit < b
                               && forall c :: c in pending && c < bit ==> LevelOf(c) < LevelOf(bit))
    {
      if b in pending && LevelOf(b) > LevelOf(bit) {
        bit := b;
      }
    }
    PickIs(pending, top, bit);
  }

  lemma PickIs(pending: set<Line>, top: Line, bit: Line)
    requires top in pending && bit in pending && forall c :: c in pending ==> c <= top
    requires forall c :: c in pending ==> LevelOf(c) <= LevelOf(bit)
    requires bit == top || (LevelOf(top) < LevelOf(bit)
                            && forall c :: c in pending && c < bit ==> LevelOf(c) < LevelOf(bit))
    ensures IsPick(pending, bit)
  {
    hide LevelOf;
  }

  /** 31 - clz(pending). */
  method HighestBit(pending: set<Line>) returns (top: Line)
    requires pending != {}
    ensures top in pending && forall c :: c in pending ==> c <= top
  {
    top := 31;
    while top !in pending
      invariant forall c :: c in pending ==> c <= top
      decreases top
    {
      if top == 0 {
        assert false;
      }
      top := top - 1;
    }
  }
}
