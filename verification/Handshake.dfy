/** The pickup handshake between the data thread (more_uart.c), the motor tick and the servo
    thread (motor.c), as steps that interleave freely. */
module Handshake {

  /** Where the servo thread is: waiting; in servo_get; holding the piece, with pick_flag
      raised; or about to clear servo_flag_ctrl, with put_flag raised. */
  datatype ServoAt = Waiting | Grabbing | Holding | Finishing

  /** The flags, and counts of what has happened. ticked: the motor tick has run since
      pick_flag was raised. */
  datatype Status = Status(
    waitGet: bool, uartFlag: bool, putFlag: bool, pickFlag: bool, ctrl: bool,
    servo: ServoAt, ticked: bool,
    frames: nat, started: nat, grabbed: nat, departed: nat, puts: nat)

  /** flag_init. waitGet stands for motion 13. */
  const INITIAL := Status(false, false, true, false, false, Waiting, false, 0, 0, 0, 0, 0)

  datatype Step = Arrive | HashFrame | Tick | StartGrab | RaisePick | RaisePut | ClearCtrl

  /** Whether a step can be taken: the servo's steps are in program order, and its loop starts
      a grab only when servo_flag_ctrl is set. */
  predicate Enabled(s: Status, step: Step) {
    match step
    case Arrive => !s.waitGet
    case HashFrame => true
    case Tick => true
    case StartGrab => s.servo.Waiting? && s.ctrl
    case RaisePick => s.servo.Grabbing?
    case RaisePut => s.servo.Holding?
    case ClearCtrl => s.servo.Finishing?
  }

  /** The motor tick: wait_get if the robot waits at a picture. */
  function TickStatus(s: Status): Status {
    var t := s.(ticked := true);
    if !(s.waitGet && s.uartFlag && s.putFlag) then t
    else if !s.pickFlag then t.(ctrl := true)
    else t.(ctrl := true, waitGet := false, pickFlag := false, uartFlag := false, putFlag := false,
            departed := s.departed + 1)
  }

  function Next(s: Status, step: Step): Status {
    match step
    case Arrive => s.(waitGet := true)
    case HashFrame => s.(uartFlag := true, frames := s.frames + 1)
    case Tick => TickStatus(s)
    case StartGrab => s.(servo := Grabbing, started := s.started + 1)
    case RaisePick => s.(servo := Holding, pickFlag := true, ticked := false, grabbed := s.grabbed + 1)
    case RaisePut => s.(servo := Finishing, putFlag := true, puts := s.puts + 1)
    case ClearCtrl => s.(servo := Waiting, ctrl := false)
  }

  /** Who raises and who clears each flag: a departing tick, on which the waiting robot finds all
      three flags up, clears the four of them; beside that each flag has one step that raises it,
      and only ClearCtrl clears servo_flag_ctrl. */
  lemma FlagsChange(s: Status, step: Step)
    ensures
      var ready := step.Tick? && s.waitGet && s.uartFlag && s.putFlag;
      var leaves := ready && s.pickFlag;
      var t := Next(s, step);
      && (t.waitGet <==> step.Arrive? || (s.waitGet && !leaves))
      && (t.uartFlag <==> step.HashFrame? || (s.uartFlag && !leaves))
      && (t.putFlag <==> step.RaisePut? || (s.putFlag && !leaves))
      && (t.pickFlag <==> step.RaisePick? || (s.pickFlag && !leaves))
      && (t.ctrl <==> ready || (s.ctrl && !step.ClearCtrl?))
      && (t.departed == s.departed + if leaves then 1 else 0)
  {
  }

  /** What every step keeps as long as a tick falls between raising pick_flag and raising
      put_flag. */
  predicate Inv(s: Status) {
    && s.departed + (if s.uartFlag then 1 else 0) <= s.frames
    && match s.servo
       case Waiting =>
         && !s.pickFlag && s.putFlag && (s.ctrl ==> s.uartFlag && s.waitGet)
         && s.started == s.grabbed == s.departed == s.puts
       case Grabbing =>
         && !s.pickFlag && s.putFlag && s.uartFlag && s.waitGet && s.ctrl
         && s.started == s.grabbed + 1 == s.departed + 1 == s.puts + 1
       case Holding =>
         && s.ctrl && s.started == s.grabbed == s.puts + 1
         && if s.ticked then !s.pickFlag && !s.putFlag && s.departed == s.grabbed
            else s.pickFlag && s.putFlag && s.uartFlag && s.waitGet && s.departed + 1 == s.grabbed
       case Finishing =>
         && !s.pickFlag && s.putFlag && s.started == s.grabbed == s.departed == s.puts
  }

  /** A put raised before any tick has seen the pick. */
  predicate Missed(s: Status, step: Step) {
    step.RaisePut? && !s.ticked
  }

  /** The guard is exact: a step keeps the invariant unless it is a missed put, and a missed
      put always breaks it. */
  lemma StepKeepsInv(s: Status, step: Step)
    requires Inv(s) && Enabled(s, step)
    ensures Inv(Next(s, step)) <==> !Missed(s, step)
  {
  }

  // ---------- Runs ----------

  function Final(s: Status, steps: seq<Step>): Status {
    if steps == [] then s else Next(Final(s, steps[..|steps| - 1]), steps[|steps| - 1])
  }

  ghost predicate Run(s: Status, steps: seq<Step>) {
    steps == [] || (
      var init := steps[..|steps| - 1];
      Run(s, init) && Enabled(Final(s, init), steps[|steps| - 1]))
  }

  /** No put of the run is missed. */
  ghost predicate Timely(s: Status, steps: seq<Step>) {
    steps == [] || (
      var init := steps[..|steps| - 1];
      Timely(s, init) && !Missed(Final(s, init), steps[|steps| - 1]))
  }

  lemma {:induction false} RunKeepsInv(s: Status, steps: seq<Step>)
    requires Inv(s) && Run(s, steps) && Timely(s, steps)
    ensures Inv(Final(s, steps))
  {
    if steps != [] {
      RunKeepsInv(s, steps[..|steps| - 1]);
      StepKeepsInv(Final(s, steps[..|steps| - 1]), steps[|steps| - 1]);
    }
  }

  /** Over every timely run: each departure has used up one completed grab and one '#' frame
      of its own, and a grab starts only after the put before it, the departure before it and
      with a frame that no departure has used. */
  lemma TimelyRunIsSafe(steps: seq<Step>)
    requires Run(INITIAL, steps) && Timely(INITIAL, steps)
    ensures
      var s := Final(INITIAL, steps);
      && s.departed <= s.grabbed <= s.departed + 1
      && s.departed <= s.frames && s.started <= s.frames
      && s.puts <= s.started <= s.puts + 1
      && (s.servo.Waiting? && s.ctrl ==> s.uartFlag && s.puts == s.started == s.departed < s.frames)
  {
    RunKeepsInv(INITIAL, steps);
  }

  // ---------- Runs that are not timely ----------

  /** Where a missed put leads: from then on put_flag is low whenever a grab starts. */
  predicate OutOfStep(s: Status) {
    match s.servo
    case Waiting => if s.ctrl then !s.putFlag else s.putFlag == s.pickFlag
    case Grabbing => s.ctrl && !s.putFlag
    case Holding => s.ctrl && !s.putFlag && s.pickFlag
    case Finishing => s.putFlag == s.pickFlag
  }

  /** There is no way back into step. */
  lemma StepStaysOut(s: Status, step: Step)
    requires Enabled(s, step)
    ensures OutOfStep(s) ==> OutOfStep(Next(s, step))
    ensures Inv(s) && Missed(s, step) ==> OutOfStep(Next(s, step))
  {
  }

  /** Every run ends in step or out of step: in step exactly if it is timely. */
  lemma {:induction false} TimelyIffInStep(steps: seq<Step>)
    requires Run(INITIAL, steps)
    ensures Timely(INITIAL, steps) <==> Inv(Final(INITIAL, steps))
    ensures !Timely(INITIAL, steps) <==> OutOfStep(Final(INITIAL, steps))
  {
    hide Inv, OutOfStep, Next, Missed, Enabled;
    if steps == [] {
      InitiallyInStep();
    } else {
      var s, step := Final(INITIAL, steps[..|steps| - 1]), steps[|steps| - 1];
      TimelyIffInStep(steps[..|steps| - 1]);
      OutOrIn(s, step);
    }
  }

  lemma InitiallyInStep()
    ensures Inv(INITIAL) && !OutOfStep(INITIAL)
  {
  }

  lemma OutOrIn(s: Status, step: Step)
    requires Enabled(s, step) && (Inv(s) <==> !OutOfStep(s))
    ensures Inv(Next(s, step)) <==> Inv(s) && !Missed(s, step)
    ensures OutOfStep(Next(s, step)) <==> !Inv(Next(s, step))
  {
    hide Next, Missed, Enabled;
    if Inv(s) {
      StepKeepsInv(s, step);
    }
    StepStaysOut(s, step);
    NeverBoth(Next(s, step));
  }

  lemma NeverBoth(s: Status)
    ensures !(Inv(s) && OutOfStep(s))
  {
  }

  /** When a grab is about to start, put_flag is up if and only if no put of the run was
      missed. */
  lemma PutFlagIffTimely(steps: seq<Step>)
    requires Run(INITIAL, steps)
    requires Final(INITIAL, steps).servo.Waiting? && Final(INITIAL, steps).ctrl
    ensures Final(INITIAL, steps).putFlag <==> Timely(INITIAL, steps)
  {
    TimelyIffInStep(steps);
  }

  // ---------- From one grab to the next ----------

  /** The state in which step k of the run is taken. */
  function At(steps: seq<Step>, k: nat): Status
    requires k <= |steps|
  {
    Final(INITIAL, steps[..k])
  }

  lemma {:induction false} StepAt(steps: seq<Step>, k: nat)
    requires Run(INITIAL, steps) && k < |steps|
    ensures Run(INITIAL, steps[..k]) && Enabled(At(steps, k), steps[k])
    ensures Timely(INITIAL, steps) ==> Timely(INITIAL, steps[..k])
    ensures At(steps, k + 1) == Next(At(steps, k), steps[k])
  {
    var init := steps[..|steps| - 1];
    if k < |init| {
      StepAt(init, k);
      assert init[..k] == steps[..k] && init[..k + 1] == steps[..k + 1];
    } else {
      assert steps[..k + 1] == steps && steps[..k + 1][..k] == init;
    }
  }

  lemma AtStep(steps: seq<Step>, k: nat)
    requires Run(INITIAL, steps) && Timely(INITIAL, steps) && k < |steps|
    ensures Enabled(At(steps, k), steps[k]) && Inv(At(steps, k))
    ensures At(steps, k + 1) == Next(At(steps, k), steps[k])
  {
    StepAt(steps, k);
    RunKeepsInv(INITIAL, steps[..k]);
  }

  /** Step k is a tick on which the waiting robot departs, with its frame used up. */
  ghost predicate Departs(steps: seq<Step>, k: nat)
    requires k < |steps|
  {
    && steps[k].Tick? && At(steps, k + 1).departed == At(steps, k).departed + 1
    && At(steps, k).waitGet && !At(steps, k + 1).waitGet && !At(steps, k + 1).uartFlag
  }

  /** While no grab starts the count of them stays; it never falls. */
  lemma {:induction false} StartedStays(steps: seq<Step>, i: nat, j: nat)
    requires Run(INITIAL, steps) && Timely(INITIAL, steps) && i <= j <= |steps|
    ensures At(steps, i).started <= At(steps, j).started
    decreases j
  {
    if i < j {
      StartedStays(steps, i, j - 1);
      AtStep(steps, j - 1);
    }
  }

  /** A measure that is greater later rises at some step in between. */
  lemma {:induction false} RisesAt(steps: seq<Step>, i: nat, j: nat, measure: Status -> int) returns (k: nat)
    requires i <= j <= |steps| && measure(At(steps, i)) < measure(At(steps, j))
    ensures i <= k < j && measure(At(steps, k)) < measure(At(steps, k + 1))
    decreases j
  {
    hide At;
    if measure(At(steps, j - 1)) < measure(At(steps, j)) {
      k := j - 1;
    } else {
      k := RisesAt(steps, i, j - 1, measure);
    }
  }

  /** Between two grabs of a timely run the first is completed, then the robot departs, and
      after that it arrives at a picture, a new '#' frame comes and the put is finished. */
  lemma NewFrameForEachGrab(steps: seq<Step>, i: nat, j: nat)
    returns (grab: nat, departure: nat, arrive: nat, frame: nat, put: nat)
    requires Run(INITIAL, steps) && Timely(INITIAL, steps)
    requires i < j < |steps| && steps[i].StartGrab? && steps[j].StartGrab?
    ensures i < grab < departure < frame < j && departure < put < j && departure < arrive < j
    ensures steps[arrive].Arrive?
    ensures steps[grab].RaisePick? && Departs(steps, departure) && steps[frame].HashFrame? && steps[put].RaisePut?
  {
    hide At, Run, Timely;
    AtStep(steps, i);
    AtStep(steps, j);
    StartedStays(steps, i + 1, j);
    departure := RisesAt(steps, i + 1, j, (s: Status) => s.departed);
    AtStep(steps, departure);
    StartedStays(steps, i + 1, departure);
    grab := RisesAt(steps, i + 1, departure, (s: Status) => s.grabbed);
    AtStep(steps, grab);
    frame := RisesAt(steps, departure + 1, j, (s: Status) => if s.uartFlag then 1 else 0);
    AtStep(steps, frame);
    StartedStays(steps, departure + 1, j);
    put := RisesAt(steps, departure + 1, j, (s: Status) => s.puts);
    AtStep(steps, put);
    arrive := RisesAt(steps, departure + 1, j, (s: Status) => if s.waitGet then 1 else 0);
    AtStep(steps, arrive);
  }

  // ---------- Without the tick in time ----------

  /** After a missed put nothing heals: every later grab starts with put_flag low, and what
      started it is the robot's departure, the last since the grab before. */
  lemma {:induction false} MissedPutNeverHeals(steps: seq<Step>, k: nat, j: nat) returns (departure: nat)
    requires Run(INITIAL, steps) && k < j < |steps| && Missed(At(steps, k), steps[k])
    requires At(steps, j).servo.Waiting? && At(steps, j).ctrl
    ensures !At(steps, j).putFlag
    ensures k < departure < j && Departs(steps, departure)
    ensures forall i :: departure < i < j ==> !steps[i].StartGrab?
    decreases j
  {
    hide At, Run, Timely, Inv;
    OutAfterMissed(steps, k, j);
    StepAt(steps, k);
    StepAt(steps, j - 1);
    if At(steps, j - 1).ctrl {
      departure := MissedPutNeverHeals(steps, k, j - 1);
    } else {
      OutAfterMissed(steps, k, j - 1);
      departure := j - 1;
    }
  }

  lemma {:induction false} OutAfterMissed(steps: seq<Step>, k: nat, j: nat)
    requires Run(INITIAL, steps) && k < j <= |steps| && Missed(At(steps, k), steps[k])
    ensures OutOfStep(At(steps, j))
    decreases j
  {
    hide OutOfStep, Inv, Next, Missed, Enabled, Run, Timely;
    StepAt(steps, j - 1);
    TimelyIffInStep(steps[..j - 1]);
    OutOrIn(At(steps, j - 1), steps[j - 1]);
    if k < j - 1 {
      OutAfterMissed(steps, k, j - 1);
    }
  }

  /** The pickup as it is meant: afterwards the robot is on its way with the piece put away, and
      every flag is as it was. */
  const PICKUP: seq<Step> := [Arrive, HashFrame, Tick, StartGrab, RaisePick, Tick, RaisePut, ClearCtrl]

  lemma PickupCompletes()
    ensures Run(INITIAL, PICKUP) && Timely(INITIAL, PICKUP)
    ensures Final(INITIAL, PICKUP[..2]).waitGet && !Final(INITIAL, PICKUP[..6]).waitGet
    ensures Final(INITIAL, PICKUP) == Status(false, false, true, false, false, Waiting, true, 1, 1, 1, 1, 1)
  {
    hide Run, Final, Timely;
    NoSteps();
    var s := INITIAL;
    assert PICKUP[..0] == [];
    s := Then(PICKUP, 0, s);
    s := Then(PICKUP, 1, s);
    s := Then(PICKUP, 2, s);
    s := Then(PICKUP, 3, s);
    s := Then(PICKUP, 4, s);
    s := Then(PICKUP, 5, s);
    s := Then(PICKUP, 6, s);
    s := Then(PICKUP, 7, s);
    assert PICKUP[..8] == PICKUP;
    TimelyIffInStep(PICKUP);
  }

  const LATE: seq<Step> := [Arrive, HashFrame, Tick, StartGrab, RaisePick, RaisePut, ClearCtrl, Tick, StartGrab]

  /** Step k of a run that has led to s so far. */
  lemma Then(steps: seq<Step>, k: nat, s: Status) returns (t: Status)
    requires k < |steps| && Run(INITIAL, steps[..k]) && Final(INITIAL, steps[..k]) == s && Enabled(s, steps[k])
    ensures Run(INITIAL, steps[..k + 1]) && t == Final(INITIAL, steps[..k + 1]) == Next(s, steps[k])
  {
    assert steps[..k + 1][..k] == steps[..k];
    t := Next(s, steps[k]);
  }

  lemma NoSteps()
    ensures Run(INITIAL, []) && Final(INITIAL, []) == INITIAL
  {
  }

  /** Without the tick in time, one frame can lead to two grabs. */
  lemma MissedTickGrabsTwice()
    ensures Run(INITIAL, LATE) && Final(INITIAL, LATE).started == 2 && Final(INITIAL, LATE).frames == 1
  {
    hide Run, Final;
    NoSteps();
    var s := INITIAL;
    assert LATE[..0] == [];
    s := Then(LATE, 0, s);
    s := Then(LATE, 1, s);
    s := Then(LATE, 2, s);
    s := Then(LATE, 3, s);
    s := Then(LATE, 4, s);
    s := Then(LATE, 5, s);
    s := Then(LATE, 6, s);
    s := Then(LATE, 7, s);
    s := Then(LATE, 8, s);
    assert LATE[..9] == LATE;
  }

  /** ... or, if the late tick falls before servo_flag_ctrl is cleared, to none ever again. */
  predicate Stuck(s: Status) {
    s.servo.Waiting? && !s.ctrl && !s.putFlag
  }

  lemma {:induction false} StuckForEver(s: Status, steps: seq<Step>)
    requires Stuck(s) && Run(s, steps)
    ensures Stuck(Final(s, steps)) && Final(s, steps).started == s.started
  {
    if steps != [] {
      StuckForEver(s, steps[..|steps| - 1]);
    }
  }

  lemma MissedTickCanStick(s: Status)
    requires Inv(s) && s.servo.Holding? && !s.ticked
    ensures
      var t := Next(Next(Next(s, RaisePut), Tick), ClearCtrl);
      Enabled(s, RaisePut) && Enabled(Next(Next(s, RaisePut), Tick), ClearCtrl) && Stuck(t)
  {
  }

  // ---------- The flags in the shared record ----------

  class Car {
    var motion: int
    var uartFlag: bool
    var putFlag: bool
    var pickFlag: bool
    var servoFlagCtrl: bool

    /** The servo thread's place in its loop. */
    var servo: ServoAt

    /** The counts. */
    ghost var rest: Status

    ghost function Abs(): Status
      reads this
    {
      rest.(waitGet := motion == 13, uartFlag := uartFlag, putFlag := putFlag, pickFlag := pickFlag,
            ctrl := servoFlagCtrl, servo := servo)
    }

    constructor ()
      ensures Abs() == INITIAL
    {
      motion := 0;
      putFlag := true;
      pickFlag := false;
      uartFlag := false;
      servoFlagCtrl := false;
      servo := Waiting;
      rest := INITIAL;
    }

    /** The motor tick. */
    method MotorTick()
      modifies this
      ensures Abs() == Next(old(Abs()), Tick)
    {
      rest := rest.(ticked := true);
      if motion == 13 {
        WaitGet();
      }
    }

    method WaitGet()
      requires motion == 13 && rest.ticked
      modifies this
      ensures Abs() == Next(old(Abs()), Tick)
    {
      if uartFlag && putFlag {
        servoFlagCtrl := true;
        if pickFlag {
          motion := 1;
          pickFlag := false;
          uartFlag := false;
          putFlag := false;
          rest := rest.(departed := rest.departed + 1);
        }
      }
    }

    /** The robot has reached a picture. */
    method OnArrival()
      requires motion != 13
      modifies this
      ensures Abs() == Next(old(Abs()), Arrive)
    {
      motion := 13;
    }

    /** The end of the '#' branch of data_analysis. */
    method OnHashFrame()
      modifies this
      ensures Abs() == Next(old(Abs()), HashFrame)
    {
      uartFlag := true;
      rest := rest.(frames := rest.frames + 1);
    }

    /** The servo thread up to its next access to a flag, in a pickup case. Nothing happens
        only while it waits for servo_flag_ctrl. */
    method ServoTurn()
      modifies this
      ensures
        var s := old(Abs());
        Abs() ==
          if s.servo.Waiting? then (if s.ctrl then Next(s, StartGrab) else s)
          else if s.servo.Grabbing? then Next(s, RaisePick)
          else if s.servo.Holding? then Next(s, RaisePut)
          else Next(s, ClearCtrl)
    {
      match servo
      case Waiting =>
        if servoFlagCtrl {
          servo := Grabbing;
          rest := rest.(started := rest.started + 1);
        }
      case Grabbing =>
        pickFlag := true;
        servo := Holding;
        rest := rest.(ticked := false, grabbed := rest.grabbed + 1);
      case Holding =>
        putFlag := true;
        servo := Finishing;
        rest := rest.(puts := rest.puts + 1);
      case Finishing =>
        servoFlagCtrl := false;
        servo := Waiting;
    }
  }
}
