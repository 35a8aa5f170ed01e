/** The morph clock of the component: a click handler that bumps a click
    counter and starts the animation, and a per-frame callback that publishes
    the current simulated time to the simulation shader's `uTime` uniform and
    then advances the time by 0.01 while it is below `peakTime * clicks`.
    `peakTime` is the module constant `uTime` (pi / 2 / 0.35), kept here as an
    arbitrary positive real. */
module AnimationClock {

  /** The time added by one animated frame. */
  const Step: real := 0.01

  /** The clock's state: the simulated time, the click counter, the
      animating flag and the value last published to the shader. */
  datatype ClockState = ClockState(time: real, clicks: nat, animating: bool, published: real)

  /** Before any click or frame: time 0, one click counted, not animating,
      and the uniform still at its initial 0. */
  function Initial(): ClockState
  {
    ClockState(0.0, 1, false, 0.0)
  }

  /** The time the animation runs up to: `peakTime * clicks`. */
  function Target(s: ClockState, peakTime: real): real
  {
    peakTime * s.clicks as real
  }

  /** `handleClick`. */
  function Click(s: ClockState): ClockState
  {
    s.(clicks := s.clicks + 1, animating := true)
  }

  /** The time step of the frame callback: publish, then advance. */
  function Frame(s: ClockState, peakTime: real): ClockState
  {
    var published := s.(published := s.time);
    if s.animating && s.time < Target(s, peakTime) then published.(time := s.time + Step)
    else published
  }

  /** What every reachable state satisfies: at least one click counted, the
      time between 0 and one step past the target, the published value
      never ahead of the time, and before the first click nothing has moved. */
  predicate Inv(s: ClockState, peakTime: real)
  {
    s.clicks >= 1
    && 0.0 <= s.published <= s.time < Target(s, peakTime) + Step
    && (!s.animating ==> s.time == 0.0 && s.published == 0.0 && s.clicks == 1)
  }

  lemma TargetAfterClick(s: ClockState, peakTime: real)
    ensures Target(Click(s), peakTime) == Target(s, peakTime) + peakTime
  {
    var c := s.clicks as real;
    assert Click(s).clicks as real == c + 1.0;
    assert peakTime * (c + 1.0) == peakTime * c + peakTime;
  }

  /** The initial state is a reachable state. */
  lemma InitialInv(peakTime: real)
    requires peakTime > 0.0
    ensures Inv(Initial(), peakTime)
    ensures Target(Initial(), peakTime) == peakTime
  {
  }

  /** A click adds exactly one to the counter and sets the flag; the time and
      the published value are untouched. */
  lemma ClickEffect(s: ClockState, peakTime: real)
    ensures Click(s).clicks == s.clicks + 1
    ensures Click(s).animating
    ensures Click(s).time == s.time && Click(s).published == s.published
    ensures Target(Click(s), peakTime) == Target(s, peakTime) + peakTime
  {
    TargetAfterClick(s, peakTime);
  }

  lemma ClickPreservesInv(s: ClockState, peakTime: real)
    requires peakTime > 0.0 && Inv(s, peakTime)
    ensures Inv(Click(s), peakTime)
  {
    TargetAfterClick(s, peakTime);
  }

  /** One frame publishes the time it starts from, keeps the counter and the
      flag, and either adds exactly one step (animating and below the
      target) or leaves the time alone; so the time never decreases. */
  lemma FrameEffect(s: ClockState, peakTime: real)
    ensures Frame(s, peakTime).published == s.time
    ensures Frame(s, peakTime).clicks == s.clicks && Frame(s, peakTime).animating == s.animating
    ensures Target(Frame(s, peakTime), peakTime) == Target(s, peakTime)
    ensures s.animating && s.time < Target(s, peakTime) ==> Frame(s, peakTime).time == s.time + Step
    ensures !(s.animating && s.time < Target(s, peakTime)) ==> Frame(s, peakTime).time == s.time
    ensures Frame(s, peakTime).time >= s.time
  {
  }

  lemma FramePreservesInv(s: ClockState, peakTime: real)
    requires Inv(s, peakTime)
    ensures Inv(Frame(s, peakTime), peakTime)
  {
    FrameEffect(s, peakTime);
  }

  /** The events the component reacts to. */
  datatype Event = Clicked | Rendered

  function Apply(s: ClockState, e: Event, peakTime: real): ClockState
  {
    match e
    case Clicked => Click(s)
    case Rendered => Frame(s, peakTime)
  }

  /** The state after a sequence of events, starting from `Initial()`. */
  function Run(events: seq<Event>, peakTime: real): ClockState
    decreases |events|
  {
    if |events| == 0 then Initial()
    else Apply(Run(events[..|events| - 1], peakTime), events[|events| - 1], peakTime)
  }

  /** Every reachable state satisfies the invariant; in particular the time
      never exceeds `peakTime * clicks + 0.01`. */
  lemma {:induction false} RunInv(events: seq<Event>, peakTime: real)
    requires peakTime > 0.0
    ensures Inv(Run(events, peakTime), peakTime)
    ensures Run(events, peakTime).time < peakTime * Run(events, peakTime).clicks as real + Step
  {
    if |events| == 0 {
      InitialInv(peakTime);
    } else {
      var before := Run(events[..|events| - 1], peakTime);
      RunInv(events[..|events| - 1], peakTime);
      match events[|events| - 1]
      case Clicked => ClickPreservesInv(before, peakTime);
      case Rendered => FramePreservesInv(before, peakTime);
    }
  }

  /** No event makes the time go back, and no event other than a frame
      changes it. */
  lemma RunMonotone(events: seq<Event>, e: Event, peakTime: real)
    ensures Run(events + [e], peakTime).time >= Run(events, peakTime).time
    ensures e == Clicked ==> Run(events + [e], peakTime).time == Run(events, peakTime).time
  {
    assert (events + [e])[..|events|] == events;
    FrameEffect(Run(events, peakTime), peakTime);
  }

  /** `n` consecutive frames. */
  function Frames(s: ClockState, peakTime: real, n: nat): ClockState
    decreases n
  {
    if n == 0 then s else Frames(Frame(s, peakTime), peakTime, n - 1)
  }

  /** The least integer not below `x`. */
  function Ceil(x: real): int
  {
    -((-x).Floor)
  }

  /** The number of animated frames until the time reaches the target. */
  function StepsToReach(s: ClockState, peakTime: real): nat
  {
    if s.time >= Target(s, peakTime) then 0
    else Ceil((Target(s, peakTime) - s.time) / Step)
  }

  lemma CeilBounds(x: real)
    ensures x <= Ceil(x) as real < x + 1.0
  {
  }

  /** An animated frame below the target brings it one frame closer. */
  lemma StepsAfterFrame(s: ClockState, peakTime: real)
    requires s.animating && s.time < Target(s, peakTime)
    ensures StepsToReach(s, peakTime) >= 1
    ensures StepsToReach(Frame(s, peakTime), peakTime) == StepsToReach(s, peakTime) - 1
  {
    FrameEffect(s, peakTime);
    var gap := Target(s, peakTime) - s.time;
    var next := Frame(s, peakTime);
    assert Target(next, peakTime) - next.time == gap - Step;
    assert (gap - Step) / Step == gap / Step - 1.0;
    assert Ceil(gap / Step - 1.0) == Ceil(gap / Step) - 1;
    CeilBounds(gap / Step);
  }

  /** While animating, the time after `n` frames is the starting time plus
      one step for each frame until the target is reached, and none after. */
  lemma {:induction false} FramesTime(s: ClockState, peakTime: real, n: nat)
    requires s.animating
    decreases n
    ensures Frames(s, peakTime, n).clicks == s.clicks && Frames(s, peakTime, n).animating
    ensures Frames(s, peakTime, n).time
         == s.time + Step * (if n < StepsToReach(s, peakTime) then n else StepsToReach(s, peakTime)) as real
  {
    if n > 0 {
      var next := Frame(s, peakTime);
      FrameEffect(s, peakTime);
      FramesTime(next, peakTime, n - 1);
      if s.time < Target(s, peakTime) {
        StepsAfterFrame(s, peakTime);
      }
    }
  }

  /** Once enough frames have passed, the animated time has settled within
      one step at or above the target. */
  lemma FramesSettle(s: ClockState, peakTime: real, n: nat)
    requires s.animating && Inv(s, peakTime) && n >= StepsToReach(s, peakTime)
    ensures Target(s, peakTime) <= Frames(s, peakTime, n).time < Target(s, peakTime) + Step
  {
    FramesTime(s, peakTime, n);
    var k := StepsToReach(s, peakTime);
    if s.time < Target(s, peakTime) {
      var gap := Target(s, peakTime) - s.time;
      CeilBounds(gap / Step);
      assert gap / Step <= k as real < gap / Step + 1.0;
      assert gap <= Step * k as real < gap + Step;
    }
  }

  /** Without a click, frames publish and keep the time 0. */
  lemma {:induction false} NoClickStaysStill(peakTime: real, n: nat)
    decreases n
    ensures Frames(Initial(), peakTime, n) == Initial()
  {
    if n > 0 {
      assert Frame(Initial(), peakTime) == Initial();
      NoClickStaysStill(peakTime, n - 1);
    }
  }

  /** After the first click the time climbs by 0.01 per frame and settles
      within one step at or above `2 * peakTime`: the counter starts at 1
      and the first click makes it 2. */
  lemma FirstClickTarget(peakTime: real, n: nat)
    requires peakTime > 0.0 && n >= StepsToReach(Click(Initial()), peakTime)
    ensures Target(Click(Initial()), peakTime) == 2.0 * peakTime
    ensures 2.0 * peakTime <= Frames(Click(Initial()), peakTime, n).time < 2.0 * peakTime + Step
  {
    InitialInv(peakTime);
    ClickPreservesInv(Initial(), peakTime);
    FramesSettle(Click(Initial()), peakTime, n);
  }

  /** The component's clock state, updated in place by its two callbacks. */
  class Clock {
    const peakTime: real
    var time: real
    var clicks: nat
    var animating: bool
    /** The shader's `uTime` uniform. */
    var uniformTime: real

    function State(): ClockState
      reads this
    {
      ClockState(time, clicks, animating, uniformTime)
    }

    ghost predicate Valid()
      reads this
    {
      peakTime > 0.0 && Inv(State(), peakTime)
    }

    constructor (peakTime: real)
      requires peakTime > 0.0
      ensures this.peakTime == peakTime
      ensures State() == Initial()
      ensures Valid()
    {
      this.peakTime := peakTime;
      time := 0.0;
      clicks := 1;
      animating := false;
      uniformTime := 0.0;
      new;
      InitialInv(peakTime);
    }

    /** `handleClick`. */
    method HandleClick()
      requires Valid()
      modifies this
      ensures State() == Click(old(State()))
      ensures Valid()
    {
      ghost var before := State();
      clicks := clicks + 1;
      animating := true;
      ClickPreservesInv(before, peakTime);
    }

    /** The time step of the frame callback. */
    method OnFrame()
      requires Valid()
      modifies this
      ensures State() == Frame(old(State()), peakTime)
      ensures Valid()
    {
      ghost var before := State();
      uniformTime := time;
      if animating {
        if time < peakTime * clicks as real {
          var temp := time + Step;
          time := temp;
        }
      }
      FramePreservesInv(before, peakTime);
    }
  }
}
