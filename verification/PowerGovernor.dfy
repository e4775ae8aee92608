/** The recommendation of a power domain: thresholds, counts and hysteresis. */
module PowerGovernor {
  import opened PowerStates

  const UINT16 := 0x1_0000

  /** Indexed by the state to enter minus one, the state to leave minus one, and the state to enter
      minus one. */
  datatype Limits = Limits(enter: seq<int>, exit: seq<int>, count: seq<nat>)

  predicate Configured(l: Limits) {
    && |l.enter| == 3 && |l.exit| == 3 && |l.count| == 3
    && (forall i :: 0 <= i < 3 ==> l.enter[i] < l.exit[i] && l.count[i] < UINT16)
  }

  datatype Control = Control(state: nat, recommended: nat, thrcnt: nat)

  predicate InRange(c: Control) {
    c.state <= PM_SLEEP && c.recommended <= PM_SLEEP && c.thrcnt < UINT16 - 1
  }

  /** Activity above the exit threshold of the current state or the enter threshold of the next. */
  predicate Busy(l: Limits, c: Control, y: int)
    requires Configured(l) && InRange(c)
  {
    || (c.state > PM_NORMAL && y > l.exit[c.state - 1])
    || (c.state < PM_SLEEP && y > l.enter[c.state])
  }

  /** The assessment half of `pm_worker`. */
  function Assess(l: Limits, c: Control, y: int): Control
    requires Configured(l) && InRange(c)
  {
    if c.state > PM_NORMAL && y > l.exit[c.state - 1] then c.(thrcnt := 0, recommended := PM_NORMAL)
    else if c.state == PM_SLEEP then c
    else if y > l.enter[c.state] then c.(thrcnt := 0, recommended := c.state)
    else if c.recommended >= c.state + 1 then c
    else
      var n := (c.thrcnt + 1) % UINT16;
      if n >= l.count[c.state] then c.(thrcnt := 0, recommended := c.state + 1) else c.(thrcnt := n)
  }

  /** An update with the averaged activity, or a state change that the drivers accepted. */
  datatype Event = Update(y: int) | Change(target: nat)

  function Next(l: Limits, c: Control, e: Event): Control
    requires Configured(l) && InRange(c)
  {
    match e
    case Update(y) => Assess(l, c, y)
    case Change(target) => c.(state := target)
  }

  /** Quiet updates since the last busy one. */
  function Quiet(l: Limits, c: Control, quiet: nat, e: Event): nat
    requires Configured(l) && InRange(c)
  {
    match e
    case Update(y) => if Busy(l, c, y) then 0 else quiet + 1
    case Change(_) => quiet
  }

  predicate Targets(events: seq<Event>) {
    forall i :: 0 <= i < |events| && events[i].Change? ==> events[i].target <= PM_SLEEP
  }

  lemma NextInRange(l: Limits, c: Control, e: Event)
    requires Configured(l) && InRange(c) && (e.Change? ==> e.target <= PM_SLEEP)
    ensures InRange(Next(l, c, e))
  {
  }

  function Run(l: Limits, c: Control, events: seq<Event>): (r: Control)
    requires Configured(l) && InRange(c) && Targets(events)
    ensures InRange(r)
    decreases |events|
  {
    if events == [] then c
    else
      var k := |events| - 1;
      NextInRange(l, Run(l, c, events[..k]), events[k]);
      Next(l, Run(l, c, events[..k]), events[k])
  }

  function QuietRun(l: Limits, c: Control, events: seq<Event>): nat
    requires Configured(l) && InRange(c) && Targets(events)
    decreases |events|
  {
    if events == [] then 0
    else
      var k := |events| - 1;
      Quiet(l, Run(l, c, events[..k]), QuietRun(l, c, events[..k]), events[k])
  }

  /** In every run, whatever state changes occur, the count never exceeds the number of quiet updates
      since the last busy one. */
  lemma {:induction false} CountIsQuiet(l: Limits, c: Control, events: seq<Event>)
    requires Configured(l) && InRange(c) && c.thrcnt == 0 && Targets(events)
    ensures Run(l, c, events).thrcnt <= QuietRun(l, c, events)
    decreases |events|
  {
    if events != [] { CountIsQuiet(l, c, events[..|events| - 1]); }
  }

  /** A state deeper than the current one is newly recommended only as the next level down, and only
      after as many quiet updates in a row as that level asks for. */
  lemma DeeperOnlyAfterQuiet(l: Limits, c: Control, events: seq<Event>, y: int)
    requires Configured(l) && InRange(c) && c.thrcnt == 0 && Targets(events)
    ensures
      var before := Run(l, c, events);
      var after := Assess(l, before, y);
      after.recommended > before.state && after.recommended != before.recommended ==>
        && after.recommended == before.state + 1
        && !Busy(l, before, y)
        && QuietRun(l, c, events) + 1 >= l.count[before.state]
  {
    CountIsQuiet(l, c, events);
  }

  /** Each change moves to the state recommended at that point. */
  predicate Obedient(l: Limits, c: Control, events: seq<Event>)
    requires Configured(l) && InRange(c) && Targets(events)
    decreases |events|
  {
    events == [] ||
    (var k := |events| - 1;
     Obedient(l, c, events[..k]) &&
     (events[k].Change? ==> events[k].target == Run(l, c, events[..k]).recommended))
  }

  /** If every change follows the recommendation, it never leads by more than one level. */
  lemma {:induction false} RecommendationLeadsByOne(l: Limits, c: Control, events: seq<Event>)
    requires Configured(l) && InRange(c) && Targets(events) && c.recommended <= c.state + 1
    requires Obedient(l, c, events)
    ensures Run(l, c, events).recommended <= Run(l, c, events).state + 1
    decreases |events|
  {
    if events != [] { RecommendationLeadsByOne(l, c, events[..|events| - 1]); }
  }

  lemma RunThenUpdate(l: Limits, c: Control, events: seq<Event>, y: int)
    requires Configured(l) && InRange(c) && Targets(events)
    ensures Targets(events + [Update(y)])
    ensures Run(l, c, events + [Update(y)]) == Assess(l, Run(l, c, events), y)
    ensures Busy(l, Run(l, c, events), y) ==> QuietRun(l, c, events + [Update(y)]) == 0
  {
    assert (events + [Update(y)])[..|events|] == events;
  }

  lemma BusyAssessed(l: Limits, b: Control, y: int)
    requires Configured(l) && InRange(b) && b.state < PM_SLEEP && y > l.enter[b.state]
    ensures Assess(l, b, y).state == b.state && Assess(l, b, y).thrcnt == 0
    ensures Assess(l, b, y).recommended ==
      if b.state > PM_NORMAL && y > l.exit[b.state - 1] then PM_NORMAL else b.state
  {
  }

  /** Activity above the threshold for going deeper withdraws any deeper recommendation at once, after
      any run, and quiet counts from zero. */
  lemma BusyWithdraws(l: Limits, c: Control, events: seq<Event>, y: int)
    requires Configured(l) && InRange(c) && Targets(events)
    requires var b := Run(l, c, events); b.state < PM_SLEEP && y > l.enter[b.state]
    ensures Targets(events + [Update(y)])
    ensures var b, a := Run(l, c, events), Run(l, c, events + [Update(y)]);
      && a.state == b.state && a.thrcnt == 0
      && a.recommended == if b.state > PM_NORMAL && y > l.exit[b.state - 1] then PM_NORMAL else b.state
    ensures QuietRun(l, c, events + [Update(y)]) == 0
  {
    RunThenUpdate(l, c, events, y);
    BusyAssessed(l, Run(l, c, events), y);
  }

  /** In the deepest state, and once the next level is recommended, quiet updates change nothing. */
  lemma QuietKeeps(l: Limits, c: Control, y: int)
    requires Configured(l) && InRange(c) && !Busy(l, c, y)
    requires c.state == PM_SLEEP || c.recommended > c.state
    ensures Assess(l, c, y) == c
  {
  }

  // ----- progress -----

  predicate AllQuiet(l: Limits, s: nat, events: seq<Event>)
    requires Configured(l) && s < PM_SLEEP
  {
    forall i :: 0 <= i < |events| ==> events[i].Update? && !Busy(l, Control(s, s, 0), events[i].y)
  }

  /** `n` quiet updates in state `c.state` after `c`: they are counted up to the configured number, and
      then the next level is recommended and the count restarts. */
  function Settling(l: Limits, c: Control, n: nat): Control
    requires Configured(l) && c.state < PM_SLEEP
  {
    if n == 0 then c
    else if c.thrcnt + n < l.count[c.state] then c.(thrcnt := c.thrcnt + n)
    else Control(c.state, c.state + 1, 0)
  }

  lemma QuietStep(l: Limits, c: Control, n: nat, y: int)
    requires Configured(l) && InRange(c) && c.state < PM_SLEEP && c.recommended <= c.state
    requires !Busy(l, Control(c.state, c.state, 0), y)
    ensures InRange(Settling(l, c, n)) && Assess(l, Settling(l, c, n), y) == Settling(l, c, n + 1)
  {
  }

  /** As long as no deeper level is recommended, quiet updates recommend the next one after exactly as
      many of them as the count still lacks, at least one, and from then on keep to it. */
  lemma {:induction false} QuietRecommendsExactly(l: Limits, c: Control, events: seq<Event>)
    requires Configured(l) && InRange(c) && c.state < PM_SLEEP && c.recommended <= c.state
    requires AllQuiet(l, c.state, events)
    ensures Run(l, c, events) == Settling(l, c, |events|)
    decreases |events|
  {
    if events != [] {
      var k := |events| - 1;
      QuietRecommendsExactly(l, c, events[..k]);
      QuietStep(l, c, k, events[k].y);
    }
  }

  /** Activity above the exit threshold recommends full power at once, and quiet counts from zero. */
  lemma BusyWakesUp(l: Limits, c: Control, events: seq<Event>, y: int)
    requires Configured(l) && InRange(c) && Targets(events)
    requires var b := Run(l, c, events); b.state > PM_NORMAL && y > l.exit[b.state - 1]
    ensures var b := Run(l, c, events + [Update(y)]); b.recommended == PM_NORMAL && b.thrcnt == 0
    ensures QuietRun(l, c, events + [Update(y)]) == 0
  {
    assert (events + [Update(y)])[..|events|] == events;
  }
}
