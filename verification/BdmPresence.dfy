/** The page of one block device of src/bdmsupport.c: when a refresh polls the device, and when a missing
    device loses its page. What the device and the settings answer is a parameter of every step. */
module BdmPresence {
  import opened Wrappers

  const NET_HIDE_MISSES: nat := 5
  const LOCAL_HIDE_MISSES: nat := 2

  datatype Kind = USB | ILINK | SDC | ATA | UDPBD | Unclassified

  /** What one refresh finds: the settings, the event generation, whether the user changed the view, and
      what opening the device and asking for its driver would give. */
  datatype Env = Env(stopped: bool, off: bool, enabled: set<Kind>, generation: int, dirty: bool,
                     present: bool, driver: Option<Kind>)

  /** `identity` is the driver read when the device was first seen, `scanned` whether a list was ever read. */
  datatype Page = Page(visible: bool, misses: nat, tick: int, scanned: bool, force: bool,
                       identity: Option<Kind>, folders: bool)

  datatype Outcome = Quiet | Rebuild | Connected | Gone | Examine

  const NEW := Page(false, 0, -1, false, false, None, false)

  function KindOf(p: Page): Kind {
    if p.identity.Some? then p.identity.value else Unclassified
  }

  function Threshold(k: Kind): nat {
    if k == UDPBD then NET_HIDE_MISSES else LOCAL_HIDE_MISSES
  }

  /** bdmTransportEnabled says 0; an unclassified device is never held back. */
  predicate Disabled(k: Kind, env: Env) {
    k != Unclassified && k !in env.enabled
  }

  // ----- one poll -------------------------------------------------------------------------------

  function Polled(p: Page, env: Env): (Page, Outcome) {
    if env.stopped then (p, Quiet)
    else if env.present then Found(p.(misses := 0), env)
    else if p.visible then Missed(p)
    else (p, Quiet)
  }

  function Found(p: Page, env: Env): (Page, Outcome) {
    if !p.visible && KindOf(p) != Unclassified && p.scanned then (p.(visible := true), Quiet)
    else if !p.visible || KindOf(p) == Unclassified then
      match env.driver
      case None => (p, Quiet)
      case Some(k) =>
        var q := p.(identity := Some(k), folders := false);
        if Disabled(k, env) || (env.off && k != UDPBD) then (q, Quiet) else (q.(visible := true), Connected)
    else (p, Quiet)
  }

  function Missed(p: Page): (Page, Outcome) {
    if p.misses + 1 < Threshold(KindOf(p)) then (p.(misses := p.misses + 1), Quiet)
    else (p.(visible := false, folders := false, misses := 0), Gone)
  }

  // ----- one refresh ----------------------------------------------------------------------------

  /** A page whose transport was switched off is hidden without a poll. */
  function Filtered(p: Page, env: Env): Page {
    if p.visible && Disabled(KindOf(p), env) then p.(visible := false) else p
  }

  /** Nothing happened since the last poll: a page that is hidden, or that misses nothing, is left alone. */
  predicate Gated(p: Page, env: Env) {
    p.tick == env.generation && p.scanned && (!p.visible || p.misses == 0)
  }

  predicate Polls(p: Page, env: Env) {
    !env.stopped && !p.force && !env.dirty && !Gated(Filtered(p, env), env)
  }

  function Refreshed(p: Page, env: Env): (Page, Outcome) {
    if env.stopped then (p, Quiet)
    else if p.force then (p.(force := false), Rebuild)
    else if env.dirty then (Filtered(p, env), Rebuild)
    else if Gated(Filtered(p, env), env) then (Filtered(p, env), Quiet)
    else AfterPoll(Polled(Filtered(p, env).(tick := env.generation), env))
  }

  /** A device without news is left alone, unless it is published and was never scanned. */
  function AfterPoll(r: (Page, Outcome)): (Page, Outcome) {
    if r.1 == Gone then r
    else if r.1 == Quiet && !(r.0.visible && r.0.identity.Some? && !r.0.scanned) then r
    else (r.0.(folders := r.0.folders || r.0.identity.Some?), if r.1 == Quiet then Examine else r.1)
  }

  /** The per-device record, updated in place. */
  class Device {
    var visible: bool
    var misses: nat
    var tick: int
    var scanned: bool
    var force: bool
    var identity: Option<Kind>
    var folders: bool

    function State(): Page
      reads this
    {
      Page(visible, misses, tick, scanned, force, identity, folders)
    }

    constructor ()
      ensures State() == NEW
    {
      visible, misses, tick, scanned, force, identity, folders := false, 0, -1, false, false, None, false;
    }

    /** bdmUpdateDeviceData */
    method UpdateDeviceData(env: Env) returns (outcome: Outcome)
      modifies this
      ensures (State(), outcome) == Polled(old(State()), env)
    {
      if env.stopped { return Quiet; }
      var kind := if identity.Some? then identity.value else Unclassified;
      if env.present { misses := 0; }
      if env.present && !visible && kind != Unclassified && scanned {
        visible := true;
        return Quiet;
      }
      if env.present && (!visible || kind == Unclassified) {
        if env.driver.None? { return Quiet; }
        folders, identity := false, env.driver;
        if Disabled(env.driver.value, env) { return Quiet; }
        if env.off && env.driver.value != UDPBD { return Quiet; }
        visible := true;
        return Connected;
      } else if !env.present && visible {
        misses := misses + 1;
        if misses < (if kind == UDPBD then NET_HIDE_MISSES else LOCAL_HIDE_MISSES) { return Quiet; }
        visible, folders, misses := false, false, 0;
        return Gone;
      }
      return Quiet;
    }

    method HideDisabled(env: Env)
      modifies this
      ensures State() == Filtered(old(State()), env)
    {
      if visible && Disabled(if identity.Some? then identity.value else Unclassified, env) { visible := false; }
    }

    /** bdmNeedsUpdate, up to the point where the game folders are looked at */
    method NeedsUpdate(env: Env) returns (outcome: Outcome)
      modifies this
      ensures (State(), outcome) == Refreshed(old(State()), env)
    {
      if env.stopped { return Quiet; }
      if force {
        force := false;
        return Rebuild;
      }
      HideDisabled(env);
      if env.dirty { return Rebuild; }
      if tick == env.generation && scanned {
        if !visible { return Quiet; }
        if misses == 0 { return Quiet; }
      }
      tick := env.generation;
      outcome := UpdateDeviceData(env);
      if outcome == Quiet && !(!scanned && identity.Some? && visible) { return; }
      if outcome == Gone { return; }
      if !folders && identity.Some? { folders := true; }
      if outcome == Quiet { outcome := Examine; }
    }
  }

  // ----- what is shown --------------------------------------------------------------------------

  /** A hidden page comes up on a poll exactly when its device answers and either a list was published of it
      before, or its driver is known now, is switched on, and block devices are not off as a whole, which
      only spares the network device. */
  lemma ShownIff(p: Page, env: Env)
    requires !p.visible
    ensures Polled(p, env).0.visible <==>
            && !env.stopped && env.present
            && (|| (p.scanned && p.identity !in {None, Some(Unclassified)})
                || (&& env.driver.Some? && (env.driver.value in env.enabled || env.driver == Some(Unclassified))
                    && (env.off ==> env.driver == Some(UDPBD))))
  {
  }

  /** A device that is seen for the first time is remembered, shown or not. */
  lemma FirstSightIsKept(p: Page, env: Env)
    requires !p.visible && !p.scanned && !env.stopped && env.present && env.driver.Some?
    ensures Polled(p, env).0.identity == env.driver && !Polled(p, env).0.folders
    ensures Polled(p, env).1 == if Polled(p, env).0.visible then Connected else Quiet
  {
  }

  /** The page of a device whose transport is off, after a refresh: a list published before brings it up again
      whenever the generation has moved, because only a first sight looks at the switch. */
  lemma SwitchedOffShownIff(p: Page, env: Env)
    requires p.identity.Some? && p.identity.value != Unclassified && p.identity.value !in env.enabled
    requires p.scanned && !p.force && !env.stopped && !env.dirty
    ensures Refreshed(p, env).0.visible <==> env.present && p.tick != env.generation
  {
  }

  /** So it flashes: one refresh brings it up, and the next one hides it. */
  lemma SwitchedOffFlashes(p: Page, env: Env)
    requires p.identity.Some? && p.identity.value != Unclassified && p.identity.value !in env.enabled
    requires p.scanned && !p.force && !env.stopped && !env.dirty && env.present && p.tick != env.generation
    ensures var q := Refreshed(p, env).0;
            q.visible && !Refreshed(q, env).0.visible
  {
    SwitchedOffShownIff(p, env);
    SwitchedOffShownIff(Refreshed(p, env).0, env);
  }

  /** The other answers of a refresh. */
  lemma RefreshAnswers(p: Page, env: Env)
    ensures !env.stopped && p.force ==> Refreshed(p, env) == (p.(force := false), Rebuild)
    ensures env.stopped ==> Refreshed(p, env) == (p, Quiet)
    ensures !env.stopped && !p.force && env.dirty ==> Refreshed(p, env).1 == Rebuild
    // a page that was shown and scanned in this generation and missed nothing is not looked at again
    ensures !p.force && p.scanned && p.misses == 0 && p.tick == env.generation && !env.dirty ==>
              Refreshed(p, env).1 == Quiet && Refreshed(p, env).0.misses == 0
    // a published page of which no list was read is looked at until one is
    ensures !env.stopped && !p.force && !env.dirty && p.visible && !p.scanned && p.identity.Some? && env.present &&
            p.identity.value in env.enabled && p.identity.value != Unclassified ==>
              Refreshed(p, env).1 == Examine
  {
  }

  /** What a refresh leaves behind: a device that is connected or to be examined has its driver and has had its
      folders looked for; one that is gone is hidden, without folders and without misses. */
  lemma RefreshLeaves(p: Page, env: Env)
    ensures var (q, outcome) := Refreshed(p, env);
            && (outcome == Connected ==> q.visible && q.folders && q.identity == env.driver && q.misses == 0)
            && (outcome == Examine ==> q.visible && q.folders && q.identity.Some? && !q.scanned)
            && (outcome == Gone ==> !q.visible && !q.folders && q.misses == 0 && q.identity == p.identity)
            && (outcome == Quiet && !env.stopped && Polls(p, env) ==> !q.visible || q.scanned || q.identity.None?)
            && (outcome == Quiet && q.folders ==> p.folders)
  {
  }

  /** One poll that fails while the page is shown: the fifth in a row gives a network device up, the second any
      other one. */
  lemma FailedPollIs(p: Page, env: Env)
    requires p.visible && !env.stopped && !env.present
    ensures var limit := if p.identity == Some(UDPBD) then 5 else 2;
            && (Polled(p, env).1 == Gone <==> p.misses + 1 >= limit)
            && (p.misses + 1 < limit ==> Polled(p, env) == (p.(misses := p.misses + 1), Quiet))
  {
  }

  // ----- every run ------------------------------------------------------------------------------

  /** What can happen to a page: a refresh, a poll of its own, a list being read, a request for a new
      list, and the page being shown or hidden by the settings. */
  datatype Event =
    | Refresh(env: Env)
    | Poll(env: Env)
    | Scan
    | Force
    | Reset(visible: bool, tick: int)

  /** `polls` holds for every poll whether the device answered. */
  datatype State = State(page: Page, polls: seq<bool>)

  function Next(s: State, e: Event): State {
    match e
    case Refresh(env) =>
      State(Refreshed(s.page, env).0, if Polls(s.page, env) then s.polls + [env.present] else s.polls)
    case Poll(env) => State(Polled(s.page, env).0, if env.stopped then s.polls else s.polls + [env.present])
    case Scan => s.(page := s.page.(scanned := true))
    case Force => s.(page := s.page.(force := true, scanned := false))
    case Reset(visible, tick) => s.(page := s.page.(visible := visible, tick := tick))
  }

  function Run(events: seq<Event>): State {
    if events == [] then State(NEW, []) else Next(Run(events[..|events| - 1]), events[|events| - 1])
  }

  /** How many of the latest polls in a row failed. */
  function Streak(polls: seq<bool>): (n: nat)
    ensures n <= |polls|
  {
    if polls == [] || polls[|polls| - 1] then 0 else Streak(polls[..|polls| - 1]) + 1
  }

  lemma {:induction false} StreakFailed(polls: seq<bool>, i: nat)
    requires |polls| - Streak(polls) <= i < |polls|
    ensures !polls[i]
  {
    if i < |polls| - 1 { StreakFailed(polls[..|polls| - 1], i); }
  }

  lemma StreakGrows(polls: seq<bool>, present: bool)
    ensures Streak(polls + [present]) == if present then 0 else Streak(polls) + 1
  {
    assert (polls + [present])[..|polls|] == polls;
  }

  lemma PollCounts(p: Page, env: Env)
    ensures Polled(p, env).0.misses <= if !env.stopped && env.present then 0 else p.misses + if env.stopped then 0 else 1
  {
  }

  lemma RefreshCounts(p: Page, env: Env)
    ensures !Polls(p, env) ==> Refreshed(p, env).0.misses == p.misses && Refreshed(p, env).1 != Gone
    ensures Polls(p, env) ==> Refreshed(p, env).0.misses <= if env.present then 0 else p.misses + 1
  {
    PollCounts(Filtered(p, env).(tick := env.generation), env);
  }

  lemma NextCounts(s: State, e: Event)
    requires s.page.misses <= Streak(s.polls)
    ensures Next(s, e).page.misses <= Streak(Next(s, e).polls)
  {
    match e {
      case Refresh(env) =>
        RefreshCounts(s.page, env);
        StreakGrows(s.polls, env.present);
      case Poll(env) =>
        PollCounts(s.page, env);
        StreakGrows(s.polls, env.present);
      case _ =>
    }
  }

  lemma {:induction false} MissesAreFailures(events: seq<Event>)
    ensures Run(events).page.misses <= Streak(Run(events).polls)
  {
    if events != [] {
      MissesAreFailures(events[..|events| - 1]);
      NextCounts(Run(events[..|events| - 1]), events[|events| - 1]);
    }
  }

  lemma GoneMeans(p: Page, env: Env)
    ensures Polled(p, env).1 == Gone ==> !env.present && !env.stopped && p.misses + 1 >= Threshold(KindOf(p))
    ensures Refreshed(p, env).1 == Gone ==> !env.present && Polls(p, env) && p.misses + 1 >= Threshold(KindOf(p))
  {
  }

  function OutcomeOf(p: Page, e: Event): Outcome {
    match e
    case Refresh(env) => Refreshed(p, env).1
    case Poll(env) => Polled(p, env).1
    case _ => Quiet
  }

  lemma GoneAppendsMiss(s: State, e: Event)
    requires OutcomeOf(s.page, e) == Gone
    ensures Next(s, e).polls == s.polls + [false] && s.page.misses + 1 >= Threshold(KindOf(s.page))
  {
    GoneMeans(s.page, e.env);
  }

  /** A page is given up only when the last polls of its device have all failed, two of them for a local
      device and five for the network one. */
  lemma GoneOnlyAfterMisses(events: seq<Event>, e: Event, i: nat)
    requires OutcomeOf(Run(events).page, e) == Gone
    requires i < if Run(events).page.identity == Some(UDPBD) then 5 else 2
    ensures var polls := Next(Run(events), e).polls;
            i < |polls| && !polls[|polls| - 1 - i]
  {
    MissesAreFailures(events);
    GoneAppendsMiss(Run(events), e);
    StreakGrows(Run(events).polls, false);
    StreakFailed(Run(events).polls + [false], |Run(events).polls| - i);
  }

  /** A page goes out of sight in no other way, except that a refresh finds its transport switched off, or
      that the settings hide it. */
  lemma HiddenOnlyWhenGone(s: State, e: Event)
    requires s.page.visible && !Next(s, e).page.visible
    ensures match e
            case Refresh(env) => OutcomeOf(s.page, e) == Gone || Disabled(KindOf(s.page), env)
            case Poll(env) => OutcomeOf(s.page, e) == Gone
            case _ => e.Reset? && !e.visible
  {
  }

  /** Over any run, a page whose transport is on is hidden only when the last polls of its device have all
      failed, two of them for a local device and five for the network one. */
  lemma HiddenOnlyAfterMisses(events: seq<Event>, e: Event, i: nat)
    requires Run(events).page.visible && !Next(Run(events), e).page.visible
    requires e.Poll? || (e.Refresh? && !Disabled(KindOf(Run(events).page), e.env))
    requires i < if Run(events).page.identity == Some(UDPBD) then 5 else 2
    ensures var polls := Next(Run(events), e).polls;
            i < |polls| && !polls[|polls| - 1 - i]
  {
    HiddenOnlyWhenGone(Run(events), e);
    GoneOnlyAfterMisses(events, e, i);
  }

  // ----- a device that stays away ---------------------------------------------------------------

  function RefreshAll(p: Page, envs: seq<Env>): Page
    decreases |envs|
  {
    if envs == [] then p else RefreshAll(Refreshed(p, envs[0]).0, envs[1..])
  }

  ghost predicate Away(envs: seq<Env>) {
    forall i :: 0 <= i < |envs| ==> !envs[i].stopped && !envs[i].dirty && !envs[i].present
  }

  /** Once a first miss is counted the gate lets every refresh poll, whatever the generation does, so a
      device that stays away is hidden within its threshold, and stays hidden. */
  lemma {:induction false} HiddenInTime(p: Page, envs: seq<Env>)
    requires Away(envs) && !p.force
    requires p.visible ==> p.misses >= 1 && p.misses + |envs| >= if p.identity == Some(UDPBD) then 5 else 2
    requires p.visible ==> |envs| > 0
    ensures !RefreshAll(p, envs).visible
    decreases |envs|
  {
    if envs != [] {
      assert Away(envs[1..]);
      HiddenInTime(Refreshed(p, envs[0]).0, envs[1..]);
    }
  }
}
