/** The watched export: change notifications, the settle timer, and the decision to export again. */
module WatchLoop {
  import opened Sequences
  import opened Texts

  // ----- the loop's own state

  const SETTLE_MIN: int := 500_000_000       // nanoseconds
  const SETTLE_MAX: int := 30_000_000_000

  /** A timer channel holds at most one tick: it is counting, holds its tick, or neither. */
  datatype Timer = NoTimer | Running | Fired | Idle

  datatype LoopState = LoopState(
    settle: int, lastHash: Text, lastAuthorityHash: Text, timer: Timer, listening: bool)
  {
    /** A tick will come, and the loop will take it. */
    predicate Armed() {
      listening && (timer == Running || timer == Fired)
    }

    function ArmSettle(): LoopState {
      this.(timer := Running, listening := true)
    }

    function TakeTick(): LoopState {
      this.(timer := Idle, listening := false)
    }

    predicate Unchanged(hash: Text, authorityHash: Text) {
      hash == lastHash && authorityHash == lastAuthorityHash
    }

    function Skip(): LoopState {
      this.(settle := SETTLE_MIN)
    }

    function Exported(hash: Text, authorityHash: Text, elapsed: int): LoopState {
      this.(lastHash := hash, lastAuthorityHash := authorityHash, settle := Backoff(elapsed))
    }
  }

  /** Twice the cost of the export, kept between the two bounds. */
  function Backoff(elapsed: int): int {
    if 2 * elapsed < SETTLE_MIN then SETTLE_MIN
    else if 2 * elapsed > SETTLE_MAX then SETTLE_MAX
    else 2 * elapsed
  }

  function StartLoop(hash: Text, authorityHash: Text): LoopState {
    LoopState(SETTLE_MIN, hash, authorityHash, NoTimer, false).ArmSettle()
  }

  class Watcher {
    var settle: int
    var lastHash: Text
    var lastAuthorityHash: Text
    var timer: Timer
    var listening: bool

    function View(): LoopState
      reads this
    {
      LoopState(settle, lastHash, lastAuthorityHash, timer, listening)
    }

    constructor (hash: Text, authorityHash: Text)
      ensures View() == StartLoop(hash, authorityHash)
    {
      settle, lastHash, lastAuthorityHash := SETTLE_MIN, hash, authorityHash;
      timer, listening := NoTimer, false;
      new;
      ArmSettle();
    }

    method ArmSettle()
      modifies this
      ensures View() == old(View()).ArmSettle()
    {
      if timer == NoTimer {
        timer := Running;
        listening := true;
        return;
      }
      var stopped := timer == Running;
      timer := if stopped then Idle else timer;
      if !stopped && timer == Fired {
        timer := Idle;
      }
      timer := Running;
      listening := true;
    }

    /** The settle timer's tick has been received. */
    method OnTick()
      requires listening && timer == Fired
      modifies this
      ensures View() == old(View()).TakeTick()
    {
      timer := Idle;
      listening := false;
    }

    /** The reloaded issues are scoped; should they be exported? */
    method OnReloaded(hash: Text, authorityHash: Text) returns (changed: bool)
      modifies this
      ensures changed <==> !old(View()).Unchanged(hash, authorityHash)
      ensures View() == if changed then old(View()) else old(View()).Skip()
    {
      if hash == lastHash && authorityHash == lastAuthorityHash {
        settle := SETTLE_MIN;
        return false;
      }
      return true;
    }

    method OnExported(hash: Text, authorityHash: Text, elapsed: int)
      modifies this
      ensures View() == old(View()).Exported(hash, authorityHash, elapsed)
      ensures 2 * elapsed <= 500_000_000 ==> settle == 500_000_000
      ensures 500_000_000 <= 2 * elapsed <= 30_000_000_000 ==> settle == elapsed + elapsed
      ensures 30_000_000_000 <= 2 * elapsed ==> settle == 30_000_000_000
    {
      lastHash := hash;
      lastAuthorityHash := authorityHash;
      settle := 2 * elapsed;
      if settle < SETTLE_MIN {
        settle := SETTLE_MIN;
      }
      if settle > SETTLE_MAX {
        settle := SETTLE_MAX;
      }
    }
  }

  // ----- the protocol: loop, watchers, timer and files

  /** What a reload followed by scoping yields. */
  datatype Load = Scoped(hash: Text, authorityHash: Text) | ScopeFailed

  datatype Phase = Waiting | Reloading | Exporting(hash: Text, authorityHash: Text)

  /** How much of the site an export had written when it ended. An export may fail before it touches the site,
      after it has replaced the database, or, when a hook that follows it fails, with everything written. */
  datatype Written = Nothing | Part | Everything

  /** How the last round ended, if none is under way. */
  datatype Outcome =
    | Unfinished
    | ScopeError
    | Skipped
    | Exported
    | ExportError(hash: Text, authorityHash: Text, written: Written)

  datatype State = State(
    loop: LoopState,
    token: bool,                    // the change channel, which holds at most one notification
    phase: Phase,
    world: Load,                    // what a reload would yield now
    exports: seq<(Text, Text)>,     // the hashes of all successful exports
    pages: Option<(Text, Text)>,    // the hashes of the content on disk, unless that is a mixture
    touched: bool,                  // a failed export has written to the site, and none has succeeded since
    outcome: Outcome,
    now: nat, changedAt: nat, notifiedAt: nat, reloadAt: nat)
  {
    /** The last round ended without an error. */
    predicate Clean() {
      outcome == Exported || outcome == Skipped
    }
  }

  datatype Event =
    | Change(world: Load)
    | Notify
    | Receive
    | TimerFires
    | BeginReload
    | FinishReload(load: Load)
    | FinishExport(ok: bool, written: Written, elapsed: int)

  /** The first export is done and the watchers are attached; the files may have changed meanwhile.
      The recheck armed at the start counts as the first notification. */
  predicate Initial(s: State) {
    && s.exports == [(s.loop.lastHash, s.loop.lastAuthorityHash)]
    && s.loop == StartLoop(s.loop.lastHash, s.loop.lastAuthorityHash)
    && !s.token && s.phase == Waiting && s.outcome == Unfinished
    && s.pages == Some((s.loop.lastHash, s.loop.lastAuthorityHash)) && !s.touched
    && s.changedAt == 0 && s.reloadAt == 0 && s.notifiedAt == s.now == 1
  }

  /** A reload that no change overlaps sees the files as they are; otherwise it may see any mixture. */
  predicate Enabled(s: State, e: Event) {
    match e
    case Change(_) => true
    case Notify => true
    case Receive => s.phase == Waiting && s.token
    case TimerFires => s.loop.timer == Running
    case BeginReload => s.phase == Waiting && s.loop.listening && s.loop.timer == Fired
    case FinishReload(load) => s.phase == Reloading && (s.changedAt < s.reloadAt ==> load == s.world)
    case FinishExport(ok, written, _) => s.phase.Exporting? && (ok ==> written == Everything)
  }

  function Apply(s: State, e: Event): State
    requires Enabled(s, e)
  {
    var t := s.(now := s.now + 1);
    match e
    case Change(world) => t.(world := world, changedAt := t.now)
    case Notify => t.(token := true, notifiedAt := t.now)
    case Receive => t.(token := false, loop := s.loop.ArmSettle())
    case TimerFires => t.(loop := s.loop.(timer := Fired))
    case BeginReload => t.(loop := s.loop.TakeTick(), phase := Reloading, reloadAt := t.now, outcome := Unfinished)
    case FinishReload(load) =>
      if load == ScopeFailed then t.(phase := Waiting, outcome := ScopeError)
      else if s.loop.Unchanged(load.hash, load.authorityHash) then
        t.(phase := Waiting, loop := s.loop.Skip(), outcome := Skipped)
      else t.(phase := Exporting(load.hash, load.authorityHash))
    case FinishExport(ok, written, elapsed) =>
      var h, a := s.phase.hash, s.phase.authorityHash;
      var pages := match written case Nothing => s.pages case Part => None case Everything => Some((h, a));
      if !ok then
        t.(phase := Waiting, pages := pages, touched := s.touched || written != Nothing,
           outcome := ExportError(h, a, written))
      else
        t.(phase := Waiting, pages := pages, touched := false,
           loop := s.loop.Exported(h, a, elapsed), exports := s.exports + [(h, a)], outcome := Exported)
  }

  /** A run: every event is enabled where it happens. */
  ghost predicate Run(states: seq<State>, events: seq<Event>) {
    && |states| == |events| + 1 && Initial(states[0])
    && forall i {:trigger events[i]} :: 0 <= i < |events| ==>
         Enabled(states[i], events[i]) && states[i + 1] == Apply(states[i], events[i])
  }

  lemma Extended(states: seq<State>, events: seq<Event>, e: Event)
    returns (longer: seq<State>, more: seq<Event>)
    requires Run(states, events) && Enabled(states[|events|], e)
    ensures more == events + [e] && longer == states + [Apply(states[|events|], e)]
    ensures Run(longer, more)
  {
    more, longer := events + [e], states + [Apply(states[|events|], e)];
    forall i | 0 <= i < |more| ensures Enabled(longer[i], more[i]) && longer[i + 1] == Apply(longer[i], more[i]) {
      assert i < |events| ==> longer[i] == states[i] && more[i] == events[i] && longer[i + 1] == states[i + 1];
    }
  }

  // ----- what every step keeps

  predicate Clocked(s: State) {
    && s.changedAt <= s.now && s.notifiedAt <= s.now && s.reloadAt <= s.now
    && s.changedAt != s.notifiedAt && s.notifiedAt != s.reloadAt && (s.changedAt > 0 ==> s.changedAt != s.reloadAt)
  }

  predicate Pending(s: State) {
    s.token || s.loop.Armed()
  }

  /** A notification waits in the channel or in the timer, or has been followed by a reload. */
  predicate Watchful(s: State) {
    && (s.notifiedAt > s.reloadAt ==> Pending(s))
    && (s.loop.listening ==> s.loop.timer == Running || s.loop.timer == Fired)
  }

  ghost predicate Logged(s: State) {
    && SETTLE_MIN <= s.loop.settle <= SETTLE_MAX
    && |s.exports| > 0 && s.exports[|s.exports| - 1] == (s.loop.lastHash, s.loop.lastAuthorityHash)
    && (forall i :: 0 <= i < |s.exports| - 1 ==> s.exports[i] != s.exports[i + 1])
    && (s.phase.Exporting? ==> !s.loop.Unchanged(s.phase.hash, s.phase.authorityHash))
  }

  /** The hashes that the loop remembers are those of the current files. */
  predicate UpToDate(s: State) {
    s.world == Scoped(s.loop.lastHash, s.loop.lastAuthorityHash)
  }

  /** The pages on disk were made, completely, from what the files hold now. */
  predicate PagesCurrent(s: State) {
    s.pages.Some? && s.world == Scoped(s.pages.value.0, s.pages.value.1)
  }

  /** What the last round tells about the files, unless they changed after its reload began. */
  predicate Fresh(s: State) {
    && (s.outcome != Unfinished ==> s.phase == Waiting)
    && (s.reloadAt == 0 ==> s.phase == Waiting && s.outcome == Unfinished)
    && (s.reloadAt > 0 && s.phase == Waiting ==> s.outcome != Unfinished)
    && (s.changedAt < s.reloadAt ==>
          && (s.phase.Exporting? ==> s.world == Scoped(s.phase.hash, s.phase.authorityHash))
          && (s.Clean() ==> UpToDate(s))
          && (s.outcome == ScopeError ==> s.world == ScopeFailed)
          && (s.outcome.ExportError? ==> s.world == Scoped(s.outcome.hash, s.outcome.authorityHash)))
  }

  /** The pages are those the loop remembers unless a failed export has written to the site,
      and the last round's own writing is what is on disk. */
  predicate OnDisk(s: State) {
    && (s.touched <==> s.pages != Some((s.loop.lastHash, s.loop.lastAuthorityHash)))
    && (s.outcome == Exported ==> !s.touched)
    && (s.outcome.ExportError? ==>
          && !s.loop.Unchanged(s.outcome.hash, s.outcome.authorityHash)
          && (s.outcome.written == Part ==> s.pages == None)
          && (s.outcome.written == Everything ==> s.pages == Some((s.outcome.hash, s.outcome.authorityHash))))
  }

  ghost predicate Inv(s: State) {
    Clocked(s) && Watchful(s) && Logged(s) && Fresh(s) && OnDisk(s)
  }

  lemma ClockKept(s: State, e: Event)
    requires Clocked(s) && Enabled(s, e)
    ensures Clocked(Apply(s, e))
  {
  }

  lemma WatchKept(s: State, e: Event)
    requires Clocked(s) && Watchful(s) && Enabled(s, e)
    ensures Watchful(Apply(s, e))
  {
  }

  lemma LogKept(s: State, e: Event)
    requires Logged(s) && Enabled(s, e)
    ensures Logged(Apply(s, e))
  {
  }

  lemma FreshnessKept(s: State, e: Event)
    requires Clocked(s) && Logged(s) && Fresh(s) && Enabled(s, e)
    ensures Fresh(Apply(s, e))
  {
  }

  lemma DiskKept(s: State, e: Event)
    requires Logged(s) && OnDisk(s) && Enabled(s, e)
    ensures OnDisk(Apply(s, e))
  {
  }

  lemma InvKept(s: State, e: Event)
    requires Inv(s) && Enabled(s, e)
    ensures Inv(Apply(s, e))
  {
    DiskKept(s, e);
    ClockKept(s, e);
    WatchKept(s, e);
    LogKept(s, e);
    FreshnessKept(s, e);
  }

  lemma {:induction false} RunInv(states: seq<State>, events: seq<Event>, k: nat)
    requires Run(states, events) && k < |states|
    ensures Inv(states[k])
    decreases k
  {
    if k > 0 {
      RunInv(states, events, k - 1);
      InvKept(states[k - 1], events[k - 1]);
    }
  }

  /** In every state of every run: exports never repeat and the settle window keeps its bounds. */
  lemma ExportsDiffer(states: seq<State>, events: seq<Event>, k: nat)
    requires Run(states, events) && k < |states|
    ensures SETTLE_MIN <= states[k].loop.settle <= SETTLE_MAX
    ensures forall i :: 0 <= i < |states[k].exports| - 1 ==> states[k].exports[i] != states[k].exports[i + 1]
  {
    RunInv(states, events, k);
  }

  /** The reload finds what the loop remembers. */
  predicate FindsNothingNew(s: State, e: Event) {
    e.FinishReload? && e.load == Scoped(s.loop.lastHash, s.loop.lastAuthorityHash)
  }

  /** The settle window, in nanoseconds, in every run: it starts at half a second; a successful export makes it twice
      the export's cost, or the nearer of half a second and thirty seconds when that is not between them; a reload
      that finds nothing new brings it back to half a second; and nothing else changes it. */
  lemma WindowFollowsRounds(states: seq<State>, events: seq<Event>, k: nat)
    requires Run(states, events) && k < |events|
    ensures states[0].loop.settle == 500_000_000
    ensures match events[k]
            case FinishExport(true, _, elapsed) =>
              var window := states[k + 1].loop.settle;
              && (2 * elapsed <= 500_000_000 ==> window == 500_000_000)
              && (500_000_000 <= 2 * elapsed <= 30_000_000_000 ==> window == elapsed + elapsed)
              && (30_000_000_000 <= 2 * elapsed ==> window == 30_000_000_000)
            case _ =>
              states[k + 1].loop.settle
              == if FindsNothingNew(states[k], events[k]) then 500_000_000 else states[k].loop.settle
  {
    StepWindow(states[k], events[k]);
  }

  lemma StepWindow(s: State, e: Event)
    requires Enabled(s, e)
    ensures match e
            case FinishExport(true, _, elapsed) => Apply(s, e).loop.settle == Backoff(elapsed)
            case _ => Apply(s, e).loop.settle == if FindsNothingNew(s, e) then SETTLE_MIN else s.loop.settle
  {
  }

  // ----- wakeups

  lemma NotificationsGrow(states: seq<State>, events: seq<Event>, i: nat, j: nat)
    requires Run(states, events) && i <= j < |states| && states[i].notifiedAt <= states[i].now
    ensures states[i].notifiedAt <= states[j].notifiedAt <= states[j].now
  {
    for k := i to j
      invariant states[i].notifiedAt <= states[k].notifiedAt <= states[k].now
    {
      StepNotified(states, events, k);
    }
  }

  lemma StepNotified(states: seq<State>, events: seq<Event>, k: nat)
    requires Run(states, events) && k < |events| && states[k].notifiedAt <= states[k].now
    ensures states[k].notifiedAt <= states[k + 1].notifiedAt <= states[k + 1].now
  {
    NotifiedGrows(states[k], events[k]);
  }

  lemma NotifiedGrows(s: State, e: Event)
    requires Enabled(s, e) && s.notifiedAt <= s.now
    ensures s.notifiedAt <= Apply(s, e).notifiedAt <= Apply(s, e).now
  {
  }

  /** No lost wakeup: at any time after a notification there is a token, an armed timer,
      or a reload that began after the notification. */
  lemma NoLostWakeup(states: seq<State>, events: seq<Event>, i: nat, j: nat)
    requires Run(states, events) && i < j < |states| && events[i] == Notify
    ensures Pending(states[j]) || states[j].reloadAt > states[i + 1].notifiedAt
  {
    RunInv(states, events, i + 1);
    NotificationsGrow(states, events, i + 1, j);
    RunInv(states, events, j);
  }

  /** How many more steps the loop and the timer can take before the next reload. */
  function StepsToReload(s: State): nat {
    (if s.token then 3 else 0) + (if s.loop.timer == Running then 2 else if s.loop.timer == Fired then 1 else 0)
  }

  /** The steps that carry a notification forward; the others belong to files, watchers and rounds under way. */
  predicate CarriesForward(e: Event) {
    e == Receive || e == TimerFires || e == BeginReload
  }

  function CountSteps(events: seq<Event>): nat {
    if events == [] then 0
    else CountSteps(events[..|events| - 1]) + (if CarriesForward(events[|events| - 1]) then 1 else 0)
  }

  lemma CountOneMore(events: seq<Event>, i: nat, k: nat)
    requires i <= k < |events|
    ensures CountSteps(events[i..k + 1]) == CountSteps(events[i..k]) + (if CarriesForward(events[k]) then 1 else 0)
  {
    assert events[i..k + 1][..k - i] == events[i..k];
  }

  /** A pending notification is never stuck: while the loop waits, one of these steps can be taken. */
  lemma PendingMoves(s: State)
    requires Inv(s) && s.phase == Waiting && Pending(s)
    ensures exists e :: CarriesForward(e) && Enabled(s, e)
  {
    if s.token {
      assert Enabled(s, Receive);
    } else if s.loop.timer == Running {
      assert Enabled(s, TimerFires);
    } else {
      assert Enabled(s, BeginReload);
    }
  }

  lemma StepsCountDown(s: State, e: Event)
    requires Pending(s) && Enabled(s, e) && e != Notify && e != BeginReload
    ensures Pending(Apply(s, e))
    ensures StepsToReload(Apply(s, e)) + (if CarriesForward(e) then 1 else 0) <= StepsToReload(s)
  {
  }

  /** In every run: between a state with a pending notification and the next reload, while no new notification
      comes, the loop and the timer take fewer than StepsToReload steps, so the reload is one of that many. */
  lemma ReloadWithinSteps(states: seq<State>, events: seq<Event>, i: nat, j: nat)
    requires Run(states, events) && i <= j < |states| && Pending(states[i])
    requires forall k :: i <= k < j ==> events[k] != Notify && events[k] != BeginReload
    ensures Pending(states[j])
    ensures CountSteps(events[i..j]) + StepsToReload(states[j]) <= StepsToReload(states[i]) <= 5
    ensures CountSteps(events[i..j]) < StepsToReload(states[i])
  {
    assert events[i..i] == [];
    PendingIsNear(states[i]);
    for k := i to j
      invariant Nearing(events[i..k], states[i], states[k])
    {
      CountOneMore(events, i, k);
      StepsCountDown(states[k], events[k]);
    }
    PendingIsNear(states[j]);
  }

  /** The events lead from s to t, still pending, and use up some of the steps. */
  predicate Nearing(events: seq<Event>, s: State, t: State) {
    Pending(t) && CountSteps(events) + StepsToReload(t) <= StepsToReload(s)
  }

  lemma PendingIsNear(s: State)
    requires Pending(s)
    ensures 0 < StepsToReload(s) <= 5
  {
  }


  /** Without that proviso the reload may be put off for ever: a notification in every settle window re-arms the timer
      each time, so a run that waits can go on for any number of windows without a reload. */
  lemma {:induction false} ChurnPutsOffReload(states: seq<State>, events: seq<Event>, windows: nat)
    returns (longer: seq<State>, more: seq<Event>)
    requires Run(states, events) && states[|events|].phase == Waiting
    ensures Run(longer, more) && events <= more && |more| == |events| + 2 * windows
    ensures forall i :: 0 <= i < windows ==>
              more[|events| + 2 * i] == Notify && more[|events| + 2 * i + 1] == Receive
    ensures windows > 0 ==> Pending(longer[|more|])
    ensures longer[|more|].phase == Waiting && longer[|more|].reloadAt == states[|events|].reloadAt
  {
    longer, more := states, events;
    if windows > 0 {
      longer, more := ChurnPutsOffReload(states, events, windows - 1);
      longer, more := Extended(longer, more, Notify);
      longer, more := Extended(longer, more, Receive);
    }
  }

  // ----- at rest

  predicate Quiescent(s: State) {
    s.phase == Waiting && !Pending(s)
  }

  /** At rest, after the last change was notified, the loop remembers the hashes of the current files if and only if
      the last round ended without an error, and the last round alone tells whether the pages are current but for two
      cases. After a skip they are current if and only if no failed export has written to the site since the last
      success. After an export that failed before it wrote, they are current only as the work of an earlier failed
      export that had written the same content. */
  lemma PagesAtRest(states: seq<State>, events: seq<Event>, k: nat)
    requires Run(states, events) && k < |states|
    requires Quiescent(states[k]) && states[k].changedAt <= states[k].notifiedAt
    ensures states[k].reloadAt > states[k].changedAt
    ensures UpToDate(states[k]) <==> states[k].Clean()
    ensures states[k].outcome != Unfinished
    ensures match states[k].outcome
            case Unfinished => true
            case Exported => PagesCurrent(states[k])
            case Skipped => PagesCurrent(states[k]) <==> !states[k].touched
            case ScopeError => !PagesCurrent(states[k])
            case ExportError(hash, authorityHash, written) =>
              match written
              case Everything => PagesCurrent(states[k])
              case Part => !PagesCurrent(states[k])
              case Nothing =>
                PagesCurrent(states[k]) <==> states[k].touched && states[k].pages == Some((hash, authorityHash))
  {
    RunInv(states, events, k);
  }

  /** Where no failed export has written to the site since the last success, rest means current pages if and only if
      the last round ended without an error; and after such a round, if and only if none has. */
  lemma QuiescentIsCurrent(states: seq<State>, events: seq<Event>, k: nat)
    requires Run(states, events) && k < |states|
    requires Quiescent(states[k]) && states[k].changedAt <= states[k].notifiedAt
    ensures !states[k].touched ==> (PagesCurrent(states[k]) <==> states[k].Clean())
    ensures states[k].Clean() ==> (PagesCurrent(states[k]) <==> !states[k].touched)
  {
    RunInv(states, events, k);
    PagesAtRest(states, events, k);
  }

  // ----- two runs that come to rest

  /** The state in which the files have changed from the first content to the second during the first export. */
  function ChangedDuringExport(first: Text, second: Text): State {
    State(StartLoop(first, []), false, Waiting, Scoped(second, []), [(first, [])],
          Some((first, [])), false, Unfinished, 1, 0, 1, 0)
  }

  function FailedRound(second: Text, written: Written): seq<Event> {
    [TimerFires, BeginReload, FinishReload(Scoped(second, [])), FinishExport(false, written, 0)]
  }

  /** A failed export is not retried on its own: the loop rests without remembering the current content, and the pages
      are current only if the export had written everything when it failed. */
  lemma FailedExportIsNotRetried(first: Text, second: Text, written: Written)
    returns (states: seq<State>, events: seq<Event>)
    requires first != second
    ensures Run(states, events)
    ensures var s := states[|events|];
            && Quiescent(s) && s.changedAt <= s.notifiedAt && s.world == Scoped(second, [])
            && s.loop.lastHash == first && s.loop.lastAuthorityHash == [] && s.loop.timer == Idle
            && s.outcome == ExportError(second, [], written) && s.touched == (written != Nothing)
            && s.pages == (match written case Nothing => Some((first, [])) case Part => None
                                         case Everything => Some((second, [])))
            && !UpToDate(s) && (PagesCurrent(s) <==> written == Everything)
  {
    var s0 := ChangedDuringExport(first, second);
    events := FailedRound(second, written);
    var s1 := Apply(s0, events[0]);
    var s2 := Apply(s1, events[1]);
    var s3 := Apply(s2, events[2]);
    var s4 := Apply(s3, events[3]);
    states := [s0, s1, s2, s3, s4];
  }

  /** A round without an error may leave the wrong pages: an export fails after it has written the second content,
      the files go back to the first, and the reload finds nothing to export. */
  lemma SkipKeepsFailedPages(first: Text, second: Text) returns (states: seq<State>, events: seq<Event>)
    requires first != second
    ensures Run(states, events)
    ensures var s := states[|events|];
            && Quiescent(s) && s.changedAt <= s.notifiedAt && s.world == Scoped(first, [])
            && s.Clean() && UpToDate(s) && s.pages == Some((second, []))
  {
    states, events := FailedExportIsNotRetried(first, second, Everything);
    states, events := Extended(states, events, Change(Scoped(first, [])));
    states, events := Extended(states, events, Notify);
    states, events := Extended(states, events, Receive);
    states, events := Extended(states, events, TimerFires);
    states, events := Extended(states, events, BeginReload);
    states, events := Extended(states, events, FinishReload(Scoped(first, [])));
  }
}
