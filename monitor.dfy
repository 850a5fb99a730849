/**
 * BrowserMonitorService.cs: the poll loop that publishes the active browser to the presence manager when it
 * changes, clears the presence when it vanishes, and gives up after five consecutive failures; and the
 * start/stop guards around it.
 */
module Monitor {
  import opened Wrappers
  import opened Info

  /** `maxErrors`: the loop stops once this many failures have been counted since the last publication. */
  const MaxErrors: nat := 5

  /**
   * What one iteration of the loop sees: `GetActiveBrowser` raises, or it returns `active`. `throwsAfterCall`
   * says that an event handler raises after the presence manager has been called in that iteration (the
   * handlers run after `UpdatePresence` but before `lastBrowser` is set, and after `lastBrowser` is cleared).
   * A handler that raises inside the `catch` block escapes the loop altogether; that is not modelled.
   */
  datatype TickInput =
    | DetectorThrows
    | Detected(active: Option<BrowserInfo>, throwsAfterCall: bool)

  /** One evaluation of the loop guard and, if it passes, one tick: `cancelled` is the token's state then. */
  datatype Poll = Poll(cancelled: bool, input: TickInput)

  /** The calls made on the presence manager, in order. */
  datatype PresenceCall = Initialize | Update(info: BrowserInfo) | Clear | Dispose

  /** The loop's two local variables, `lastBrowser` and `errorCount`. */
  datatype LoopState = LoopState(last: Option<BrowserInfo>, errorCount: nat)

  datatype TickResult = TickResult(state: LoopState, calls: seq<PresenceCall>)

  datatype RunResult = RunResult(state: LoopState, calls: seq<PresenceCall>, ticks: nat)

  /** The three fields the loop compares: `BrowserName`, `TabTitle` and `IsIncognito`. */
  predicate SamePresence(a: BrowserInfo, b: BrowserInfo) {
    a.browserName == b.browserName && a.tabTitle == b.tabTitle && a.isIncognito == b.isIncognito
  }

  /** The browser differs from what was last published, or nothing was. */
  predicate Changed(last: Option<BrowserInfo>, active: BrowserInfo) {
    last.None? || !SamePresence(last.value, active)
  }

  /** The body of one iteration of the loop, the `try` and its `catch`. */
  function Step(s: LoopState, input: TickInput): TickResult {
    match input
    case DetectorThrows => TickResult(s.(errorCount := s.errorCount + 1), [])
    case Detected(active, throwsAfterCall) =>
      if active.Some? then
        if Changed(s.last, active.value) then
          if throwsAfterCall then TickResult(s.(errorCount := s.errorCount + 1), [Update(active.value)])
          else TickResult(LoopState(active, 0), [Update(active.value)])
        else TickResult(s, [])
      else if s.last.Some? then
        TickResult(LoopState(None, if throwsAfterCall then s.errorCount + 1 else s.errorCount), [Clear])
      else TickResult(s, [])
  }

  /** The loop guard: the token is not cancelled and fewer than `MaxErrors` failures have been counted. */
  predicate Continues(cancelled: bool, s: LoopState) {
    !cancelled && s.errorCount < MaxErrors
  }

  /**
   * The loop run over a finite sequence of polls: the state it ends in, the calls it makes, and the number
   * of ticks it runs. The error budget is never exceeded.
   */
  function Run(s: LoopState, polls: seq<Poll>): (r: RunResult)
    ensures r.ticks <= |polls|
    ensures s.errorCount <= MaxErrors ==> r.state.errorCount <= MaxErrors
    ensures r.ticks == 0 ==> r == RunResult(s, [], 0)
    decreases |polls|
  {
    if polls == [] || !Continues(polls[0].cancelled, s) then RunResult(s, [], 0)
    else
      var t := Step(s, polls[0].input);
      var rest := Run(t.state, polls[1..]);
      RunResult(rest.state, t.calls + rest.calls, rest.ticks + 1)
  }

  // ---------------------------------------------------------------------------------------------------------
  // One tick

  /**
   * A tick publishes a browser exactly when the detector returns it and it differs from the last one
   * published on name, title or incognito flag (or nothing was published); it publishes nothing else.
   */
  lemma PublishIff(s: LoopState, input: TickInput, b: BrowserInfo)
    ensures Update(b) in Step(s, input).calls <==>
      input.Detected? && input.active == Some(b) && Changed(s.last, b)
    ensures |Step(s, input).calls| <= 1
  {
  }

  /**
   * The last browser only changes on a tick that calls the presence manager, and only a detector that
   * answers leads to a call.
   */
  lemma LastChangesOnlyWithCall(s: LoopState, input: TickInput)
    ensures var t := Step(s, input); t.state.last == s.last || t.calls != []
    ensures Step(s, input).calls != [] ==> input.Detected?
  {
  }

  /** After a publishing tick that does not raise, the last browser is the one published and the count is 0. */
  lemma PublishResets(s: LoopState, b: BrowserInfo)
    requires Changed(s.last, b)
    ensures Step(s, Detected(Some(b), false)) == TickResult(LoopState(Some(b), 0), [Update(b)])
  {
  }

  /**
   * A tick clears exactly when the detector returns nothing and something was published; the last browser
   * is then forgotten and the failure count is untouched unless a handler raises.
   */
  lemma ClearIff(s: LoopState, input: TickInput)
    ensures Clear in Step(s, input).calls <==> input.Detected? && input.active.None? && s.last.Some?
    ensures Clear in Step(s, input).calls ==>
      Step(s, input).state == LoopState(None, s.errorCount + if input.throwsAfterCall then 1 else 0)
  {
  }

  /**
   * A tick that finds nothing after nothing, or the same browser on the three compared fields, makes no call
   * and changes no state.
   */
  lemma QuietTick(s: LoopState, active: Option<BrowserInfo>, throwsAfterCall: bool)
    requires (active.None? && s.last.None?) || (active.Some? && !Changed(s.last, active.value))
    ensures Step(s, Detected(active, throwsAfterCall)) == TickResult(s, [])
  {
  }

  /** A tick whose detector raises counts one failure and changes nothing else. */
  lemma FailureCounted(s: LoopState)
    ensures Step(s, DetectorThrows) == TickResult(LoopState(s.last, s.errorCount + 1), [])
  {
  }

  /**
   * The failure count only goes down on a tick that publishes, and then to 0: clearing and idle ticks do
   * not reset it.
   */
  lemma ResetOnlyOnPublish(s: LoopState, input: TickInput)
    ensures var t := Step(s, input);
      t.state.errorCount < s.errorCount ==> t.state.errorCount == 0 && exists b :: Update(b) in t.calls
    ensures var t := Step(s, input);
      t.state.errorCount <= s.errorCount + 1 && (t.state.errorCount == s.errorCount + 1 ==> input.DetectorThrows? || input.throwsAfterCall)
  {
    var t := Step(s, input);
    if t.state.errorCount < s.errorCount {
      assert Update(input.active.value) in t.calls;
    }
  }

  /**
   * A browser that differs from the last one published only in its URL, its private flag or its time stamp
   * is not published again.
   */
  lemma IgnoredFieldsNotPublished(a: BrowserInfo, url: Option<string>, isPrivate: bool, stamp: nat, errorCount: nat, t: bool)
    ensures var b := a.(url := url, isPrivate := isPrivate, lastUpdated := stamp);
      Step(LoopState(Some(a), errorCount), Detected(Some(b), t)) == TickResult(LoopState(Some(a), errorCount), [])
  {
  }

  // ---------------------------------------------------------------------------------------------------------
  // The loop

  /** One tick of the loop at poll `i`, when the guard holds. */
  lemma RunStep(s: LoopState, polls: seq<Poll>, i: nat)
    requires i < |polls| && Continues(polls[i].cancelled, s)
    ensures var t := Step(s, polls[i].input);
      var rest := Run(t.state, polls[i + 1..]);
      Run(s, polls[i..]) == RunResult(rest.state, t.calls + rest.calls, rest.ticks + 1)
  {
    assert polls[i..][1..] == polls[i + 1..];
  }

  /** Where the guard fails, the loop runs no more ticks. */
  lemma Stopped(s: LoopState, polls: seq<Poll>, i: nat)
    requires i <= |polls|
    requires i == |polls| || polls[i].cancelled || s.errorCount >= MaxErrors
    ensures Run(s, polls[i..]) == RunResult(s, [], 0)
  {
  }

  /** The loop's invariant where the loop stops: the run is what the loop has done so far. */
  lemma Finished(s0: LoopState, polls: seq<Poll>, i: nat, s: LoopState, made: seq<PresenceCall>)
    requires i <= |polls|
    requires i == |polls| || polls[i].cancelled || s.errorCount >= MaxErrors
    requires var rest := Run(s, polls[i..]);
      Run(s0, polls) == RunResult(rest.state, made + rest.calls, i + rest.ticks)
    ensures Run(s0, polls) == RunResult(s, made, i)
  {
    Stopped(s, polls, i);
    assert made + [] == made;
  }

  /** The loop's invariant carried over one tick. */
  lemma Advance(s0: LoopState, polls: seq<Poll>, i: nat, s: LoopState, made: seq<PresenceCall>)
    requires i < |polls| && Continues(polls[i].cancelled, s)
    requires var rest := Run(s, polls[i..]);
      Run(s0, polls) == RunResult(rest.state, made + rest.calls, i + rest.ticks)
    ensures var t := Step(s, polls[i].input);
      var rest := Run(t.state, polls[i + 1..]);
      Run(s0, polls) == RunResult(rest.state, (made + t.calls) + rest.calls, (i + 1) + rest.ticks)
  {
    RunStep(s, polls, i);
  }

  /** Five failing ticks in a row from a count of 0 stop the loop: no later poll runs. */
  lemma {:induction false} FailuresHalt(s: LoopState, polls: seq<Poll>, k: nat)
    requires s.errorCount + k == MaxErrors && k <= |polls|
    requires forall i | 0 <= i < k :: polls[i] == Poll(false, DetectorThrows)
    ensures Run(s, polls) == RunResult(LoopState(s.last, MaxErrors), [], k)
    decreases k
  {
    if k > 0 {
      assert polls[1..][..k - 1] == polls[1..k];
      FailuresHalt(LoopState(s.last, s.errorCount + 1), polls[1..], k - 1);
    }
  }

  /** Once the loop has given up, it makes no more calls whatever it would see. */
  lemma HaltedStaysHalted(s: LoopState, polls: seq<Poll>)
    requires s.errorCount >= MaxErrors
    ensures Run(s, polls) == RunResult(s, [], 0)
  {
  }

  /** Nothing after the first poll that finds the token cancelled has any effect. */
  lemma {:induction false} CancelStops(s: LoopState, polls: seq<Poll>, j: nat)
    requires j < |polls| && polls[j].cancelled
    ensures Run(s, polls) == Run(s, polls[..j])
    ensures Run(s, polls).ticks <= j
    decreases j
  {
    if j > 0 && Continues(polls[0].cancelled, s) {
      assert polls[1..][..j - 1] == polls[..j][1..];
      CancelStops(Step(s, polls[0].input).state, polls[1..], j - 1);
    }
  }

  /** Polls that all find no browser, after nothing was published, change nothing. */
  lemma {:induction false} IdleRun(c: nat, polls: seq<Poll>)
    requires c < MaxErrors
    requires forall i | 0 <= i < |polls| :: polls[i] == Poll(false, Detected(None, false))
    ensures Run(LoopState(None, c), polls) == RunResult(LoopState(None, c), [], |polls|)
    decreases |polls|
  {
    if polls != [] {
      IdleRun(c, polls[1..]);
    }
  }

  /** A browser that vanishes and stays away is cleared exactly once. */
  lemma {:induction false} VanishedClearsOnce(b: BrowserInfo, c: nat, polls: seq<Poll>)
    requires c < MaxErrors && polls != []
    requires forall i | 0 <= i < |polls| :: polls[i] == Poll(false, Detected(None, false))
    ensures Run(LoopState(Some(b), c), polls) == RunResult(LoopState(None, c), [Clear], |polls|)
  {
    IdleRun(c, polls[1..]);
  }

  /** Polls that all find a browser equal to the one last published on the compared fields change nothing. */
  lemma {:induction false} SteadyRun(b: BrowserInfo, polls: seq<Poll>)
    requires forall i | 0 <= i < |polls| ::
      (!polls[i].cancelled && polls[i].input.Detected? && polls[i].input.active.Some?
       && SamePresence(b, polls[i].input.active.value))
    ensures Run(LoopState(Some(b), 0), polls) == RunResult(LoopState(Some(b), 0), [], |polls|)
    decreases |polls|
  {
    if polls != [] {
      SteadyRun(b, polls[1..]);
    }
  }

  /**
   * A browser that appears and stays the same on the compared fields is published once, at the first tick,
   * even though its URL, private flag and time stamp may change.
   */
  lemma {:induction false} SteadyBrowserPublishedOnce(b: BrowserInfo, c: nat, polls: seq<Poll>)
    requires c < MaxErrors && polls != [] && polls[0] == Poll(false, Detected(Some(b), false))
    requires forall i | 1 <= i < |polls| ::
      (!polls[i].cancelled && polls[i].input.Detected? && polls[i].input.active.Some?
       && SamePresence(b, polls[i].input.active.value))
    ensures Run(LoopState(None, c), polls) == RunResult(LoopState(Some(b), 0), [Update(b)], |polls|)
  {
    SteadyRun(b, polls[1..]);
  }

  // ---------------------------------------------------------------------------------------------------------
  // The service

  /**
   * `BrowserMonitorService`: the running flag, the cancellation token source (whether one exists and whether
   * it was cancelled), the calls made on the presence manager, and the number of loops launched.
   */
  class BrowserMonitorService {
    var isRunning: bool
    var hasTokenSource: bool
    var cancelRequested: bool
    var presenceCalls: seq<PresenceCall>
    var loopsLaunched: nat

    /** A running service has a token source. */
    predicate Valid()
      reads this
    {
      isRunning ==> hasTokenSource
    }

    constructor()
      ensures Valid()
      ensures !isRunning && !hasTokenSource && !cancelRequested && presenceCalls == [] && loopsLaunched == 0
    {
      isRunning := false;
      hasTokenSource := false;
      cancelRequested := false;
      presenceCalls := [];
      loopsLaunched := 0;
    }

    /**
     * `StartAsync`: a running service answers true and does nothing. Otherwise a new token source is made and
     * the presence manager initialised (`initialised` is its answer); on failure the service is left not
     * running and no loop starts, on success one loop is launched.
     */
    method StartAsync(initialised: bool) returns (ok: bool)
      requires Valid()
      modifies this
      ensures Valid()
      ensures old(isRunning) ==> ok && unchanged(this)
      ensures !old(isRunning) ==>
        && ok == initialised && isRunning == initialised
        && hasTokenSource && !cancelRequested
        && presenceCalls == old(presenceCalls) + [Initialize]
        && loopsLaunched == old(loopsLaunched) + (if initialised then 1 else 0)
    {
      if isRunning {
        return true;
      }
      isRunning := true;
      hasTokenSource := true;
      cancelRequested := false;
      presenceCalls := presenceCalls + [Initialize];
      if !initialised {
        isRunning := false;
        return false;
      }
      loopsLaunched := loopsLaunched + 1;
      return true;
    }

    /**
     * `Stop`: does nothing when not running. Otherwise it cancels the token, marks the service not running,
     * then clears and disposes the presence manager; so a second `Stop` does nothing.
     */
    method Stop()
      requires Valid()
      modifies this
      ensures Valid()
      ensures !old(isRunning) ==> unchanged(this)
      ensures old(isRunning) ==>
        && !isRunning && hasTokenSource && cancelRequested
        && presenceCalls == old(presenceCalls) + [Clear, Dispose]
        && loopsLaunched == old(loopsLaunched)
    {
      if !isRunning {
        return;
      }
      if hasTokenSource {
        cancelRequested := true;
      }
      isRunning := false;
      presenceCalls := presenceCalls + [Clear, Dispose];
    }

    /**
     * One pass through the body of `MonitorLoopAsync`'s `while` loop, from `lastBrowser` and `errorCount`:
     * the `try` and its `catch`. `threw` says that the `catch` ran. The new state and the calls made are
     * those of `Step`.
     */
    method Tick(lastBrowser: Option<BrowserInfo>, errorCount: nat, input: TickInput)
      returns (newLast: Option<BrowserInfo>, newCount: nat, threw: bool)
      modifies this
      ensures var t := Step(LoopState(lastBrowser, errorCount), input);
        LoopState(newLast, newCount) == t.state && presenceCalls == old(presenceCalls) + t.calls
      ensures threw <==> newCount == errorCount + 1
      ensures isRunning == old(isRunning) && hasTokenSource == old(hasTokenSource)
      ensures cancelRequested == old(cancelRequested) && loopsLaunched == old(loopsLaunched)
    {
      newLast, newCount, threw := lastBrowser, errorCount, false;
      match input {
        case DetectorThrows =>
          threw := true;
        case Detected(activeBrowser, throwsAfterCall) =>
          if activeBrowser.Some? {
            if lastBrowser.None? || !SamePresence(lastBrowser.value, activeBrowser.value) {
              presenceCalls := presenceCalls + [Update(activeBrowser.value)];
              if throwsAfterCall {
                threw := true;
              } else {
                newLast := activeBrowser;
                newCount := 0;
              }
            }
          } else if lastBrowser.Some? {
            presenceCalls := presenceCalls + [Clear];
            newLast := None;
            threw := throwsAfterCall;
          }
      }
      if threw {
        newCount := newCount + 1;
      }
    }

    /**
     * `MonitorLoopAsync` over the polls it gets to see: it starts with nothing published and no failure,
     * runs `Tick` while the guard holds, and breaks out once a failure brings the count to `MaxErrors`. Only
     * the calls on the presence manager change; in particular the service stays marked running after the
     * loop gives up.
     */
    method MonitorLoop(polls: seq<Poll>) returns (final: LoopState, ticks: nat)
      requires hasTokenSource
      modifies this
      ensures var r := Run(LoopState(None, 0), polls);
        final == r.state && ticks == r.ticks && presenceCalls == old(presenceCalls) + r.calls
      ensures isRunning == old(isRunning) && hasTokenSource == old(hasTokenSource)
      ensures cancelRequested == old(cancelRequested) && loopsLaunched == old(loopsLaunched)
    {
      var lastBrowser: Option<BrowserInfo> := None;
      var errorCount: nat := 0;
      ghost var made: seq<PresenceCall> := [];
      var i := 0;
      while i < |polls| && !polls[i].cancelled && errorCount < MaxErrors
        invariant i <= |polls| && errorCount <= MaxErrors
        invariant presenceCalls == old(presenceCalls) + made
        invariant var rest := Run(LoopState(lastBrowser, errorCount), polls[i..]);
          Run(LoopState(None, 0), polls) == RunResult(rest.state, made + rest.calls, i + rest.ticks)
        invariant isRunning == old(isRunning) && hasTokenSource == old(hasTokenSource)
        invariant cancelRequested == old(cancelRequested) && loopsLaunched == old(loopsLaunched)
        decreases |polls| - i
      {
        Advance(LoopState(None, 0), polls, i, LoopState(lastBrowser, errorCount), made);
        ghost var tick := Step(LoopState(lastBrowser, errorCount), polls[i].input);
        var threw;
        lastBrowser, errorCount, threw := Tick(lastBrowser, errorCount, polls[i].input);
        made := made + tick.calls;
        i := i + 1;
        if threw && errorCount >= MaxErrors {
          break;
        }
      }
      final := LoopState(lastBrowser, errorCount);
      ticks := i;
      Finished(LoopState(None, 0), polls, i, final, made);
    }
  }
}
