/** The per-second countdown variant of the HideMenuExtraApp controller
    (dist/main.js): an auto-hide countdown of AUTOHIDE_TIMEOUT one-second
    ticks, shown as the menu icon's title, that hides the extras when it runs
    out. Each handler is a pure transition of an immutable state. */
module Countdown {
  import opened Tray
  import Decimal

  /** Ticks of the auto-hide countdown. */
  const AUTOHIDE_TIMEOUT: int := 10

  /** The controller's fields (mode flag, interval handle, seconds left), the
      images it last assigned, and the host effects it caused. */
  datatype State = State(
    showAll: bool,
    icons: Icons,
    timer: Option<Handle>,
    secondsLeft: int,
    host: Host)

  /** showIconMode: the images for the requested mode and the mode that is in
      effect afterwards. A request to hide while the icons are out of order
      is refused. */
  function ShowIconMode(icons: Icons, showAll: bool, screen: Screen): (r: (Icons, bool))
    ensures !CheckBounds(screen) && !showAll ==> r.1 && r.0 == icons
    ensures CheckBounds(screen) || showAll ==> r.1 == showAll && Renders(r.0, showAll) && r.0.title == ""
    ensures !r.1 ==> CheckBounds(screen)
  {
    if !CheckBounds(screen) && !showAll then (icons, !showAll)
    else (Icons(SpacerImage(showAll), MenuImage(showAll), MenuPressedImage(showAll), ""), showAll)
  }

  /** showIconMode changes nothing further when called again for the same
      mode: always when showing all, and for a hide request as long as the
      icons' order has not changed in between. */
  lemma ShowIconModeIdempotent(icons: Icons, showAll: bool, first: Screen, second: Screen)
    requires showAll || CheckBounds(first) == CheckBounds(second)
    ensures var (once, m) := ShowIconMode(icons, showAll, first);
            ShowIconMode(once, showAll, second) == (once, m)
  {
  }

  /** The guard refuses a request exactly when it is a hide request and the
      menu icon is to the left of the spacer. */
  lemma RefusedIffMisalignedHide(icons: Icons, showAll: bool, screen: Screen)
    ensures ShowIconMode(icons, showAll, screen).1 != showAll
        <==> !showAll && screen.menu.x < screen.spacer.x
  {
  }

  /** Assigns the outcome of showIconMode to the mode flag. */
  function Apply(s: State, shown: (Icons, bool)): State {
    s.(icons := shown.0, showAll := shown.1)
  }

  /** cancelCountdownTimer: stops the interval, if any, and clears its title. */
  function CancelCountdownTimer(s: State): (r: State)
    ensures s.timer.None? ==> r == s
    ensures s.timer.Some? ==>
      && r.timer.None?
      && s.timer.value !in r.host.live
      && r.host == Unschedule(s.host, s.timer.value)
      && r.icons == s.icons.(title := "")
      && r.showAll == s.showAll && r.secondsLeft == s.secondsLeft
  {
    match s.timer
    case None => s
    case Some(h) => s.(timer := None, host := Unschedule(s.host, h), icons := s.icons.(title := ""))
  }

  /** enableCountdownTimer: cancels any running countdown, then starts a new
      interval with AUTOHIDE_TIMEOUT seconds left, shown as the title. */
  function EnableCountdownTimer(s: State): (r: State)
    ensures r.timer.Some? && r.host.live == CancelCountdownTimer(s).host.live + {r.timer.value}
    ensures Fresh(s.host) ==> r.timer.value !in s.host.live && Fresh(r.host)
    ensures s.timer.Some? && s.timer.value != r.timer.value ==> s.timer.value !in r.host.live
    ensures s.host.live <= HandleSet(s.timer) ==> r.host.live == {r.timer.value}
    ensures r.secondsLeft == AUTOHIDE_TIMEOUT && r.icons.title == Decimal.Show(AUTOHIDE_TIMEOUT)
    ensures r.showAll == s.showAll && r.icons.(title := "") == s.icons.(title := "")
    ensures r.host.dialogs == s.host.dialogs && r.host.quits == s.host.quits
  {
    var c := CancelCountdownTimer(s);
    var (host, h) := Schedule(c.host);
    c.(secondsLeft := AUTOHIDE_TIMEOUT, icons := c.icons.(title := Decimal.Show(AUTOHIDE_TIMEOUT)),
       host := host, timer := Some(h))
  }

  /** The interval callback: one second less, shown as the title; when no
      time is left the countdown stops and hiding is requested. A handle the
      host no longer has scheduled never fires. */
  function OnTick(s: State, h: Handle, screen: Screen): (r: State)
    ensures h !in s.host.live ==> r == s
    ensures h in s.host.live ==> r.secondsLeft == s.secondsLeft - 1 && r.host.dialogs == s.host.dialogs
    ensures h in s.host.live && s.secondsLeft > 1 ==>
      && r.timer == s.timer && r.host == s.host && r.showAll == s.showAll
      && r.icons == s.icons.(title := Decimal.Show(s.secondsLeft - 1))
    ensures h in s.host.live && s.secondsLeft <= 1 && s.timer == Some(h) ==>
      && r.timer.None? && r.host.live == s.host.live - {h}
      && (r.showAll <==> !CheckBounds(screen))
      && (if CheckBounds(screen) then Renders(r.icons, false) else r.icons == s.icons.(title := ""))
      && r.icons.title == ""
  {
    if h !in s.host.live then s
    else
      var left := s.secondsLeft - 1;
      var s1 := s.(secondsLeft := left, icons := s.icons.(title := Decimal.Show(left)));
      if left <= 0 then
        var s2 := CancelCountdownTimer(s1);
        Apply(s2, ShowIconMode(s2.icons, false, screen))
      else s1
  }

  /** OnClickMenuIcon: toggles the mode; showing all restarts the countdown,
      hiding cancels it. */
  function OnClickMenuIcon(s: State, screen: Screen): (r: State)
    ensures r.showAll == (!s.showAll || !CheckBounds(screen))
    ensures r.showAll ==> r.timer.Some? && r.timer.value in r.host.live && r.secondsLeft == AUTOHIDE_TIMEOUT
    ensures r.showAll ==> r.icons.title == Decimal.Show(AUTOHIDE_TIMEOUT)
    ensures !r.showAll ==> r.timer.None? && Renders(r.icons, false) && r.icons.title == ""
    ensures r.showAll != s.showAll ==> Renders(r.icons, r.showAll)
    ensures r.showAll == s.showAll ==> r.icons.(title := "") == s.icons.(title := "")
    ensures s.timer.Some? && r.timer != s.timer ==> s.timer.value !in r.host.live
    ensures r.host.dialogs == s.host.dialogs && r.host.quits == s.host.quits
  {
    var s1 := Apply(s, ShowIconMode(s.icons, !s.showAll, screen));
    if s1.showAll then EnableCountdownTimer(s1) else CancelCountdownTimer(s1)
  }

  /** OnClickSpacerIcon: while a countdown runs the click only cancels it;
      otherwise it toggles the mode like the menu icon. */
  function OnClickSpacerIcon(s: State, screen: Screen): (r: State)
    ensures s.timer.Some? ==> r == CancelCountdownTimer(s) && r.showAll == s.showAll
    ensures s.timer.None? ==> r.timer.None? && r.showAll == (!s.showAll || !CheckBounds(screen))
    ensures s.timer.None? && r.showAll != s.showAll ==> Renders(r.icons, r.showAll) && r.icons.title == ""
    ensures s.timer.None? && r.showAll == s.showAll ==> r.icons == s.icons
    ensures r.timer.None? && r.host.dialogs == s.host.dialogs
  {
    if s.timer.Some? then CancelCountdownTimer(s)
    else Apply(s, ShowIconMode(s.icons, !s.showAll, screen))
  }

  /** OnRightClickMenuIcon: asks the application to quit. */
  function OnRightClickMenuIcon(s: State): (r: State)
    ensures r.host.quits == s.host.quits + 1
    ensures r.(host := s.host) == s && r.host.live == s.host.live
    ensures r.host.dialogs == s.host.dialogs && r.host.nextHandle == s.host.nextHandle
  {
    s.(host := s.host.(quits := s.host.quits + 1))
  }

  /** verifyIconsAccessible: nothing while the icons are in order; otherwise
      show everything and tell the user, with one dialog per check. */
  function VerifyIconsAccessible(s: State, screen: Screen): (r: State)
    ensures CheckBounds(screen) ==> r == s
    ensures !CheckBounds(screen) ==>
      && r.showAll && Renders(r.icons, true)
      && r.host.dialogs == s.host.dialogs + 1
      && r.timer == s.timer && r.host.live == s.host.live && r.secondsLeft == s.secondsLeft
      && r.icons.title == "" && r.host.quits == s.host.quits
  {
    if CheckBounds(screen) then s
    else
      var s1 := Apply(s, ShowIconMode(s.icons, true, screen));
      s1.(host := ShowDialog(s1.host))
  }

  /** OnAppReady, from the constructor's fields (show all, no interval, no
      seconds left): creates both icons, shows all of them and starts the
      countdown. */
  function OnAppReady(screen: Screen): (r: State)
    ensures r.showAll && Renders(r.icons, true)
    ensures r.timer.Some? && r.host.live == {r.timer.value}
    ensures r.secondsLeft == AUTOHIDE_TIMEOUT && r.icons.title == Decimal.Show(AUTOHIDE_TIMEOUT)
    ensures r.host.dialogs == 0 && r.host.quits == 0
    ensures Inv(r)
  {
    var s := State(true, CreateIcons(true), None, 0, Host({}, 0, 0, 0));
    var s1 := s.(icons := ShowIconMode(s.icons, true, screen).0);
    EnableCountdownTimer(s1)
  }

  /** One delivered event; once quit was requested nothing else is handled. */
  function Step(s: State, e: Event): State {
    if s.host.quits > 0 then s
    else match e
      case MenuClick(screen) => OnClickMenuIcon(s, screen)
      case SpacerClick(screen) => OnClickSpacerIcon(s, screen)
      case MenuRightClick => OnRightClickMenuIcon(s)
      case TimerFire(h, screen) => OnTick(s, h, screen)
      case HealthCheck(screen) => VerifyIconsAccessible(s, screen)
  }

  function Run(s: State, events: seq<Event>): State
    decreases |events|
  {
    if |events| == 0 then s else Run(Step(s, events[0]), events[1..])
  }

  /** What holds of every state the controller reaches after OnAppReady:
      the host schedules exactly the interval the controller holds, the
      images show the mode, a live countdown has between 1 and
      AUTOHIDE_TIMEOUT seconds left and implies show-all mode, and quit was
      requested at most once. A health check that shows all icons blanks the
      title until the next tick, hence the second alternative for the title. */
  predicate Inv(s: State) {
    && Fresh(s.host)
    && s.host.live == HandleSet(s.timer)
    && Renders(s.icons, s.showAll)
    && (s.timer.Some? ==>
          && s.showAll
          && 1 <= s.secondsLeft <= AUTOHIDE_TIMEOUT
          && (s.icons.title == Decimal.Show(s.secondsLeft) || s.icons.title == ""))
    && (s.timer.None? ==> s.icons.title == "")
    && s.host.quits <= 1
  }

  lemma StepPreservesInv(s: State, e: Event)
    requires Inv(s)
    ensures Inv(Step(s, e))
  {
    if s.host.quits == 0 {
      match e
      case MenuClick(screen) =>
      case SpacerClick(screen) =>
      case MenuRightClick =>
      case TimerFire(h, screen) =>
      case HealthCheck(screen) =>
    }
  }

  lemma {:induction false} RunPreservesInv(s: State, events: seq<Event>)
    requires Inv(s)
    ensures Inv(Run(s, events))
    decreases |events|
  {
    if |events| > 0 {
      StepPreservesInv(s, events[0]);
      RunPreservesInv(Step(s, events[0]), events[1..]);
    }
  }

  /** After OnAppReady, whatever the host delivers: the mode flag and the
      images agree, at most one interval is scheduled, and a scheduled one
      belongs to a show-all countdown. */
  lemma ReachableStates(screen: Screen, events: seq<Event>)
    ensures var r := Run(OnAppReady(screen), events);
      && Renders(r.icons, r.showAll)
      && |r.host.live| <= 1
      && (r.timer.Some? ==> r.showAll && r.host.live == {r.timer.value})
  {
    RunPreservesInv(OnAppReady(screen), events);
  }

  /** n ticks of interval h, each observing the same screen. */
  function Ticks(s: State, h: Handle, n: nat, screen: Screen): State
    decreases n
  {
    if n == 0 then s else Ticks(Step(s, TimerFire(h, screen)), h, n - 1, screen)
  }

  /** Before the countdown runs out every tick takes off exactly one second,
      shows what is left, and leaves the interval and the mode alone. */
  lemma {:induction false} CountdownRunning(s: State, h: Handle, n: nat, screen: Screen)
    requires Inv(s) && s.timer == Some(h) && s.host.quits == 0
    requires n < s.secondsLeft
    ensures var r := Ticks(s, h, n, screen);
      && Inv(r) && r.host.quits == 0
      && r.timer == Some(h) && r.showAll && r.secondsLeft == s.secondsLeft - n
      && (n > 0 ==> r.icons.title == Decimal.Show(r.secondsLeft))
    decreases n
  {
    if n > 0 {
      var s1 := Step(s, TimerFire(h, screen));
      StepPreservesInv(s, TimerFire(h, screen));
      CountdownRunning(s1, h, n - 1, screen);
    }
  }

  /** A live countdown ends after exactly as many ticks as it has seconds
      left: the interval is gone, the title is empty, and the extras are
      hidden unless the icons are out of order at the last tick. */
  lemma CountdownExpires(s: State, h: Handle, screen: Screen)
    requires Inv(s) && s.timer == Some(h) && s.host.quits == 0
    ensures var r := Ticks(s, h, s.secondsLeft as nat, screen);
      && Inv(r)
      && r.timer.None? && r.host.live == {} && r.icons.title == ""
      && (r.showAll <==> !CheckBounds(screen))
  {
    var n := s.secondsLeft - 1;
    CountdownRunning(s, h, n, screen);
    var last := Ticks(s, h, n, screen);
    StepPreservesInv(last, TimerFire(h, screen));
    TicksSplit(s, h, n, screen);
  }

  lemma {:induction false} TicksSplit(s: State, h: Handle, n: nat, screen: Screen)
    ensures Ticks(s, h, n + 1, screen) == Step(Ticks(s, h, n, screen), TimerFire(h, screen))
    decreases n
  {
    if n > 0 {
      TicksSplit(Step(s, TimerFire(h, screen)), h, n - 1, screen);
    }
  }

  /** From startup with the icons in order, nine ticks leave the countdown
      running with one second left and the tenth hides the extras. */
  lemma TenTicksHide(screen: Screen)
    requires CheckBounds(screen)
    ensures var s := OnAppReady(screen);
      && Ticks(s, s.timer.value, 9, screen).timer == s.timer
      && Ticks(s, s.timer.value, 9, screen).secondsLeft == 1
      && !Ticks(s, s.timer.value, 10, screen).showAll
      && Ticks(s, s.timer.value, 10, screen).timer.None?
  {
    var s := OnAppReady(screen);
    CountdownRunning(s, s.timer.value, 9, screen);
    CountdownExpires(s, s.timer.value, screen);
  }

  /** Quit is requested once at most, and exactly when a right-click is
      delivered; nothing is handled after it. */
  lemma {:induction false} QuitIffRightClick(s: State, events: seq<Event>)
    requires s.host.quits == 0
    ensures Run(s, events).host.quits == if HasRightClick(events) then 1 else 0
    decreases |events|
  {
    if |events| > 0 {
      var s1 := Step(s, events[0]);
      if events[0].MenuRightClick? {
        assert HasRightClick(events);
        NothingAfterQuit(s1, events[1..]);
      } else {
        QuitIffRightClick(s1, events[1..]);
        HasRightClickCons(events);
      }
    }
  }

  lemma {:induction false} NothingAfterQuit(s: State, events: seq<Event>)
    requires s.host.quits > 0
    ensures Run(s, events) == s
    decreases |events|
  {
    if |events| > 0 {
      NothingAfterQuit(Step(s, events[0]), events[1..]);
    }
  }
}
