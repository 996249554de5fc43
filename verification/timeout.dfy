/** The one-shot timeout variant of the HideMenuExtraApp controller
    (src/main.ts, and main.js compiled from it with the same logic): showing
    all icons from the menu icon arms a single auto-hide timeout that requests
    hiding when it fires. No title is ever shown. */
module Timeout {
  import opened Tray

  /** The controller's fields (mode flag, timeout handle), the images it last
      assigned, and the host effects it caused. */
  datatype State = State(showAll: bool, icons: Icons, timer: Option<Handle>, host: Host)

  /** showIconMode: as in the countdown variant, but the title is left alone. */
  function ShowIconMode(icons: Icons, showAll: bool, screen: Screen): (r: (Icons, bool))
    ensures !CheckBounds(screen) && !showAll ==> r.1 && r.0 == icons
    ensures CheckBounds(screen) || showAll ==>
      r.1 == showAll && Renders(r.0, showAll) && r.0.title == icons.title
    ensures !r.1 ==> CheckBounds(screen)
  {
    if !CheckBounds(screen) && !showAll then (icons, !showAll)
    else (Icons(SpacerImage(showAll), MenuImage(showAll), MenuPressedImage(showAll), icons.title), showAll)
  }

  /** Calling showIconMode again for the same mode changes nothing further:
      always when showing all, and for a hide request as long as the icons'
      order has not changed in between. */
  lemma ShowIconModeIdempotent(icons: Icons, showAll: bool, first: Screen, second: Screen)
    requires showAll || CheckBounds(first) == CheckBounds(second)
    ensures var (once, m) := ShowIconMode(icons, showAll, first);
            ShowIconMode(once, showAll, second) == (once, m)
  {
  }

  /** The guard refuses a request exactly when it is a hide request and the
      menu icon is to the left of the spacer. */
  lemma RefusedIffMisalignedHide(icons: Icons, showAll: bool, screen: Screen)
    ensures ShowIconMode(icons, showAll, screen).1 != showAll
        <==> !showAll && screen.menu.x < screen.spacer.x
  {
  }

  /** Assigns the outcome of showIconMode to the mode flag. */
  function Apply(s: State, shown: (Icons, bool)): State {
    s.(icons := shown.0, showAll := shown.1)
  }

  /** resetAutoHideTimer: clears the pending timeout, if any, and arms a new
      one. */
  function ResetAutoHideTimer(s: State): (r: State)
    ensures r.timer.Some? && r.timer.value in r.host.live
    ensures s.timer.Some? && s.timer.value != r.timer.value ==> s.timer.value !in r.host.live
    ensures Fresh(s.host) ==> r.timer.value !in s.host.live && Fresh(r.host)
    ensures s.host.live <= HandleSet(s.timer) ==> r.host.live == {r.timer.value}
    ensures r.showAll == s.showAll && r.icons == s.icons
    ensures r.host.dialogs == s.host.dialogs && r.host.quits == s.host.quits
    ensures r.host.nextHandle == s.host.nextHandle + 1
  {
    var host := if s.timer.Some? then Unschedule(s.host, s.timer.value) else s.host;
    var (host', h) := Schedule(host);
    s.(host := host', timer := Some(h))
  }

  /** The timeout callback: the one-shot timer is spent, the handle is
      forgotten and hiding is requested. A handle the host no longer has
      scheduled never fires. */
  function OnTimeout(s: State, h: Handle, screen: Screen): (r: State)
    ensures h !in s.host.live ==> r == s
    ensures h in s.host.live ==>
      && r.timer.None? && r.host.live == s.host.live - {h}
      && (r.showAll <==> !CheckBounds(screen))
      && (if CheckBounds(screen) then Renders(r.icons, false) else r.icons == s.icons)
    ensures h in s.host.live ==>
      && r.host.dialogs == s.host.dialogs && r.host.quits == s.host.quits
      && r.host.nextHandle == s.host.nextHandle
  {
    if h !in s.host.live then s
    else
      var s1 := s.(host := Unschedule(s.host, h), timer := None);
      Apply(s1, ShowIconMode(s1.icons, false, screen))
  }

  /** OnClickMenuIcon: toggles the mode and re-arms the timeout when the
      result is show-all; hiding leaves a pending timeout in place. */
  function OnClickMenuIcon(s: State, screen: Screen): (r: State)
    ensures r.showAll == (!s.showAll || !CheckBounds(screen))
    ensures r.showAll ==> r.timer.Some? && r.timer.value in r.host.live
    ensures !r.showAll ==> r.timer == s.timer && r.host == s.host
    ensures r.showAll != s.showAll ==> Renders(r.icons, r.showAll)
    ensures r.showAll == s.showAll ==> r.icons == s.icons
    ensures r.host.dialogs == s.host.dialogs && r.host.quits == s.host.quits
    ensures r.showAll ==> r.host.nextHandle == s.host.nextHandle + 1
  {
    var s1 := Apply(s, ShowIconMode(s.icons, !s.showAll, screen));
    if s1.showAll then ResetAutoHideTimer(s1) else s1
  }

  /** OnClickSpacerIcon: toggles the mode and never touches the timeout. */
  function OnClickSpacerIcon(s: State, screen: Screen): (r: State)
    ensures r.showAll == (!s.showAll || !CheckBounds(screen))
    ensures r.timer == s.timer && r.host == s.host
    ensures r.showAll != s.showAll ==> Renders(r.icons, r.showAll)
    ensures r.showAll == s.showAll ==> r.icons == s.icons
  {
    Apply(s, ShowIconMode(s.icons, !s.showAll, screen))
  }

  /** OnRightClickMenuIcon: asks the application to quit. */
  function OnRightClickMenuIcon(s: State): (r: State)
    ensures r.host.quits == s.host.quits + 1
    ensures r.(host := s.host) == s && r.host.live == s.host.live
    ensures r.host.dialogs == s.host.dialogs && r.host.nextHandle == s.host.nextHandle
  {
    s.(host := s.host.(quits := s.host.quits + 1))
  }

  /** verifyIconsAccessible: nothing while the icons are in order; otherwise
      show everything and tell the user, with one dialog per check. */
  function VerifyIconsAccessible(s: State, screen: Screen): (r: State)
    ensures CheckBounds(screen) ==> r == s
    ensures !CheckBounds(screen) ==>
      && r.showAll && Renders(r.icons, true)
      && r.host.dialogs == s.host.dialogs + 1
      && r.timer == s.timer && r.host.live == s.host.live
  {
    if CheckBounds(screen) then s
    else
      var s1 := Apply(s, ShowIconMode(s.icons, true, screen));
      s1.(host := ShowDialog(s1.host))
  }

  /** OnAppReady, from the constructor's fields (show all, no timeout):
      creates both icons and shows all of them. No timeout is armed. */
  function OnAppReady(screen: Screen): (r: State)
    ensures r.showAll && Renders(r.icons, true) && r.icons.title == ""
    ensures r.timer.None? && r.host.live == {}
    ensures r.host.dialogs == 0 && r.host.quits == 0
    ensures Inv(r)
  {
    var s := State(true, CreateIcons(true), None, Host({}, 0, 0, 0));
    s.(icons := ShowIconMode(s.icons, true, screen).0)
  }

  /** One delivered event; once quit was requested nothing else is handled. */
  function Step(s: State, e: Event): State {
    if s.host.quits > 0 then s
    else match e
      case MenuClick(screen) => OnClickMenuIcon(s, screen)
      case SpacerClick(screen) => OnClickSpacerIcon(s, screen)
      case MenuRightClick => OnRightClickMenuIcon(s)
      case TimerFire(h, screen) => OnTimeout(s, h, screen)
      case HealthCheck(screen) => VerifyIconsAccessible(s, screen)
  }

  function Run(s: State, events: seq<Event>): State
    decreases |events|
  {
    if |events| == 0 then s else Run(Step(s, events[0]), events[1..])
  }

  /** What holds of every state reached after OnAppReady: the host has
      exactly the timeout the controller holds, the title stays empty, and
      quit was requested at most once. Agreement of flag and images is NOT
      part of it (see AgreementBreaksIff). */
  predicate Inv(s: State) {
    && Fresh(s.host)
    && s.host.live == HandleSet(s.timer)
    && s.icons.title == ""
    && s.host.quits <= 1
  }

  lemma StepPreservesInv(s: State, e: Event)
    requires Inv(s)
    ensures Inv(Step(s, e))
  {
  }

  lemma {:induction false} RunPreservesInv(s: State, events: seq<Event>)
    requires Inv(s)
    ensures Inv(Run(s, events))
    ensures |Run(s, events).host.live| <= 1
    decreases |events|
  {
    if |events| > 0 {
      StepPreservesInv(s, events[0]);
      RunPreservesInv(Step(s, events[0]), events[1..]);
    }
  }

  /** From a state whose flag and images agree, one event breaks the
      agreement exactly when it is the pending timeout firing while the icons
      are out of order and the flag already says hide: the refused hide
      returns true, which is stored as the flag, while the images still show
      the hidden mode. */
  lemma AgreementBreaksIff(s: State, e: Event)
    requires Inv(s) && Renders(s.icons, s.showAll) && s.host.quits == 0
    ensures !Renders(Step(s, e).icons, Step(s, e).showAll)
        <==> e.TimerFire? && e.handle in s.host.live && !CheckBounds(e.screen) && !s.showAll
  {
    if e.TimerFire? && e.handle in s.host.live && !CheckBounds(e.screen) && !s.showAll {
      var r := Step(s, e);
      if Renders(r.icons, r.showAll) {
        RendersDeterminesMode(s.icons, s.showAll, r.showAll);
      }
    }
  }

  const Aligned: Screen := Screen(Bounds(120, 0, 22, 22), Bounds(100, 0, 22, 22))
  const Misaligned: Screen := Screen(Bounds(100, 0, 22, 22), Bounds(120, 0, 22, 22))

  /** A run that ends with the flag saying show-all while the images show
      the hidden mode: hide, show again (arming timeout 0), hide with the
      spacer (the timeout stays pending), then the timeout fires after the
      icons were moved out of order. */
  lemma FlagImagesDisagree()
    ensures var r := Run(OnAppReady(Aligned),
                         [MenuClick(Aligned), MenuClick(Aligned), SpacerClick(Aligned), TimerFire(0, Misaligned)]);
      r.showAll && Renders(r.icons, false)
  {
    var s0 := OnAppReady(Aligned);
    var s1 := Step(s0, MenuClick(Aligned));
    var s2 := Step(s1, MenuClick(Aligned));
    assert s2.timer == Some(0) && 0 in s2.host.live;
    var s3 := Step(s2, SpacerClick(Aligned));
    assert !s3.showAll && 0 in s3.host.live;
    var s4 := Step(s3, TimerFire(0, Misaligned));
    assert s4.showAll && Renders(s4.icons, false);
    var events := [MenuClick(Aligned), MenuClick(Aligned), SpacerClick(Aligned), TimerFire(0, Misaligned)];
    assert Run(s0, events) == Run(s1, events[1..]);
    assert Run(s1, events[1..]) == Run(s2, events[2..]);
    assert Run(s2, events[2..]) == Run(s3, events[3..]);
    assert Run(s3, events[3..]) == Run(s4, []);
  }

  /** Quit is requested once at most, and exactly when a right-click is
      delivered; nothing is handled after it. */
  lemma {:induction false} QuitIffRightClick(s: State, events: seq<Event>)
    requires s.host.quits == 0
    ensures Run(s, events).host.quits == if HasRightClick(events) then 1 else 0
    decreases |events|
  {
    if |events| > 0 {
      var s1 := Step(s, events[0]);
      if events[0].MenuRightClick? {
        assert HasRightClick(events);
        NothingAfterQuit(s1, events[1..]);
      } else {
        QuitIffRightClick(s1, events[1..]);
        HasRightClickCons(events);
      }
    }
  }

  lemma {:induction false} NothingAfterQuit(s: State, events: seq<Event>)
    requires s.host.quits > 0
    ensures Run(s, events) == s
    decreases |events|
  {
    if |events| > 0 {
      NothingAfterQuit(Step(s, events[0]), events[1..]);
    }
  }

  // The corrected variant: every click that ends in hide mode also clears the
  // pending timeout, as the countdown variant does, so a timeout is pending
  // only while everything is shown.

  function CancelAutoHideTimer(s: State): (r: State)
    ensures r.timer.None? && r.host.live == s.host.live - HandleSet(s.timer)
    ensures r.showAll == s.showAll && r.icons == s.icons
    ensures r.host.dialogs == s.host.dialogs && r.host.quits == s.host.quits
  {
    if s.timer.Some? then s.(host := Unschedule(s.host, s.timer.value), timer := None) else s
  }

  function OnClickMenuIconCorrected(s: State, screen: Screen): (r: State)
    ensures r.showAll == (!s.showAll || !CheckBounds(screen))
    ensures r.showAll <==> r.timer.Some?
  {
    var s1 := Apply(s, ShowIconMode(s.icons, !s.showAll, screen));
    if s1.showAll then ResetAutoHideTimer(s1) else CancelAutoHideTimer(s1)
  }

  function OnClickSpacerIconCorrected(s: State, screen: Screen): (r: State)
    ensures r.showAll == (!s.showAll || !CheckBounds(screen))
    ensures !r.showAll ==> r.timer.None?
    ensures r.showAll ==> r.timer == s.timer
  {
    var s1 := Apply(s, ShowIconMode(s.icons, !s.showAll, screen));
    if s1.showAll then s1 else CancelAutoHideTimer(s1)
  }

  function StepCorrected(s: State, e: Event): State {
    if s.host.quits > 0 then s
    else match e
      case MenuClick(screen) => OnClickMenuIconCorrected(s, screen)
      case SpacerClick(screen) => OnClickSpacerIconCorrected(s, screen)
      case MenuRightClick => OnRightClickMenuIcon(s)
      case TimerFire(h, screen) => OnTimeout(s, h, screen)
      case HealthCheck(screen) => VerifyIconsAccessible(s, screen)
  }

  function RunCorrected(s: State, events: seq<Event>): State
    decreases |events|
  {
    if |events| == 0 then s else RunCorrected(StepCorrected(s, events[0]), events[1..])
  }

  /** The corrected variant's invariant adds what the code as written lacks:
      a pending timeout implies show-all mode, and flag and images agree. */
  predicate InvCorrected(s: State) {
    && Inv(s)
    && Renders(s.icons, s.showAll)
    && (s.timer.Some? ==> s.showAll)
  }

  lemma StepCorrectedPreservesInv(s: State, e: Event)
    requires InvCorrected(s)
    ensures InvCorrected(StepCorrected(s, e))
  {
  }

  /** In the corrected variant the flag and the images agree in every state
      reached after OnAppReady, whatever the host delivers. */
  lemma {:induction false} CorrectedAgreement(s: State, events: seq<Event>)
    requires InvCorrected(s)
    ensures var r := RunCorrected(s, events); InvCorrected(r) && Renders(r.icons, r.showAll)
    decreases |events|
  {
    if |events| > 0 {
      StepCorrectedPreservesInv(s, events[0]);
      CorrectedAgreement(StepCorrected(s, events[0]), events[1..]);
    }
  }
}
