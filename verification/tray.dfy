/** The host-side vocabulary shared by both variants of the controller:
    the images assigned to the two status-bar icons, the on-screen bounds the
    controller observes, the host's timer registry, its dialog and quit
    effects, and the events the host delivers. */
module Tray {

  datatype Option<T> = None | Some(value: T)

  /** The bundled image assets, by role; their file paths are abstracted away. */
  datatype Image =
    | Spacer               // spacer.png: the plain spacer
    | SpacerMove           // dotTemplate.png: the spacer while all icons are shown
    | MenuExpand           // expandTemplate.png
    | MenuExpandPressed    // expandPushedTemplate.png
    | MenuCollapse         // collapseTemplate.png
    | MenuCollapsePressed  // collapsePushedTemplate.png

  /** What the controller last assigned to its two icons: the spacer's image,
      the menu icon's image and pressed image, and the menu icon's title. */
  datatype Icons = Icons(spacer: Image, menu: Image, menuPressed: Image, title: string)

  function SpacerImage(showAll: bool): Image {
    if showAll then SpacerMove else Spacer
  }

  function MenuImage(showAll: bool): Image {
    if showAll then MenuCollapse else MenuExpand
  }

  function MenuPressedImage(showAll: bool): Image {
    if showAll then MenuCollapsePressed else MenuExpandPressed
  }

  /** The three images are the ones the given display mode calls for. */
  predicate Renders(icons: Icons, showAll: bool) {
    && icons.spacer == SpacerImage(showAll)
    && icons.menu == MenuImage(showAll)
    && icons.menuPressed == MenuPressedImage(showAll)
  }

  /** The icons are freshly created by createMenuIcon and createSpacerIcon:
      the menu icon always starts with the expand pair, the spacer with the
      image for the starting mode, and no title is set. */
  function CreateIcons(showAll: bool): (icons: Icons)
    ensures icons.spacer == SpacerImage(showAll) && icons.title == ""
    ensures icons.menu == MenuExpand && icons.menuPressed == MenuExpandPressed
    ensures Renders(icons, false) <==> !showAll
  {
    Icons(SpacerImage(showAll), MenuExpand, MenuExpandPressed, "")
  }

  /** An icon rendering shows one mode only, so a display mode can be read
      back from the images. */
  lemma RendersDeterminesMode(icons: Icons, a: bool, b: bool)
    requires Renders(icons, a) && Renders(icons, b)
    ensures a == b
  {
  }

  /** Screen rectangle of a status-bar icon, as the host reports it. */
  datatype Bounds = Bounds(x: int, y: int, width: int, height: int)

  /** One observation of both icons' bounds, made when an event is handled. */
  datatype Screen = Screen(menu: Bounds, spacer: Bounds)

  /** The icons are in the expected order: the menu icon is at or to the
      right of the spacer, so nothing has been inserted between them. */
  predicate CheckBounds(screen: Screen) {
    screen.menu.x >= screen.spacer.x
  }

  type Handle = nat

  /** The host's side of the controller's effects: which timers are still
      scheduled, the next handle it will hand out, how many dialogs were
      shown, and how many times quit was requested. */
  datatype Host = Host(live: set<Handle>, nextHandle: Handle, dialogs: nat, quits: nat)

  function HandleSet(timer: Option<Handle>): (hs: set<Handle>)
    ensures |hs| <= 1
    ensures forall h :: h in hs <==> timer == Some(h)
  {
    if timer.Some? then {timer.value} else {}
  }

  /** Every scheduled timer carries a handle below the next one to be issued. */
  predicate Fresh(host: Host) {
    forall h :: h in host.live ==> h < host.nextHandle
  }

  /** setTimeout / setInterval: schedule a new timer and return its handle. */
  function Schedule(host: Host): (r: (Host, Handle))
    ensures Fresh(host) ==> r.1 !in host.live && Fresh(r.0)
    ensures r.0.live == host.live + {r.1}
    ensures r.0.dialogs == host.dialogs && r.0.quits == host.quits
  {
    (host.(live := host.live + {host.nextHandle}, nextHandle := host.nextHandle + 1), host.nextHandle)
  }

  /** clearTimeout / clearInterval, and the expiry of a one-shot timer. */
  function Unschedule(host: Host, h: Handle): (r: Host)
    ensures h !in r.live && r.live + {h} >= host.live && r.live <= host.live
    ensures Fresh(host) ==> Fresh(r)
    ensures r.nextHandle == host.nextHandle && r.dialogs == host.dialogs && r.quits == host.quits
  {
    host.(live := host.live - {h})
  }

  /** showMessageBox: one more dialog shown. */
  function ShowDialog(host: Host): (r: Host)
    ensures r.dialogs == host.dialogs + 1
    ensures r.live == host.live && r.nextHandle == host.nextHandle && r.quits == host.quits
  {
    host.(dialogs := host.dialogs + 1)
  }

  /** The events the host delivers to the controller once it is ready. The
      screen observation is what checkBounds would read while the handler
      runs. */
  datatype Event =
    | MenuClick(screen: Screen)
    | SpacerClick(screen: Screen)
    | MenuRightClick
    | TimerFire(handle: Handle, screen: Screen)
    | HealthCheck(screen: Screen)

  predicate HasRightClick(events: seq<Event>) {
    exists i :: 0 <= i < |events| && events[i].MenuRightClick?
  }

  lemma HasRightClickCons(events: seq<Event>)
    requires |events| > 0
    ensures HasRightClick(events) <==> events[0].MenuRightClick? || HasRightClick(events[1..])
  {
    if HasRightClick(events[1..]) {
      var i :| 0 <= i < |events[1..]| && events[1..][i].MenuRightClick?;
      assert events[i + 1].MenuRightClick?;
    }
    if HasRightClick(events) && !events[0].MenuRightClick? {
      var i :| 0 <= i < |events| && events[i].MenuRightClick?;
      assert events[1..][i - 1].MenuRightClick?;
    }
  }
}
