/**
 The homepage as a state machine. Its state is the active section, the
 mobile drawer flag and the image slider, which exists only while the main
 view is shown: choosing another section tears the slider down together
 with its interval timer, and coming back mounts a fresh slider at slide 0.

 Every input (timer firing or click) is a serialised UI event, so each is a
 pure transition `Step` from one page to the next.
 */
module Homepage {
  import opened Options
  import opened Navigation
  import Carousel

  /** Number of entries in `slideImages`. */
  const SlideCount: nat := 3

  /** The slider component: absent, or mounted with its cursor. */
  datatype Slider = Unmounted | Mounted(index: int)

  datatype Page = Page(section: Section, menuOpen: bool, slider: Slider)

  /** The page invariant: the slider is mounted exactly on the main view,
      and its cursor names an existing slide. */
  predicate Valid(p: Page) {
    && (p.slider.Mounted? <==> p.section == Main)
    && (p.slider.Mounted? ==> Carousel.InRange(p.slider.index, SlideCount))
  }

  /** The page as first rendered: the main view, the drawer closed and a
      fresh slider at the first slide. */
  const Initial: Page := Page(Main, false, Mounted(0))

  /** `setCurrentSection(s)`. Setting the section it already has leaves
      the page as it is; otherwise the slider is mounted fresh when the new
      section is the main view and torn down when it is not. The drawer
      flag is never touched. */
  function SetSection(p: Page, s: Section): (q: Page)
    ensures q.section == s && q.menuOpen == p.menuOpen
    ensures Valid(p) ==> Valid(q)
    ensures p.section == s ==> q.slider == p.slider
    ensures p.section != Main && s == Main ==> q.slider == Mounted(0)
  {
    if s == p.section then p
    else if s == Main then Page(s, p.menuOpen, Mounted(0))
    else Page(s, p.menuOpen, Unmounted)
  }

  /** Deliver a slider event to the slider, if one is mounted; with none
      mounted there is neither a timer nor a button to deliver it. */
  function SliderStep(p: Page, e: Carousel.SliderEvent): (q: Page)
    ensures q.section == p.section && q.menuOpen == p.menuOpen
    ensures q.slider.Mounted? == p.slider.Mounted?
    ensures Valid(p) && Carousel.Offered(SlideCount, e) ==> Valid(q)
  {
    match p.slider
    case Unmounted => p
    case Mounted(i) => p.(slider := Mounted(Carousel.Step(i, SlideCount, e)))
  }

  /** The inputs of the page. */
  datatype Event =
    | SliderTick               // the slider's interval fires
    | SliderDot(target: int)   // a position dot is clicked
    | SliderPrev               // the back arrow
    | SliderNext               // the forward arrow
    | TitleClick               // the "CARD BASE" title in the header
    | NavButton(s: Section)    // a header navigation button
    | SectionHeading(s: Section) // a section heading on the main view
    | MenuIcon                 // the hamburger icon
    | MenuItem(s: Section)     // an item of the mobile drawer
    | MenuDismiss              // the drawer is dismissed

  /** The two responsive layouts. A wide screen shows the header buttons
      and hides the hamburger icon and the drawer; a narrow screen hides the
      header buttons and shows the icon and the drawer. */
  datatype Layout = Desktop | Mobile

  /** Whether the page rendered in a layout can deliver an event: slider
      inputs only while the slider is mounted (and dots only for existing
      slides), the section headings only on the main view, header buttons
      only on a wide screen, the icon and the drawer only on a narrow one,
      and drawer items and dismissal only while the drawer is open. On a
      narrow screen the open drawer's backdrop covers the page, so then no
      click reaches the title, the slider or the headings; the interval
      keeps firing. Buttons, headings and drawer items carry only the four
      menu sections. */
  predicate Offered(layout: Layout, p: Page, e: Event) {
    var pageClickable := layout == Desktop || !p.menuOpen;
    match e
    case SliderTick => p.slider.Mounted?
    case SliderDot(target) => pageClickable && p.slider.Mounted? && target in Carousel.DotTargets(SlideCount)
    case SliderPrev => pageClickable && p.slider.Mounted?
    case SliderNext => pageClickable && p.slider.Mounted?
    case TitleClick => pageClickable
    case NavButton(s) => layout == Desktop && s in MenuSections
    case SectionHeading(s) => pageClickable && p.section == Main && s in MenuSections
    case MenuIcon => layout == Mobile && !p.menuOpen
    case MenuItem(s) => layout == Mobile && p.menuOpen && s in MenuSections
    case MenuDismiss => layout == Mobile && p.menuOpen
  }

  /** One transition of the page. */
  function Step(p: Page, e: Event): (q: Page)
    ensures Valid(p) && (exists layout :: Offered(layout, p, e)) ==> Valid(q)
  {
    match e
    case SliderTick => SliderStep(p, Carousel.Tick)
    case SliderDot(target) => SliderStep(p, Carousel.Dot(target))
    case SliderPrev => SliderStep(p, Carousel.Back)
    case SliderNext => SliderStep(p, Carousel.Forward)
    case TitleClick => SetSection(p, Main)
    case NavButton(s) => SetSection(p, s)
    case SectionHeading(s) => SetSection(p, s)
    case MenuIcon => p.(menuOpen := true)
    case MenuItem(s) => SetSection(p, s).(menuOpen := false)
    case MenuDismiss => p.(menuOpen := false)
  }

  /** The page after a sequence of events, applied in order. */
  function Run(p: Page, events: seq<Event>): Page
    decreases |events|
  {
    if |events| == 0 then p else Run(Step(p, events[0]), events[1..])
  }

  /** Each event of the sequence is offered by the page it arrives at. */
  predicate Admissible(layout: Layout, p: Page, events: seq<Event>)
    decreases |events|
  {
    |events| == 0 || (Offered(layout, p, events[0]) && Admissible(layout, Step(p, events[0]), events[1..]))
  }

  /** What the content area shows. */
  datatype View =
    | Home(shown: seq<bool>, headings: seq<Section>)
    | Detail(heading: string, caption: Option<string>)

  /** The content area: on the main view the slider (which slides are
      displayed) followed by the four sections, whose headings select their
      section; otherwise the section's name and its caption. */
  function Render(p: Page): (v: View)
    requires Valid(p)
    ensures v.Home? <==> p.section == Main
    ensures v.Home? ==> |v.shown| == SlideCount && Carousel.CountTrue(v.shown) == 1 && v.shown[p.slider.index]
    ensures v.Detail? ==> v.caption.Some? && ParseLabel(v.heading) == Some(p.section)
  {
    if p.section == Main then
      var i := p.slider.index;
      Carousel.ExactlyOneShown(SlideCount, i);
      Home(Carousel.Shown(SlideCount, i), MenuSections)
    else
      CaptionsDistinguishSections(p.section, p.section);
      LabelRoundTrip(p.section);
      Detail(Label(p.section), RenderContent(Label(p.section)))
  }

  /** Every page reachable from any valid page by offered events is valid. */
  lemma {:induction false} RunPreservesValid(layout: Layout, p: Page, events: seq<Event>)
    requires Valid(p) && Admissible(layout, p, events)
    ensures Valid(Run(p, events))
    decreases |events|
  {
    if |events| > 0 {
      RunPreservesValid(layout, Step(p, events[0]), events[1..]);
    }
  }

  /** Every page the user can reach from the first render (the main view,
      the drawer closed, the slider at slide 0) satisfies the invariant, in
      either layout; in particular the cursor stays in [0, 3). */
  lemma ReachablePagesAreValid(layout: Layout, events: seq<Event>)
    requires Admissible(layout, Initial, events)
    ensures Valid(Run(Initial, events))
  {
    RunPreservesValid(layout, Initial, events);
  }

  /** On a wide screen every section is one offered click away from any
      page: the title for the main view, a header button for the others. */
  lemma EverySectionOneClickAway(p: Page, s: Section)
    ensures exists e :: Offered(Desktop, p, e) && Step(p, e).section == s
  {
    if s == Main {
      assert Offered(Desktop, p, TitleClick) && Step(p, TitleClick).section == s;
    } else {
      MenuSectionsAreTheOthers(s);
      assert Offered(Desktop, p, NavButton(s)) && Step(p, NavButton(s)).section == s;
    }
  }

  /** On a narrow screen every section is at most two offered clicks away:
      the drawer's item (after opening the drawer) for a menu section, the
      title (after dismissing the drawer) for the main view. */
  lemma EverySectionTwoClicksAwayOnMobile(p: Page, s: Section)
    ensures exists events :: |events| <= 2 && Admissible(Mobile, p, events) && Run(p, events).section == s
  {
    MenuSectionsAreTheOthers(s);
    var first: Event := if s == Main then MenuDismiss else MenuIcon;
    var last: Event := if s == Main then TitleClick else MenuItem(s);
    var events: seq<Event> := if p.menuOpen == (s == Main) then [first, last] else [last];
    var q := Step(p, events[0]);
    assert Run(p, events) == Run(q, events[1..]);
    if |events| == 2 {
      assert Run(q, events[1..]) == Run(Step(q, last), []);
    }
    assert Admissible(Mobile, p, events) && Run(p, events).section == s;
  }

  /** On a narrow screen one click is not always enough: with the drawer
      closed no click moves from one menu section to another, and with the
      drawer open no click returns to the main view. */
  lemma MobileNeedsTwoClicks(p: Page, s: Section)
    requires p.section != Main && s != p.section
    requires !p.menuOpen ==> s != Main
    requires p.menuOpen ==> s == Main
    ensures forall e :: Offered(Mobile, p, e) ==> Step(p, e).section != s
  {
  }

  /** Choosing a drawer item selects its section and closes the drawer. */
  lemma MenuItemSelectsAndCloses(p: Page, s: Section)
    ensures Step(p, MenuItem(s)).section == s && !Step(p, MenuItem(s)).menuOpen
  {
  }

  /** Selecting a section never touches the drawer, and selecting the same
      section twice is the same as selecting it once. */
  lemma SelectionIdempotent(p: Page, s: Section)
    ensures Step(p, NavButton(s)).menuOpen == p.menuOpen
    ensures Step(Step(p, NavButton(s)), NavButton(s)) == Step(p, NavButton(s))
  {
  }

  /** Opening then dismissing the drawer leaves it closed, and dismissing a
      closed drawer keeps it closed; neither touches the section or slider. */
  lemma DrawerOpenClose(p: Page)
    ensures !Run(p, [MenuIcon, MenuDismiss]).menuOpen
    ensures !p.menuOpen ==> Step(p, MenuDismiss) == p
    ensures Run(p, [MenuIcon, MenuDismiss]) == p.(menuOpen := false)
  {
  }

  /** Slider inputs move only the cursor; on a page without a slider they
      change nothing. */
  lemma SliderEventsOnlyMoveCursor(p: Page, e: Event)
    requires e.SliderTick? || e.SliderDot? || e.SliderPrev? || e.SliderNext?
    ensures Step(p, e).section == p.section && Step(p, e).menuOpen == p.menuOpen
    ensures p.slider.Unmounted? ==> Step(p, e) == p
  {
  }

  /** Leaving the main view for any section and coming back through the
      title remounts the slider at slide 0, whatever the cursor was: through
      a header button on a wide screen, and through the drawer on a narrow
      one (which also leaves the drawer closed, as it was). */
  lemma LeaveAndReturnResetsCursor(p: Page, s: Section)
    requires Valid(p) && p.section == Main && s != Main
    ensures Admissible(Desktop, p, [NavButton(s), TitleClick])
    ensures Run(p, [NavButton(s), TitleClick]) == p.(slider := Mounted(0))
    ensures !p.menuOpen ==> Admissible(Mobile, p, [MenuIcon, MenuItem(s), TitleClick])
    ensures !p.menuOpen ==> Run(p, [MenuIcon, MenuItem(s), TitleClick]) == p.(slider := Mounted(0))
  {
    MenuSectionsAreTheOthers(s);
    var q := Step(p, NavButton(s));
    assert Run(p, [NavButton(s), TitleClick]) == Run(q, [TitleClick]);
    assert Admissible(Desktop, q, [TitleClick]) by {
      assert Admissible(Desktop, Step(q, TitleClick), []);
    }
    var withDrawer := Step(p, MenuIcon);
    var chosen := Step(withDrawer, MenuItem(s));
    assert Run(p, [MenuIcon, MenuItem(s), TitleClick]) == Run(withDrawer, [MenuItem(s), TitleClick]);
    assert Run(withDrawer, [MenuItem(s), TitleClick]) == Run(chosen, [TitleClick]);
    assert [MenuItem(s), TitleClick][1..] == [TitleClick];
  }

  /** Clicking the title while already on the main view keeps the cursor. */
  lemma TitleOnMainKeepsCursor(p: Page)
    requires Valid(p) && p.section == Main
    ensures Step(p, TitleClick) == p
  {
  }

  /** On the main view, unless the open drawer covers it, the k-th heading selects the k-th menu section and
      unmounts the slider. */
  lemma HeadingSelectsItsSection(layout: Layout, p: Page, k: nat)
    requires Valid(p) && p.section == Main && k < |MenuSections|
    requires layout == Desktop || !p.menuOpen
    ensures Offered(layout, p, SectionHeading(Render(p).headings[k]))
    ensures Step(p, SectionHeading(Render(p).headings[k])).section == MenuSections[k]
    ensures Step(p, SectionHeading(Render(p).headings[k])).slider == Unmounted
  {
    MenuSectionsAreTheOthers(MenuSections[k]);
  }

  /** Three firings of the interval from the initial page show slides
      1, 2 and then 0 again. */
  lemma ThreeTicksFromStart()
    ensures Run(Initial, [SliderTick]).slider == Mounted(1)
    ensures Run(Initial, [SliderTick, SliderTick]).slider == Mounted(2)
    ensures Run(Initial, [SliderTick, SliderTick, SliderTick]).slider == Mounted(0)
  {
  }

  /** The back arrow on the first slide shows the last one. */
  lemma PrevFromStart()
    ensures Step(Initial, SliderPrev).slider == Mounted(2)
  {
  }
}
