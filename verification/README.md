# CARD BASE homepage: the page-state machine

The CARD BASE trading-card shop homepage is a single React component,
`TCGShopHomepage`. Almost all of it is static markup. Its behaviour is a
small state machine with three parts:

- the **image slider** (`ImageSlider`): a cursor into the three slide images.
  It starts at 0. An interval timer advances it with wrap-around. The dots
  set it directly. The back and forward arrows step it with wrap-around.
  Exactly the slide at the cursor is displayed;
- the **active section**: the main view `'메인'` or one of the four menu
  sections `'소개'`, `'공지'`, `'취급상품'`, `'찾아오시는 길'`. The header
  title, the header buttons, the mobile drawer items and the in-page section
  headings set it. It decides whether the content area shows the composite
  home view or a one-line caption produced by `renderContent`;
- the **mobile drawer** flag: the hamburger icon opens the drawer. Dismissing
  it, or choosing an item, closes it.

The slider is rendered only on the main view. Leaving that view unmounts the
slider and clears its interval. Returning mounts a new slider at slide 0.

The model has four modules:

- `Options` (options.dfy) is an optional value, used for `renderContent`'s
  `null`.
- `Carousel` (carousel.dfy) holds the slider transitions. They are
  parametric in the slide count n and are written as the component writes
  them, with no assumption on n.
- `Navigation` (navigation.dfy) holds the closed `Section` enumeration, the
  string each section is stored as, and `renderContent`.
- `Homepage` (homepage.dfy) holds the page state. It is an immutable record
  of the section, the drawer flag, and a slider that is either unmounted or
  mounted with its cursor. It also holds the events and the pure transition
  `Step`, runs over event sequences, the page invariant and the rendered
  view.

`Homepage.Offered` says which events the rendered page can deliver in each
of the two responsive layouts:

- slider inputs only while the slider is mounted;
- dots only for existing slides;
- section headings only on the main view;
- header buttons only on a wide screen;
- the hamburger icon only on a narrow screen with the drawer closed;
- drawer items and dismissal only on a narrow screen with the drawer open;
- on a narrow screen with the drawer open, no click on the page behind it,
  because the drawer's backdrop covers the page. The timer still fires.

Setting the section to the value it already has changes nothing, because
React keeps the state. So clicking the title on the main view keeps the
cursor, and any real change to or from the main view mounts or unmounts
the slider; a change between two menu sections leaves it unmounted.

The timer is an abstract `SliderTick` event. Mounting and unmounting are
the slider's presence in the page state. There is no wall clock.

The model assumes that every event acts on the state left by the event
before it. The timer's update is written as a function of the previous
index (line 173), so it always does. The arrows, however, compute their
target from `currentIndex` as of the last render (lines 228 and 242).
Suppose a click lands after the interval has fired but before that update
has been rendered. Then the click overwrites the tick. For example, with the
cursor at 1 and a tick pending, the forward arrow sets 2, where the model
gives 0. Whether such a gap can occur depends on the React version and root
API, which the component itself does not fix; the model assumes neither.
The cursor stays in [0, n) either way, because the stale index is itself valid
(`Carousel.StaleForwardAfterTick`).

One might expect a section change to leave the carousel cursor alone,
treating the two state machines as independent. The code does not do
this. The slider exists only on the main view (lines 571-573), so choosing
a section tears it down, and coming back resets the cursor to 0. The model
follows the code (`Homepage.LeaveAndReturnResetsCursor`). The code also
does not clamp `goToSlide`'s argument. The model sets the cursor to exactly
the dot's index and proves instead that the dots only ever pass existing
indices.

## Model

| member | source | states |
|---|---|---|
| Carousel.TickIndex | front/src/components/TCGShopHomepage/TCGShopHomepage.js:171-178 | on a valid cursor the interval's update is the successor modulo n and stays in [0, n); with no slides it never wraps and just adds one |
| Carousel.PrevIndex | front/src/components/TCGShopHomepage/TCGShopHomepage.js:228 | the back arrow is the predecessor modulo n, (i - 1 + n) mod n, in [0, n) on a valid cursor; with no slides it just subtracts one |
| Carousel.NextIndex | front/src/components/TCGShopHomepage/TCGShopHomepage.js:242 | the forward arrow keeps a valid cursor in [0, n) and the back arrow undoes it; with no slides it just adds one |
| Carousel.Offered | front/src/components/TCGShopHomepage/TCGShopHomepage.js:210-213 | the mounted slider delivers a dot click only for an index some dot passes, that is, only for an existing slide |
| Carousel.TickIsNext | front/src/components/TCGShopHomepage/TCGShopHomepage.js:173-175 | the timer tick and the forward arrow compute the same cursor for every index and every n |
| Carousel.DotTargets | front/src/components/TCGShopHomepage/TCGShopHomepage.js:210-213 | there is one dot per slide, and the indices the dots pass to goToSlide are exactly the valid cursors |
| Carousel.Step | front/src/components/TCGShopHomepage/TCGShopHomepage.js:180-242 | a dot sets the cursor to exactly its index; any offered slider event keeps a valid cursor valid |
| Carousel.RunStaysInRange | front/src/components/TCGShopHomepage/TCGShopHomepage.js:169-242 | from a valid cursor, every sequence of ticks, arrows and dot clicks on existing slides keeps the cursor in [0, n) |
| Carousel.PrevNextInverse | front/src/components/TCGShopHomepage/TCGShopHomepage.js:227-242 | back after forward, and forward after back, return the original cursor |
| Carousel.DotIdempotent | front/src/components/TCGShopHomepage/TCGShopHomepage.js:180 | goToSlide(i) yields exactly i, and repeating it changes nothing |
| Carousel.StaleForwardAfterTick | front/src/components/TCGShopHomepage/TCGShopHomepage.js:242 | a forward click computed from the index before a pending tick still gives a valid cursor, but for two or more slides it differs from the tick followed by the click |
| Carousel.TicksAreShift | front/src/components/TCGShopHomepage/TCGShopHomepage.js:171-178 | k timer firings from a valid cursor i yield (i + k) mod n |
| Carousel.TicksPeriod | front/src/components/TCGShopHomepage/TCGShopHomepage.js:171-178 | n timer firings return every valid cursor to itself |
| Carousel.TicksWithoutSlides | front/src/components/TCGShopHomepage/TCGShopHomepage.js:173-175 | with zero images the wrap test never holds, so k firings from i >= 0 yield i + k: a valid cursor needs n >= 1 |
| Carousel.Shown | front/src/components/TCGShopHomepage/TCGShopHomepage.js:185-191 | slide k is displayed exactly when k equals the cursor |
| Carousel.ExactlyOneShown | front/src/components/TCGShopHomepage/TCGShopHomepage.js:185-191 | exactly one slide is displayed when the cursor is valid, and it is the slide at the cursor; none is displayed otherwise |
| Navigation.Label | front/src/components/TCGShopHomepage/TCGShopHomepage.js:529-531 | each section is stored as its literal: '메인' for the main view and the four entries of `sections` for the others |
| Navigation.ParseLabel | front/src/components/TCGShopHomepage/TCGShopHomepage.js:540-571 | the string comparisons on the stored section identify a section whose stored string is the one compared |
| Navigation.LabelRoundTrip | front/src/components/TCGShopHomepage/TCGShopHomepage.js:529-531 | every section is recovered from the string it is stored as |
| Navigation.MenuSectionsAreTheOthers | front/src/components/TCGShopHomepage/TCGShopHomepage.js:91-96 | the header, drawer and heading lists hold exactly the four sections other than the main view, each once |
| Navigation.RenderContent | front/src/components/TCGShopHomepage/TCGShopHomepage.js:539-552 | a caption is produced exactly for the strings of the four menu sections; every other string reaches the default branch and yields null |
| Navigation.CaptionsDistinguishSections | front/src/components/TCGShopHomepage/TCGShopHomepage.js:539-552 | only the main view's string reaches the default branch, and the four menu sections get four distinct captions |
| Homepage.Valid | front/src/components/TCGShopHomepage/TCGShopHomepage.js:571-573 | the slider is mounted exactly while the section is the main view, and its cursor names one of the three slides |
| Homepage.SetSection | front/src/components/TCGShopHomepage/TCGShopHomepage.js:571-579 | the section becomes the chosen one and the drawer flag is untouched; re-selecting the current section keeps the slider; entering the main view from elsewhere mounts the slider at 0; the page invariant is preserved |
| Homepage.SliderStep | front/src/components/TCGShopHomepage/TCGShopHomepage.js:171-242 | slider inputs (timer, dots and arrows) change neither the section nor the drawer nor whether a slider is mounted, and keep a valid page valid |
| Homepage.Offered | front/src/components/TCGShopHomepage/TCGShopHomepage.js:54-121 | which events each layout renders: header buttons on a wide screen; the icon on a narrow screen with the drawer closed; drawer items and dismissal on a narrow screen with the drawer open; dots only for existing slides; headings only on the main view; no page click while the open drawer covers the page |
| Homepage.Step | front/src/components/TCGShopHomepage/TCGShopHomepage.js:554-577 | every event the page offers keeps the invariant: the slider is mounted exactly on the main view with a cursor in [0, 3) |
| Homepage.Render | front/src/components/TCGShopHomepage/TCGShopHomepage.js:571-587 | the home view appears exactly on the main view and displays exactly the slide at the cursor; any other section shows its own name and a non-null caption, so the default branch is never rendered |
| Homepage.RunPreservesValid | front/src/components/TCGShopHomepage/TCGShopHomepage.js:528-587 | every sequence of offered events from a valid page ends in a valid page |
| Homepage.ReachablePagesAreValid | front/src/components/TCGShopHomepage/TCGShopHomepage.js:529-530 | in either layout, every page reachable from the first render (main view, drawer closed, cursor 0) satisfies the invariant, so the cursor stays in [0, 3) |
| Homepage.EverySectionOneClickAway | front/src/components/TCGShopHomepage/TCGShopHomepage.js:48-58 | on a wide screen, from any page every section is selected by one offered click: the title for the main view, a header button for the others |
| Homepage.EverySectionTwoClicksAwayOnMobile | front/src/components/TCGShopHomepage/TCGShopHomepage.js:77-121 | on a narrow screen every section is at most two offered clicks away: open the drawer and choose the item, or dismiss the drawer and click the title |
| Homepage.MobileNeedsTwoClicks | front/src/components/TCGShopHomepage/TCGShopHomepage.js:54-115 | on a narrow screen one click is not always enough: with the drawer closed no click moves between two menu sections, and with it open no click returns to the main view |
| Homepage.MenuItemSelectsAndCloses | front/src/components/TCGShopHomepage/TCGShopHomepage.js:98-101 | choosing a drawer item selects its section and closes the drawer |
| Homepage.SelectionIdempotent | front/src/components/TCGShopHomepage/TCGShopHomepage.js:559 | selecting a section leaves the drawer flag alone, and selecting it twice equals selecting it once |
| Homepage.DrawerOpenClose | front/src/components/TCGShopHomepage/TCGShopHomepage.js:560-565 | opening then dismissing the drawer leaves it closed and the rest of the page unchanged; dismissing a closed drawer changes nothing |
| Homepage.SliderEventsOnlyMoveCursor | front/src/components/TCGShopHomepage/TCGShopHomepage.js:168-180 | timer ticks, dots and arrows never change the section or the drawer, and do nothing while no slider is mounted |
| Homepage.LeaveAndReturnResetsCursor | front/src/components/TCGShopHomepage/TCGShopHomepage.js:571-577 | leaving the main view for any section and returning through the title resets the cursor to 0 and leaves the rest of the page unchanged, both through a header button on a wide screen and, when the drawer starts closed, through the drawer on a narrow one; both routes are admissible |
| Homepage.TitleOnMainKeepsCursor | front/src/components/TCGShopHomepage/TCGShopHomepage.js:48 | clicking the title while already on the main view changes nothing, the cursor included |
| Homepage.HeadingSelectsItsSection | front/src/components/TCGShopHomepage/TCGShopHomepage.js:574-577 | on the main view, unless the open drawer covers it, the k-th section heading is clickable, selects the k-th menu section and unmounts the slider |
| Homepage.ThreeTicksFromStart | front/src/components/TCGShopHomepage/TCGShopHomepage.js:533-537 | with the three slide images, three timer firings from the first render show slides 1, 2 and 0 |
| Homepage.PrevFromStart | front/src/components/TCGShopHomepage/TCGShopHomepage.js:228 | the back arrow on the first render shows the last of the three slides |

## Left out

- Rendering is not modelled: Material-UI markup, `sx` styling, the breakpoint widths, the `Fade` animation and the icons. These are presentation with no logic. The header button highlight at lines 60-62 is styling too. The two layouts that the `md` breakpoint selects (lines 54, 78 and 109) are modelled, as `Homepage.Layout`.
- Resizing the window between layouts is not modelled. A run keeps one layout, so a drawer opened on a narrow screen is never carried over to a wide one.
- Real timer scheduling is not modelled. `setInterval`/`clearInterval` and the 4000 ms period become an abstract tick event. The tick is delivered only while a slider is mounted.
- React's update batching and render timing are not modelled. Each event acts on the state left by the previous one. An arrow click that reads a stale, pre-tick index is outside the model; `Carousel.StaleForwardAfterTick` shows the cursor stays valid in that case.
- Static content is not modelled: the notice list, the product list, the store address and hours, and the image URLs. Only the number of slide images (3) is used.
- `front/src/App.js` is not modelled. It is a single-route wrapper around the page with no logic.
- `Footer`, `NoticeItem` and `ProductItem` are not modelled. They are stateless render functions with no click handler.
- `IntroSection`, `NoticeSection`, `ProductSection` and `LocationSection` are not modelled as markup. Only their heading click (lines 263, 363, 438 and 463), which selects a section, is modelled.
- The section is stored as a string in the code, but the model uses a closed enumeration. Every call site passes one of the five literals. `Navigation.Label` and `Navigation.ParseLabel` relate the two, and `Navigation.RenderContent` still takes an arbitrary string, so its default branch is modelled.
