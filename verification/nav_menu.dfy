/** The mobile navigation menu: whether the menu carries the `active` class,
    and the inline style of each bar of the hamburger button. The toggle
    button flips the menu and redraws the bars (a cross when open, flat when
    closed); a click on a navigation link closes the menu and flattens the
    bars; the Escape key closes an open menu but leaves the bars alone. */
module NavMenu {
  import opened Wrappers

  /** The inline `transform` and `opacity` of one bar; `None` is a property
      never set, which the style sheet draws as a plain bar. */
  datatype Bar = Bar(transform: Option<string>, opacity: Option<string>)

  datatype Menu = Menu(active: bool, bars: seq<Bar>)

  const TopCross := "rotate(45deg) translate(5px, 5px)"
  const BottomCross := "rotate(-45deg) translate(7px, -6px)"

  /** The style the bars are reset to. */
  const FlatBar := Bar(Some("none"), Some("1"))

  /** The bar at `index` as the toggle draws it on opening: the first two
      turn into a cross, the middle one fades out; any further bar keeps its
      style. */
  function OpenBar(b: Bar, index: nat): Bar {
    if index == 0 then b.(transform := Some(TopCross))
    else if index == 1 then b.(opacity := Some("0"))
    else if index == 2 then b.(transform := Some(BottomCross))
    else b
  }

  /** A bar drawn plain: no rotation and fully visible. */
  predicate Flat(b: Bar) {
    (b.transform == None || b.transform == Some("none")) && (b.opacity == None || b.opacity == Some("1"))
  }

  /** The bars drawn as a cross. */
  predicate CrossLook(bars: seq<Bar>) {
    && (|bars| > 0 ==> bars[0].transform == Some(TopCross))
    && (|bars| > 1 ==> bars[1].opacity == Some("0"))
    && (|bars| > 2 ==> bars[2].transform == Some(BottomCross))
  }

  /** The button matches the menu: a cross while open, plain bars while
      closed. */
  predicate Coherent(m: Menu) {
    && (m.active ==> CrossLook(m.bars))
    && (!m.active ==> forall i | 0 <= i < |m.bars| :: Flat(m.bars[i]))
  }

  /** A click on the toggle button. */
  function Toggle(m: Menu): (r: Menu)
    ensures r.active == !m.active
    ensures |r.bars| == |m.bars|
    ensures r.active ==> CrossLook(r.bars)
    ensures r.active ==> forall i | 3 <= i < |m.bars| :: r.bars[i] == m.bars[i]
    ensures r.active ==> forall i | 0 <= i < |m.bars| ::
      && (i != 0 && i != 2 ==> r.bars[i].transform == m.bars[i].transform)
      && (i != 1 ==> r.bars[i].opacity == m.bars[i].opacity)
    ensures !r.active ==> forall i | 0 <= i < |r.bars| :: r.bars[i] == FlatBar
  {
    var active := !m.active;
    var bars := seq(|m.bars|, i requires 0 <= i < |m.bars| =>
      if active then OpenBar(m.bars[i], i) else FlatBar);
    Menu(active, bars)
  }

  /** A click on a navigation link. */
  function LinkClick(m: Menu): (r: Menu)
    ensures !r.active
    ensures |r.bars| == |m.bars| && forall i | 0 <= i < |r.bars| :: r.bars[i] == FlatBar
  {
    Menu(false, seq(|m.bars|, _ => FlatBar))
  }

  /** The Escape key: it only removes the `active` class. */
  function Escape(m: Menu): (r: Menu)
    ensures !r.active
    ensures r.bars == m.bars
    ensures !m.active ==> r == m
  {
    if m.active then m.(active := false) else m
  }

  /** Two clicks on the toggle give back the open/closed state. */
  lemma ToggleTwice(m: Menu)
    ensures Toggle(Toggle(m)).active == m.active
    ensures |Toggle(Toggle(m)).bars| == |m.bars|
  {
  }

  /** The toggle and the link click keep the button in step with the menu. */
  lemma ToggleAndLinkKeepCoherent(m: Menu)
    requires Coherent(m)
    ensures Coherent(Toggle(m))
    ensures Coherent(LinkClick(m))
  {
  }

  /** Escape on an open menu leaves a cross on a closed menu: the first
      bar stays rotated. */
  lemma EscapeLeavesCross(m: Menu)
    requires Coherent(m) && m.active && |m.bars| > 0
    ensures !Coherent(Escape(m))
    ensures !Flat(Escape(m).bars[0])
  {
  }

  /** Pressing Escape twice is the same as pressing it once. */
  lemma EscapeIdempotent(m: Menu)
    ensures Escape(Escape(m)) == Escape(m)
  {
  }
}
