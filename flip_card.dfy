/** The flip-card coordinator. Every card on the page keeps its own flags
    (`flipped`, `locked`, `hovering`, `inView`, `isMobile` and the internal
    `autoFlipped` marker); the page shares an id counter, the scroll tracker and
    the auto-flip announcement that each card's listener receives.

    Each card's event handlers are written as functions from the card's old
    flags to its new flags; the `Coordinator` class holds the page-wide state
    and the live cards, and has one method per browser event. Browser
    observers (intersection, media query, resize and scroll listeners) are
    represented by the values they deliver, passed as parameters. */
module FlipCard {
  import opened JsText

  /** Viewport width below which a card uses the mobile interaction mode. */
  const MobileBreakpoint: int := 720

  /** Mobile mode: a coarse (touch) primary pointer or a narrow viewport. */
  predicate IsMobileMode(coarsePointer: bool, viewportWidth: int) {
    coarsePointer || viewportWidth < MobileBreakpoint
  }

  datatype Direction = Down | Up

  /** The direction a scroll event records: down exactly when the offset grew. */
  function NextDirection(lastY: int, y: int): (d: Direction)
    ensures d == Down <==> y > lastY
  {
    if y > lastY then Down else Up
  }

  /** The tracked direction as a card reads it; an unset direction counts as down. */
  function EffectiveDirection(dir: Option<Direction>): (d: Direction)
    ensures dir.Some? ==> d == dir.value
    ensures dir.None? ==> d == Down
  {
    match dir
    case Some(v) => v
    case None => Down
  }

  /** A card's flags. `autoFlipped` marks a flip caused by scrolling. */
  datatype Card = Card(id: int, flipped: bool, locked: bool, hovering: bool,
                       inView: bool, isMobile: bool, autoFlipped: bool)

  /** A freshly mounted card: every flag starts false. */
  function NewCard(id: int, isMobile: bool): Card {
    Card(id, false, false, false, false, isMobile, false)
  }

  /** What the mode effect keeps true: a locked card is shown flipped, and on desktop
      `flipped` is exactly `locked || hovering`. */
  predicate Consistent(c: Card) {
    (c.locked ==> c.flipped) && (!c.isMobile ==> c.flipped == (c.locked || c.hovering))
  }

  /** A card whose flip belongs to the scroll protocol, and so can be evicted. */
  predicate ScrollOwned(c: Card) {
    c.autoFlipped && !c.locked
  }

  /** The mode effect: desktop shows `locked || hovering`; mobile forces the flip when locked
      and otherwise leaves `flipped` to the scroll protocol. */
  function ModeEffect(c: Card): (r: Card)
    ensures Consistent(r)
    ensures c.isMobile ==> r.flipped == (c.flipped || c.locked)
    ensures r == c.(flipped := r.flipped)
  {
    if !c.isMobile then c.(flipped := c.locked || c.hovering)
    else if c.locked then c.(flipped := true)
    else c
  }

  /** One of the mode effect's dependencies differs between the two states. */
  predicate DepsChanged(before: Card, after: Card) {
    before.locked != after.locked || before.isMobile != after.isMobile || before.hovering != after.hovering
  }

  /** A state change followed by a render: the mode effect runs again only when one of
      its dependencies (`locked`, `isMobile`, `hovering`) changed. */
  function Rerender(before: Card, after: Card): (r: Card)
    ensures r == after.(flipped := r.flipped)
    ensures !DepsChanged(before, after) ==> r == after
    ensures DepsChanged(before, after) ==>
              Consistent(r) && (after.isMobile ==> r.flipped == (after.flipped || after.locked))
  {
    if DepsChanged(before, after) then ModeEffect(after)
    else after
  }

  /** Pointer enter (`entering`) or leave. On desktop the card then shows `locked || hovering`,
      so an unlocked card shows the latest hover flag; on mobile the flip is left alone. */
  function Hover(c: Card, entering: bool): (r: Card)
    ensures r.hovering == entering
    ensures Consistent(c) ==> Consistent(r)
    ensures Consistent(c) && !c.isMobile ==> r.flipped == (c.locked || entering)
    ensures Consistent(c) && c.isMobile ==> r.flipped == c.flipped
    ensures r == c.(hovering := entering, flipped := r.flipped)
  {
    Rerender(c, c.(hovering := entering))
  }

  /** `toggleLock` (click, or Enter/Space). The lock flips; a locked card is always shown
      flipped. On mobile the flip follows the new lock and unlocking clears `autoFlipped`;
      locking leaves `autoFlipped` as it was. On desktop the card shows `locked || hovering`. */
  function ToggleLock(c: Card): (r: Card)
    ensures r.locked == !c.locked
    ensures r.locked ==> r.flipped
    ensures c.isMobile ==> r.flipped == r.locked && r.autoFlipped == (c.autoFlipped && r.locked)
    ensures !c.isMobile ==> r.flipped == (r.locked || c.hovering) && r.autoFlipped == c.autoFlipped
    ensures Consistent(r)
    ensures r == c.(locked := r.locked, flipped := r.flipped, autoFlipped := r.autoFlipped)
  {
    var next := !c.locked;
    var c1 := if c.isMobile then c.(flipped := next, autoFlipped := if next then c.autoFlipped else false) else c;
    Rerender(c, c1.(locked := next))
  }

  /** `onKeyDown`: Enter and Space toggle the lock exactly as a click does; other keys do nothing. */
  function KeyDown(c: Card, key: string): (r: Card)
    ensures key == "Enter" || key == " " ==> r == ToggleLock(c) && r.locked != c.locked
    ensures key != "Enter" && key != " " ==> r == c
  {
    if key == "Enter" || key == " " then ToggleLock(c) else c
  }

  /** Whether a visibility sample makes the card auto-flip: a mobile, unlocked card that is
      fully in view while the page scrolls down. */
  predicate AutoFlips(c: Card, visible: bool, dir: Direction) {
    c.isMobile && !c.locked && visible && dir == Down
  }

  /** The visibility handler's effect on its own card. `inView` always records the sample;
      an auto-flip sets `flipped` and `autoFlipped`; in every other case (desktop, locked,
      not fully visible, scrolling up, leaving view) both stay as they were. */
  function Observe(c: Card, visible: bool, dir: Direction): (r: Card)
    ensures r.inView == visible
    ensures AutoFlips(c, visible, dir) ==> r.flipped && r.autoFlipped
    ensures !AutoFlips(c, visible, dir) ==> r.flipped == c.flipped && r.autoFlipped == c.autoFlipped
    ensures Consistent(c) ==> Consistent(r)
    ensures r == c.(inView := visible, flipped := r.flipped, autoFlipped := r.autoFlipped)
  {
    var c1 := c.(inView := visible);
    if !c.isMobile || c.locked then c1
    else if visible && dir == Down then c1.(flipped := true, autoFlipped := true)
    else c1
  }

  /** Whether an announcement evicts a card: it names another card, and this card is
      auto-flipped and not locked. */
  predicate Evicts(c: Card, incoming: Option<int>) {
    incoming.Some? && incoming.value != c.id && ScrollOwned(c)
  }

  /** The announcement listener. An eviction clears `flipped` and `autoFlipped`; an
      announcement without an id, with this card's own id, or reaching a locked or
      not auto-flipped card changes nothing. */
  function Receive(c: Card, incoming: Option<int>): (r: Card)
    ensures Evicts(c, incoming) ==> !r.flipped && !r.autoFlipped
    ensures !Evicts(c, incoming) ==> r == c
    ensures incoming.Some? && incoming.value != c.id ==> !ScrollOwned(r)
    ensures c.isMobile && Consistent(c) ==> Consistent(r)
    ensures r == c.(flipped := r.flipped, autoFlipped := r.autoFlipped)
  {
    if incoming.None? then c
    else if incoming.value != c.id && c.autoFlipped && !c.locked then c.(flipped := false, autoFlipped := false)
    else c
  }

  /** The resize listener: the card takes the new mode; the mode effect runs if it changed. */
  function ResizeCard(c: Card, mobile: bool): (r: Card)
    ensures r.isMobile == mobile
    ensures Consistent(c) ==> Consistent(r)
    ensures r == c.(isMobile := mobile, flipped := r.flipped)
    ensures mobile == c.isMobile ==> r == c
  {
    Rerender(c, c.(isMobile := mobile))
  }

  /** One announcement delivered synchronously to every live card. */
  function Deliver(cards: seq<Card>, incoming: Option<int>): (r: seq<Card>)
    ensures |r| == |cards|
    ensures forall j :: 0 <= j < |cards| ==> r[j] == Receive(cards[j], incoming)
  {
    seq(|cards|, j requires 0 <= j < |cards| => Receive(cards[j], incoming))
  }

  /** Ids are positive and strictly increasing along the mount order. */
  predicate IdsIncreasing(cards: seq<Card>) {
    (forall i :: 0 <= i < |cards| ==> 0 < cards[i].id) &&
    (forall i, j :: 0 <= i < j < |cards| ==> cards[i].id < cards[j].id)
  }

  /** After card `k`'s announcement has reached every card, the announcer is the only card
      whose flip is still owned by the scroll protocol; everything else it leaves alone
      except evicted cards. */
  lemma {:induction false} AnnouncementLeavesOnlySender(cards: seq<Card>, k: nat)
    requires IdsIncreasing(cards)
    requires k < |cards|
    ensures var r := Deliver(cards, Some(cards[k].id));
      r[k] == cards[k] &&
      forall j :: 0 <= j < |cards| && j != k ==> !ScrollOwned(r[j]) && r[j].locked == cards[j].locked
  {
    var r := Deliver(cards, Some(cards[k].id));
    forall j | 0 <= j < |cards| && j != k
      ensures !ScrollOwned(r[j]) && r[j].locked == cards[j].locked
    {
      if j < k { assert cards[j].id < cards[k].id; } else { assert cards[k].id < cards[j].id; }
      assert r[j] == Receive(cards[j], Some(cards[k].id));
    }
  }

  /** The page: the window's pointer and width, the shared values kept on `window`
      (id counter, scroll tracker) and the live cards in mount order. */
  class Coordinator {
    var coarsePointer: bool
    var viewportWidth: int
    /** `__flipCardNextId`, read as 0 while unset. */
    var nextId: int
    /** `__flipScrollInited`: the single scroll listener exists. */
    var scrollInited: bool
    /** `__flipScrollDir`, unset before the first card mounts. */
    var scrollDir: Option<Direction>
    /** The offset the scroll listener compares against. */
    var lastY: int
    var cards: seq<Card>

    ghost predicate Valid()
      reads this
    {
      nextId >= 0 && IdsIncreasing(cards) &&
      (forall i :: 0 <= i < |cards| ==> cards[i].id <= nextId) &&
      (forall i :: 0 <= i < |cards| ==> cards[i].isMobile == IsMobileMode(coarsePointer, viewportWidth)) &&
      (forall i :: 0 <= i < |cards| ==> Consistent(cards[i])) &&
      (scrollInited <==> scrollDir.Some?) &&
      (|cards| > 0 ==> scrollInited)
    }

    /** A page load: no cards, no scroll listener, nothing on `window` yet. */
    constructor (coarse: bool, width: int)
      ensures Valid()
      ensures coarsePointer == coarse && viewportWidth == width
      ensures cards == [] && nextId == 0 && !scrollInited && scrollDir == None
    {
      coarsePointer, viewportWidth := coarse, width;
      nextId, scrollInited, scrollDir, lastY := 0, false, None, 0;
      cards := [];
    }

    /** A card mounts: it takes the counter plus one as its id; the first card on the page
        installs the scroll listener (direction down, offset `scrollY`); the card's mode is
        read from the window. */
    method Mount(scrollY: int) returns (id: int)
      requires Valid()
      modifies this
      ensures Valid()
      ensures id == old(nextId) + 1 && nextId == id && id > 0
      ensures forall i :: 0 <= i < |old(cards)| ==> old(cards)[i].id < id
      ensures cards == old(cards) + [NewCard(id, IsMobileMode(coarsePointer, viewportWidth))]
      ensures old(scrollInited) ==> scrollDir == old(scrollDir) && lastY == old(lastY)
      ensures !old(scrollInited) ==> scrollDir == Some(Down) && lastY == scrollY
      ensures scrollInited
      ensures coarsePointer == old(coarsePointer) && viewportWidth == old(viewportWidth)
    {
      nextId := nextId + 1;
      id := nextId;
      if !scrollInited {
        scrollInited := true;
        scrollDir := Some(Down);
        lastY := scrollY;
      }
      var card := ModeEffect(NewCard(id, IsMobileMode(coarsePointer, viewportWidth)));
      assert card == NewCard(id, IsMobileMode(coarsePointer, viewportWidth));
      cards := cards + [card];
    }

    /** A card unmounts: its listeners go with it; the page-wide values stay. */
    method Unmount(i: nat)
      requires Valid() && i < |cards|
      modifies this`cards
      ensures Valid()
      ensures cards == old(cards)[..i] + old(cards)[i + 1..]
    {
      cards := cards[..i] + cards[i + 1..];
    }

    /** A scroll event. Once the listener exists, the direction becomes down exactly when the
        offset grew, and the offset is recorded every time. */
    method Scroll(y: int)
      requires Valid()
      modifies this`scrollDir, this`lastY
      ensures Valid()
      ensures scrollInited ==> scrollDir == Some(NextDirection(old(lastY), y)) && lastY == y
      ensures !scrollInited ==> scrollDir == old(scrollDir) && lastY == old(lastY)
    {
      if scrollInited {
        scrollDir := Some(NextDirection(lastY, y));
        lastY := y;
      }
    }

    /** A resize event reaches every card's listener; each re-reads its mode. */
    method Resize(coarse: bool, width: int)
      requires Valid()
      modifies this`coarsePointer, this`viewportWidth, this`cards
      ensures Valid()
      ensures coarsePointer == coarse && viewportWidth == width
      ensures |cards| == |old(cards)|
      ensures forall j :: 0 <= j < |cards| ==> cards[j] == ResizeCard(old(cards)[j], IsMobileMode(coarse, width))
    {
      coarsePointer, viewportWidth := coarse, width;
      var mobile := IsMobileMode(coarse, width);
      var k := 0;
      while k < |cards|
        invariant 0 <= k <= |cards| == |old(cards)|
        invariant coarsePointer == coarse && viewportWidth == width
        invariant forall j :: 0 <= j < k ==> cards[j] == ResizeCard(old(cards)[j], mobile)
        invariant forall j :: k <= j < |cards| ==> cards[j] == old(cards)[j]
      {
        cards := cards[k := ResizeCard(cards[k], mobile)];
        k := k + 1;
      }
    }

    method MouseEnter(i: nat)
      requires Valid() && i < |cards|
      modifies this`cards
      ensures Valid()
      ensures cards == old(cards)[i := Hover(old(cards)[i], true)]
      ensures !cards[i].isMobile ==> cards[i].flipped
    {
      cards := cards[i := Hover(cards[i], true)];
    }

    method MouseLeave(i: nat)
      requires Valid() && i < |cards|
      modifies this`cards
      ensures Valid()
      ensures cards == old(cards)[i := Hover(old(cards)[i], false)]
      ensures !cards[i].isMobile ==> cards[i].flipped == cards[i].locked
    {
      cards := cards[i := Hover(cards[i], false)];
    }

    method Click(i: nat)
      requires Valid() && i < |cards|
      modifies this`cards
      ensures Valid()
      ensures cards == old(cards)[i := ToggleLock(old(cards)[i])]
    {
      cards := cards[i := ToggleLock(cards[i])];
    }

    method Key(i: nat, key: string)
      requires Valid() && i < |cards|
      modifies this`cards
      ensures Valid()
      ensures cards == old(cards)[i := KeyDown(old(cards)[i], key)]
    {
      cards := cards[i := KeyDown(cards[i], key)];
    }

    /** An auto-flip announcement dispatched on `window`: every live card's listener runs,
        in mount order, before the dispatch returns. */
    method Announce(incoming: Option<int>)
      requires Valid()
      requires incoming.None? || IsMobileMode(coarsePointer, viewportWidth)
      modifies this`cards
      ensures Valid()
      ensures cards == Deliver(old(cards), incoming)
    {
      var k := 0;
      while k < |cards|
        invariant 0 <= k <= |cards| == |old(cards)|
        invariant forall j :: 0 <= j < k ==> cards[j] == Receive(old(cards)[j], incoming)
        invariant forall j :: k <= j < |cards| ==> cards[j] == old(cards)[j]
      {
        cards := cards[k := Receive(cards[k], incoming)];
        k := k + 1;
      }
    }

    /** An intersection sample for card `i`. The card is fully visible when it intersects
        the viewport with ratio at least 1. An auto-flip flips the card and announces its id,
        after which no other card is auto-flipped unless locked. */
    method Visibility(i: nat, isIntersecting: bool, ratio: real)
      requires Valid() && i < |cards|
      modifies this`cards
      ensures Valid()
      ensures var visible := isIntersecting && ratio >= 1.0;
        var dir := EffectiveDirection(scrollDir);
        var c := Observe(old(cards)[i], visible, dir);
        if AutoFlips(old(cards)[i], visible, dir) then
          cards == Deliver(old(cards)[i := c], Some(c.id)) &&
          cards[i].flipped && cards[i].autoFlipped &&
          forall j :: 0 <= j < |cards| && j != i ==> !ScrollOwned(cards[j])
        else cards == old(cards)[i := c]
    {
      var visible := isIntersecting && ratio >= 1.0;
      var dir := EffectiveDirection(scrollDir);
      var before := cards[i];
      var c := Observe(before, visible, dir);
      cards := cards[i := c];
      if AutoFlips(before, visible, dir) {
        assert cards[i].id == before.id;
        AnnouncementLeavesOnlySender(cards, i);
        Announce(Some(c.id));
      }
    }
  }

  /** Two cards on a phone: scrolling down flips each card as it comes fully into view and
      flips the previous one back; after scrolling up a card coming into view stays put. */
  method PhoneScrollScenario()
  {
    var page := new Coordinator(true, 390);
    var first := page.Mount(0);
    var second := page.Mount(0);

    page.Scroll(300);
    page.Visibility(0, true, 1.0);
    assert page.cards[0].flipped && page.cards[0].autoFlipped;

    page.Scroll(600);
    page.Visibility(1, true, 1.0);
    assert page.cards[1].flipped && page.cards[1].autoFlipped;
    assert !page.cards[0].flipped && !page.cards[0].autoFlipped;

    page.Scroll(200);
    page.Visibility(0, true, 1.0);
    assert !page.cards[0].flipped && page.cards[1].flipped;
  }

  /** A card locked by a tap stays flipped when another card auto-flips. */
  method PhoneLockScenario()
  {
    var page := new Coordinator(false, 500);
    var first := page.Mount(0);
    var second := page.Mount(0);

    page.Click(0);
    assert page.cards[0].locked && page.cards[0].flipped;

    page.Scroll(300);
    page.Visibility(1, true, 1.0);
    assert page.cards[1].flipped && page.cards[0].flipped && page.cards[0].locked;
  }
}
