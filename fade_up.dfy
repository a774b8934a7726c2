/**
 * The scroll-reveal controller (src/utils/scrollFadeUp.ts).
 *
 * The module-level state of the source — the live observer, the
 * "initializing" flag and the map of element states — becomes the fields
 * of a `Controller`, together with the two CSS classes it switches on the
 * page's elements (`is-visible` and `fade-up-init`, as the sets of
 * elements that carry them). Timers and animation frames the source
 * schedules become `Task`s in `pending`; the browser later runs each one,
 * which is a call of the matching `On...` method. Times are milliseconds,
 * element boxes integers, and the page is given as nodes carrying the
 * attributes and classes the selector reads and the box the element had
 * when it was measured.
 */
module FadeUp {
  import opened Wrappers

  type ElemId = nat

  /** What the selector and the geometry checks read from an element. */
  datatype Node = Node(
    id: ElemId,
    animate: Option<string>,        // its `data-animate` attribute
    classes: set<string>,           // its own classes
    ancestorClasses: set<string>,   // the classes of all its ancestors
    top: int,
    bottom: int)

  const StickyNav := "sticky-nav-container"
  const ThemeDropdown := "theme-dropdown"

  const DebounceMs: nat := 100
  const FlagResetMs: nat := 100
  const HideRecheckMs: nat := 150
  const FallbackMs: nat := 200

  /** The observer options the controller hard-codes: threshold 0.15, bottom root margin -8%. */
  const ThresholdPercent: nat := 15
  const RootMarginBottomPercent: int := -8

  // -------------------------------------------------------------- selection

  /** The selector `[data-animate="fade-up"]` minus the sticky navigation and the theme dropdown and everything inside them. */
  predicate Matches(n: Node) {
    && n.animate == Some("fade-up")
    && StickyNav !in n.classes && StickyNav !in n.ancestorClasses
    && ThemeDropdown !in n.classes && ThemeDropdown !in n.ancestorClasses
  }

  /** `document.querySelectorAll(FADE_UP_SELECTOR)`, in document order. */
  function Select(page: seq<Node>): (sel: seq<Node>)
    ensures |sel| <= |page|
    ensures forall n :: n in sel <==> n in page && Matches(n)
  {
    if page == [] then []
    else (if Matches(page[0]) then [page[0]] else []) + Select(page[1..])
  }

  /** Other markers, `fade-up-subtle` among them, and marked elements inside the excluded containers are never selected. */
  lemma OnlyFadeUpSelected(page: seq<Node>, n: Node)
    requires n in page
    requires n.animate != Some("fade-up") || StickyNav in n.ancestorClasses || ThemeDropdown in n.ancestorClasses
    ensures n !in Select(page)
  {
  }

  function IdsOf(nodes: seq<Node>): set<ElemId> {
    set n | n in nodes :: n.id
  }

  lemma IdsOfStep(nodes: seq<Node>, i: nat)
    requires i < |nodes|
    ensures IdsOf(nodes[..i + 1]) == IdsOf(nodes[..i]) + {nodes[i].id}
  {
    assert nodes[..i + 1] == nodes[..i] + [nodes[i]];
  }

  // --------------------------------------------------------------- geometry

  /** `rect.top < innerHeight && rect.bottom > 0`: the box overlaps the viewport. */
  predicate InViewport(top: int, bottom: int, viewH: int) {
    top < viewH && bottom > 0
  }

  /** `rect.bottom < 0 || rect.top > innerHeight`: the box is wholly above or wholly below. */
  predicate OutOfView(top: int, bottom: int, viewH: int) {
    bottom < 0 || top > viewH
  }

  /**
   * The two tests are not complements: a box touching the viewport's top
   * edge (`bottom == 0`) or its bottom edge (`top == viewH`) passes neither.
   */
  lemma ViewportTests(top: int, bottom: int, viewH: int)
    ensures OutOfView(top, bottom, viewH) ==> !InViewport(top, bottom, viewH)
    ensures !InViewport(top, bottom, viewH) <==> OutOfView(top, bottom, viewH) || bottom == 0 || top == viewH
  {
  }

  // ------------------------------------------------------------------ state

  /** The record `elementStates` keeps per element. */
  datatype ElemState = ElemState(isVisible: bool, lastUpdate: nat)

  /** A live `IntersectionObserver`: the elements it observes and its options. */
  datatype Observer = Observer(targets: set<ElemId>, thresholdPercent: nat, rootMarginBottomPercent: int)

  /** A callback the browser will run later: an animation frame or a timer with the time it is due. */
  datatype Task =
    | RevealFrame(e: ElemId)          // the frame that shows an element
    | HideCheck(e: ElemId, due: nat)  // the 150 ms re-check before hiding
    | HideFrame(e: ElemId)            // the frame that hides an element
    | FallbackSweep(due: nat)         // the 200 ms visibility fallback
    | FlagReset(due: nat)             // the 100 ms reset of the initializing flag

  /** The state records the seeding loop writes: each selected element, by its box at that moment, stamped `now`. */
  function SeedStates(sel: seq<Node>, viewH: int, now: nat): (m: map<ElemId, ElemState>)
    ensures m.Keys == IdsOf(sel)
    ensures forall e :: e in m ==> m[e].lastUpdate == now
    decreases |sel|
  {
    if sel == [] then map[]
    else
      var last := sel[|sel| - 1];
      assert sel == sel[..|sel| - 1] + [last];
      SeedStates(sel[..|sel| - 1], viewH, now)[last.id := ElemState(InViewport(last.top, last.bottom, viewH), now)]
  }

  lemma SeedStep(sel: seq<Node>, i: nat, viewH: int, now: nat)
    requires i < |sel|
    ensures SeedStates(sel[..i + 1], viewH, now)
         == SeedStates(sel[..i], viewH, now)[sel[i].id := ElemState(InViewport(sel[i].top, sel[i].bottom, viewH), now)]
  {
    assert sel[..i + 1][..i] == sel[..i];
  }

  lemma MergeUpdate<K, V>(a: map<K, V>, b: map<K, V>, k: K, v: V)
    ensures a + b[k := v] == (a + b)[k := v]
  {
  }

  /** With one node per element, each seeded record says whether that element's box overlapped the viewport. */
  lemma {:induction false} SeedStatesVisible(sel: seq<Node>, viewH: int, now: nat, k: nat)
    requires k < |sel|
    requires forall i, j :: 0 <= i < j < |sel| ==> sel[i].id != sel[j].id
    ensures SeedStates(sel, viewH, now)[sel[k].id].isVisible == InViewport(sel[k].top, sel[k].bottom, viewH)
    decreases |sel|
  {
    if k < |sel| - 1 {
      SeedStatesVisible(sel[..|sel| - 1], viewH, now, k);
    }
  }

  /** The elements the fallback sweep reveals: selected, overlapping the viewport, and not yet visible. */
  function FallbackTargets(page: seq<Node>, viewH: int, visible: set<ElemId>): set<ElemId> {
    set n | n in page && Matches(n) && InViewport(n.top, n.bottom, viewH) && n.id !in visible :: n.id
  }

  /** `now - lastUpdate < 100` for an element with a record: its entry is ignored. */
  predicate Debounced(states: map<ElemId, ElemState>, e: ElemId, now: nat) {
    e in states && now - states[e].lastUpdate < DebounceMs
  }

  class Controller {
    var observer: Option<Observer>
    var initializing: bool
    var states: map<ElemId, ElemState>
    var visibleClass: set<ElemId>   // the elements with `is-visible`
    var initClass: set<ElemId>      // the elements with `fade-up-init`
    var pending: multiset<Task>
    /** The elements whose classes the controller has switched at least once. */
    ghost var touched: set<ElemId>

    /** Every switch adds one of the two classes and removes the other, so a touched element has exactly one. */
    ghost predicate Valid()
      reads this
    {
      forall e :: e in touched ==> (e in visibleClass <==> e !in initClass)
    }

    /** Module load: no observer, flag clear, empty map; the page's classes are whatever its markup says. */
    constructor (visible0: set<ElemId>, init0: set<ElemId>)
      ensures Valid()
      ensures observer.None? && !initializing && states == map[] && pending == multiset{}
      ensures visibleClass == visible0 && initClass == init0 && touched == {}
    {
      observer := None;
      initializing := false;
      states := map[];
      visibleClass := visible0;
      initClass := init0;
      pending := multiset{};
      touched := {};
    }

    /** `classList.add('is-visible'); classList.remove('fade-up-init')`. */
    method Reveal(e: ElemId)
      requires Valid()
      modifies this
      ensures Valid()
      ensures visibleClass == old(visibleClass) + {e} && initClass == old(initClass) - {e}
      ensures touched == old(touched) + {e}
      ensures observer == old(observer) && initializing == old(initializing)
      ensures states == old(states) && pending == old(pending)
    {
      visibleClass := visibleClass + {e};
      initClass := initClass - {e};
      touched := touched + {e};
    }

    /** `classList.remove('is-visible'); classList.add('fade-up-init')`. */
    method Hide(e: ElemId)
      requires Valid()
      modifies this
      ensures Valid()
      ensures visibleClass == old(visibleClass) - {e} && initClass == old(initClass) + {e}
      ensures touched == old(touched) + {e}
      ensures observer == old(observer) && initializing == old(initializing)
      ensures states == old(states) && pending == old(pending)
    {
      visibleClass := visibleClass - {e};
      initClass := initClass + {e};
      touched := touched + {e};
    }

    /**
     * `initFadeUpAnimations()`. `supported` says whether the browser has
     * `IntersectionObserver`, `reducedMotion` whether the user prefers
     * reduced motion, `page` is the document with every element's box at
     * this moment, `viewH` the viewport height and `now` the clock.
     */
    method Init(supported: bool, reducedMotion: bool, page: seq<Node>, viewH: int, now: nat)
      requires Valid()
      modifies this
      ensures Valid()
      // A call during initialization changes nothing.
      ensures old(initializing) ==>
        && observer == old(observer) && initializing && states == old(states)
        && visibleClass == old(visibleClass) && initClass == old(initClass)
        && pending == old(pending) && touched == old(touched)
      // Otherwise the flag is set and the old observer is gone.
      ensures !old(initializing) ==> initializing
      // No observer or reduced motion: everything selected is shown, and no reset of the flag is scheduled.
      ensures !old(initializing) && (!supported || reducedMotion) ==>
        && observer.None? && states == old(states) && pending == old(pending)
        && visibleClass == old(visibleClass) + IdsOf(Select(page))
        && initClass == old(initClass) - IdsOf(Select(page))
        && touched == old(touched) + IdsOf(Select(page))
      // Observing: everything selected starts hidden, is seeded and observed; the reset and the fallback are scheduled.
      ensures !old(initializing) && supported && !reducedMotion ==>
        && observer == Some(Observer(IdsOf(Select(page)), ThresholdPercent, RootMarginBottomPercent))
        && states == old(states) + SeedStates(Select(page), viewH, now)
        && visibleClass == old(visibleClass) - IdsOf(Select(page))
        && initClass == old(initClass) + IdsOf(Select(page))
        && touched == old(touched) + IdsOf(Select(page))
        && pending == old(pending) + multiset{FlagReset(now + FlagResetMs), FallbackSweep(now + FallbackMs)}
    {
      if initializing {
        return;
      }
      initializing := true;
      observer := None;
      var sel := Select(page);
      if !supported || reducedMotion {
        RevealAll(sel);
        return;
      }
      HideAll(sel);
      observer := Some(Observer({}, ThresholdPercent, RootMarginBottomPercent));
      SeedAndObserve(sel, viewH, now);
      assert observer.value.targets == IdsOf(sel);
      pending := pending + multiset{FlagReset(now + FlagResetMs), FallbackSweep(now + FallbackMs)};
    }

    /** The terminal paths' `forEach`: every selected element shown. */
    method RevealAll(sel: seq<Node>)
      requires Valid()
      modifies this
      ensures Valid()
      ensures visibleClass == old(visibleClass) + IdsOf(sel) && initClass == old(initClass) - IdsOf(sel)
      ensures touched == old(touched) + IdsOf(sel)
      ensures observer == old(observer) && initializing == old(initializing)
      ensures states == old(states) && pending == old(pending)
    {
      var i := 0;
      while i < |sel|
        invariant 0 <= i <= |sel|
        invariant Valid()
        invariant visibleClass == old(visibleClass) + IdsOf(sel[..i])
        invariant initClass == old(initClass) - IdsOf(sel[..i])
        invariant touched == old(touched) + IdsOf(sel[..i])
        invariant observer == old(observer) && initializing == old(initializing)
        invariant states == old(states) && pending == old(pending)
      {
        IdsOfStep(sel, i);
        Reveal(sel[i].id);
        i := i + 1;
      }
      assert sel[..i] == sel;
    }

    /** The observing path's first `forEach`: every selected element hidden. */
    method HideAll(sel: seq<Node>)
      requires Valid()
      modifies this
      ensures Valid()
      ensures visibleClass == old(visibleClass) - IdsOf(sel) && initClass == old(initClass) + IdsOf(sel)
      ensures touched == old(touched) + IdsOf(sel)
      ensures observer == old(observer) && initializing == old(initializing)
      ensures states == old(states) && pending == old(pending)
    {
      var i := 0;
      while i < |sel|
        invariant 0 <= i <= |sel|
        invariant Valid()
        invariant visibleClass == old(visibleClass) - IdsOf(sel[..i])
        invariant initClass == old(initClass) + IdsOf(sel[..i])
        invariant touched == old(touched) + IdsOf(sel[..i])
        invariant observer == old(observer) && initializing == old(initializing)
        invariant states == old(states) && pending == old(pending)
      {
        IdsOfStep(sel, i);
        Hide(sel[i].id);
        i := i + 1;
      }
      assert sel[..i] == sel;
    }

    /** The observing path's second `forEach`: each element's record seeded, then the element observed. */
    method SeedAndObserve(sel: seq<Node>, viewH: int, now: nat)
      requires observer.Some?
      modifies this
      ensures observer.Some? && observer.value.targets == old(observer).value.targets + IdsOf(sel)
      ensures observer.value.thresholdPercent == old(observer).value.thresholdPercent
      ensures observer.value.rootMarginBottomPercent == old(observer).value.rootMarginBottomPercent
      ensures states == old(states) + SeedStates(sel, viewH, now)
      ensures initializing == old(initializing) && touched == old(touched)
      ensures visibleClass == old(visibleClass) && initClass == old(initClass) && pending == old(pending)
    {
      var i := 0;
      while i < |sel|
        invariant 0 <= i <= |sel|
        invariant observer.Some? && observer.value.targets == old(observer).value.targets + IdsOf(sel[..i])
        invariant observer.value.thresholdPercent == old(observer).value.thresholdPercent
        invariant observer.value.rootMarginBottomPercent == old(observer).value.rootMarginBottomPercent
        invariant states == old(states) + SeedStates(sel[..i], viewH, now)
        invariant initializing == old(initializing) && touched == old(touched)
        invariant visibleClass == old(visibleClass) && initClass == old(initClass) && pending == old(pending)
      {
        var n := sel[i];
        IdsOfStep(sel, i);
        SeedStep(sel, i, viewH, now);
        MergeUpdate(old(states), SeedStates(sel[..i], viewH, now), n.id, ElemState(InViewport(n.top, n.bottom, viewH), now));
        SeedOne(n, viewH, now);
        i := i + 1;
      }
      assert sel[..i] == sel;
    }

    /** One element: its record seeded from its box, then `observer.observe(el)`. */
    method SeedOne(n: Node, viewH: int, now: nat)
      requires observer.Some?
      modifies this
      ensures states == old(states)[n.id := ElemState(InViewport(n.top, n.bottom, viewH), now)]
      ensures observer == Some(Observer(old(observer).value.targets + {n.id}, old(observer).value.thresholdPercent, old(observer).value.rootMarginBottomPercent))
      ensures initializing == old(initializing) && touched == old(touched)
      ensures visibleClass == old(visibleClass) && initClass == old(initClass) && pending == old(pending)
    {
      states := states[n.id := ElemState(InViewport(n.top, n.bottom, viewH), now)];
      observer := Some(Observer(observer.value.targets + {n.id}, observer.value.thresholdPercent, observer.value.rootMarginBottomPercent));
    }

    /** The observer's callback for one entry about `e`, delivered at `now`. */
    method OnEntry(e: ElemId, intersecting: bool, now: nat)
      requires Valid()
      requires observer.Some? && e in observer.value.targets
      modifies this
      ensures Valid()
      ensures observer == old(observer) && initializing == old(initializing)
      ensures visibleClass == old(visibleClass) && initClass == old(initClass) && touched == old(touched)
      // Within 100 ms of the element's last update, the entry is ignored.
      ensures Debounced(old(states), e, now) ==> states == old(states) && pending == old(pending)
      // Otherwise the record is replaced, and a reveal frame or a hide re-check is scheduled.
      ensures !Debounced(old(states), e, now) ==>
        && states == old(states)[e := ElemState(intersecting, now)]
        && pending == old(pending) + multiset{if intersecting then RevealFrame(e) else HideCheck(e, now + HideRecheckMs)}
    {
      if e in states && now - states[e].lastUpdate < 100 {
        return;
      }
      if intersecting {
        states := states[e := ElemState(true, now)];
        pending := pending + multiset{RevealFrame(e)};
      } else {
        states := states[e := ElemState(false, now)];
        pending := pending + multiset{HideCheck(e, now + 150)};
      }
    }

    /** The reveal frame: the element is shown. */
    method OnRevealFrame(e: ElemId)
      requires Valid()
      requires RevealFrame(e) in pending
      modifies this
      ensures Valid()
      ensures visibleClass == old(visibleClass) + {e} && initClass == old(initClass) - {e}
      ensures touched == old(touched) + {e}
      ensures pending == old(pending) - multiset{RevealFrame(e)}
      ensures observer == old(observer) && initializing == old(initializing) && states == old(states)
    {
      pending := pending - multiset{RevealFrame(e)};
      Reveal(e);
    }

    /**
     * The hide re-check, 150 ms after a leaving entry, measuring the box
     * again: a hide frame only if the box is still wholly outside. It reads
     * neither the element's record nor the observer, so a re-check left
     * over from an earlier initialization still acts.
     */
    method OnHideCheck(e: ElemId, due: nat, top: int, bottom: int, viewH: int)
      requires Valid()
      requires HideCheck(e, due) in pending
      modifies this
      ensures Valid()
      ensures OutOfView(top, bottom, viewH) ==>
        pending == old(pending) - multiset{HideCheck(e, due)} + multiset{HideFrame(e)}
      ensures !OutOfView(top, bottom, viewH) ==> pending == old(pending) - multiset{HideCheck(e, due)}
      ensures observer == old(observer) && initializing == old(initializing) && states == old(states)
      ensures visibleClass == old(visibleClass) && initClass == old(initClass) && touched == old(touched)
    {
      pending := pending - multiset{HideCheck(e, due)};
      if bottom < 0 || top > viewH {
        pending := pending + multiset{HideFrame(e)};
      }
    }

    /** The hide frame: the element is hidden. */
    method OnHideFrame(e: ElemId)
      requires Valid()
      requires HideFrame(e) in pending
      modifies this
      ensures Valid()
      ensures visibleClass == old(visibleClass) - {e} && initClass == old(initClass) + {e}
      ensures touched == old(touched) + {e}
      ensures pending == old(pending) - multiset{HideFrame(e)}
      ensures observer == old(observer) && initializing == old(initializing) && states == old(states)
    {
      pending := pending - multiset{HideFrame(e)};
      Hide(e);
    }

    /**
     * The 200 ms fallback sweep over the document as it is when the timer
     * fires: reveals exactly the selected elements that overlap the
     * viewport and lack `is-visible`; hides nothing, records nothing.
     */
    method OnFallback(due: nat, page: seq<Node>, viewH: int)
      requires Valid()
      requires FallbackSweep(due) in pending
      modifies this
      ensures Valid()
      ensures visibleClass == old(visibleClass) + FallbackTargets(page, viewH, old(visibleClass))
      ensures initClass == old(initClass) - FallbackTargets(page, viewH, old(visibleClass))
      ensures touched == old(touched) + FallbackTargets(page, viewH, old(visibleClass))
      ensures pending == old(pending) - multiset{FallbackSweep(due)}
      ensures observer == old(observer) && initializing == old(initializing) && states == old(states)
    {
      pending := pending - multiset{FallbackSweep(due)};
      RevealInView(Select(page), viewH);
      FallbackOfSelected(page, viewH, old(visibleClass));
    }

    /** The sweep's `forEach` over the selected elements. */
    method RevealInView(sel: seq<Node>, viewH: int)
      requires Valid()
      modifies this
      ensures Valid()
      ensures visibleClass == old(visibleClass) + InViewTargets(sel, viewH, old(visibleClass))
      ensures initClass == old(initClass) - InViewTargets(sel, viewH, old(visibleClass))
      ensures touched == old(touched) + InViewTargets(sel, viewH, old(visibleClass))
      ensures pending == old(pending)
      ensures observer == old(observer) && initializing == old(initializing) && states == old(states)
    {
      var i := 0;
      while i < |sel|
        invariant 0 <= i <= |sel|
        invariant Valid()
        invariant visibleClass == old(visibleClass) + InViewTargets(sel[..i], viewH, old(visibleClass))
        invariant initClass == old(initClass) - InViewTargets(sel[..i], viewH, old(visibleClass))
        invariant touched == old(touched) + InViewTargets(sel[..i], viewH, old(visibleClass))
        invariant pending == old(pending)
        invariant observer == old(observer) && initializing == old(initializing) && states == old(states)
      {
        var n := sel[i];
        InViewStep(sel, i, viewH, old(visibleClass));
        if InViewport(n.top, n.bottom, viewH) && n.id !in visibleClass {
          Reveal(n.id);
        }
        i := i + 1;
      }
      assert sel[..i] == sel;
    }

    /** The 100 ms timer: the initializing flag is cleared, so the next call runs again. */
    method OnFlagReset(due: nat)
      requires Valid()
      requires FlagReset(due) in pending
      modifies this
      ensures Valid()
      ensures !initializing
      ensures pending == old(pending) - multiset{FlagReset(due)}
      ensures observer == old(observer) && states == old(states)
      ensures visibleClass == old(visibleClass) && initClass == old(initClass) && touched == old(touched)
    {
      pending := pending - multiset{FlagReset(due)};
      initializing := false;
    }
  }

  /** The selected elements among `sel` a sweep reveals. */
  function InViewTargets(sel: seq<Node>, viewH: int, visible: set<ElemId>): set<ElemId> {
    set n | n in sel && InViewport(n.top, n.bottom, viewH) && n.id !in visible :: n.id
  }

  lemma InViewStep(sel: seq<Node>, i: nat, viewH: int, visible: set<ElemId>)
    requires i < |sel|
    ensures InViewTargets(sel[..i + 1], viewH, visible)
         == InViewTargets(sel[..i], viewH, visible)
          + (if InViewport(sel[i].top, sel[i].bottom, viewH) && sel[i].id !in visible then {sel[i].id} else {})
  {
    assert sel[..i + 1] == sel[..i] + [sel[i]];
  }

  lemma FallbackOfSelected(page: seq<Node>, viewH: int, visible: set<ElemId>)
    ensures InViewTargets(Select(page), viewH, visible) == FallbackTargets(page, viewH, visible)
  {
  }

  /**
   * The terminal paths return before the flag-reset timer is scheduled: a
   * first call under reduced motion leaves the flag set with nothing pending
   * to clear it, so a later call — even one that could observe — does nothing.
   */
  method ReducedMotionLocksOut(page: seq<Node>, viewH: int, now: nat, later: nat)
    returns (stillInitializing: bool, observing: bool, resetsPending: nat, shown: set<ElemId>)
    ensures stillInitializing && !observing && resetsPending == 0
    ensures shown == IdsOf(Select(page))
  {
    var c := new Controller({}, {});
    c.Init(true, true, page, viewH, now);
    c.Init(true, false, page, viewH, later);
    stillInitializing := c.initializing;
    observing := c.observer.Some?;
    resetsPending := |set t | t in c.pending && t.FlagReset?|;
    shown := c.visibleClass;
  }
}
