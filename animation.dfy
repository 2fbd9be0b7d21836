/** The element animator of the web pages: a click coordinator that joins
    the end of a click animation and the report of an asynchronous handler
    into one callback, blocking other clicks while a click is pending, but
    for no longer than a fixed wait. Times are milliseconds; elements,
    callbacks and `onend` functions are identified by number; the result a
    handler reports is a value of type `R`, `None` standing for null. */
module Animation {
  import opened Wrappers

  /** `ELEMENT_ANIMATOR_CLICK_HANDLER_WAIT`: how long a pending click blocks
      other clicks. */
  const ELEMENT_ANIMATOR_CLICK_HANDLER_WAIT := 2000

  /** An element of the page, by identity. */
  type Elem = nat

  /** The asynchronous handler of a click: none, one that reports later
      through `onAnimatedClickHandlerCompleted`, or one that reports before
      it returns. */
  datatype Handler<R> = NoHandler | Deferred | Immediate(result: Option<R>)

  /** `_currentClick`: empty, or the pending click. */
  datatype Slot<R> =
    | Idle
    | Active(id: nat, start: int, animDone: bool, handlerDone: bool, result: Option<R>, callback: Option<nat>)

  /** A click that completed: its id, the callback it calls (if any) and
      the result it passes. */
  datatype Settled<R> = Settled(clickId: nat, callback: Option<nat>, result: Option<R>)

  /** The `animationend` listener bound to an element: one of a click, or
      one of `startAnimation`. */
  datatype AnimEndListener = ClickEnd(clickId: nat, animClass: string) | PlainEnd(animClass: string, onend: Option<nat>)

  /** A click handler added with `addAnimatedClickHandler`. */
  datatype Binding<R> = Binding(animElem: Elem, animClass: Option<string>, handler: Handler<R>, callback: Option<nat>)

  /** Everything the animator and its listeners change: the slot, the next
      fresh click id, the clicks settled so far, the `animationend`
      listeners and classes of the elements, and the `onend` functions
      called so far. */
  datatype AnimatorState<R> = AnimatorState(
    current: Slot<R>, nextId: nat, settled: seq<Settled<R>>,
    animEnd: map<Elem, AnimEndListener>, classes: map<Elem, set<string>>, onends: seq<nat>)

  function ClassesIn(classes: map<Elem, set<string>>, e: Elem): set<string> {
    if e in classes then classes[e] else {}
  }

  function ListenersOf<R>(listeners: map<Elem, seq<Binding<R>>>, e: Elem): seq<Binding<R>> {
    if e in listeners then listeners[e] else []
  }

  function AddClass<R>(s: AnimatorState<R>, e: Elem, c: string): (r: AnimatorState<R>)
    ensures ClassesIn(r.classes, e) == ClassesIn(s.classes, e) + {c}
  {
    s.(classes := s.classes[e := ClassesIn(s.classes, e) + {c}])
  }

  function RemoveClass<R>(s: AnimatorState<R>, e: Elem, c: string): (r: AnimatorState<R>)
    ensures ClassesIn(r.classes, e) == ClassesIn(s.classes, e) - {c}
  {
    s.(classes := s.classes[e := ClassesIn(s.classes, e) - {c}])
  }

  /** The animator as it starts: no click, no listener, no class. */
  function Initial<R>(): AnimatorState<R> {
    AnimatorState(Idle, 0, [], map[], map[], [])
  }

  /** Each click settles at most once: the settled ids increase, and every
      id handed out, the pending one above all settled ones, is below the
      next fresh id. */
  predicate Inv<R>(s: AnimatorState<R>) {
    (forall i, j :: 0 <= i < j < |s.settled| ==> s.settled[i].clickId < s.settled[j].clickId) &&
    (forall i :: 0 <= i < |s.settled| ==> s.settled[i].clickId < s.nextId) &&
    (s.current.Active? ==>
       s.current.id < s.nextId && forall i :: 0 <= i < |s.settled| ==> s.settled[i].clickId < s.current.id)
  }

  /** `_checkAnimatedClickCompleted` on a pending click: once both the
      animation and the handler are done, the callback is called with the
      stored result and the slot is emptied. */
  function Settle<R>(s: AnimatorState<R>): (r: AnimatorState<R>)
    requires s.current.Active?
  {
    if !s.current.animDone || !s.current.handlerDone then s
    else s.(current := Idle, settled := s.settled + [Settled(s.current.id, s.current.callback, s.current.result)])
  }

  /** `_checkAnimatedClickCompleted` as written: on an empty slot it reads a
      property of null and throws. */
  function CheckCompletedAsWritten<R>(s: AnimatorState<R>): (AnimatorState<R>, bool) {
    if s.current.Idle? then (s, true) else (Settle(s), false)
  }

  /** `_checkAnimatedClickCompleted` with the empty slot left alone. */
  function CheckCompleted<R>(s: AnimatorState<R>): AnimatorState<R> {
    if s.current.Idle? then s else Settle(s)
  }

  /** `onAnimatedClickHandlerCompleted`: a report for the pending click
      marks its handler done, stores the result and checks completion; any
      other report is dropped. */
  function HandlerCompleted<R>(s: AnimatorState<R>, clickId: nat, result: Option<R>): AnimatorState<R> {
    if s.current.Idle? || s.current.id != clickId then s
    else Settle(s.(current := s.current.(handlerDone := true, result := result)))
  }

  /** `_onAnimatedClickAnimationCompleted`: the class is removed in every
      case; the end of the pending click's animation marks it done and
      checks completion. */
  function AnimationCompleted<R>(s: AnimatorState<R>, clickId: nat, elem: Elem, animClass: string): AnimatorState<R> {
    var s1 := RemoveClass(s, elem, animClass);
    if s1.current.Idle? || s1.current.id != clickId then s1
    else Settle(s1.(current := s1.current.(animDone := true)))
  }

  /** A click is ignored while a pending click is younger than the wait. */
  predicate Blocked<R>(s: AnimatorState<R>, now: int) {
    s.current.Active? && now < s.current.start + ELEMENT_ANIMATOR_CLICK_HANDLER_WAIT
  }

  /** Lines 109 to 127 of `_onAnimatedClick`: a fresh click fills the
      slot, the element's `animationend` listener is replaced and a
      non-empty animation class is added. */
  function FillSlot<R>(s: AnimatorState<R>, now: int, elem: Elem, animClass: Option<string>, handler: Handler<R>, callback: Option<nat>): AnimatorState<R> {
    var id := s.nextId;
    var s1 := s.(current := Active(id, now, animClass.None?, handler.NoHandler?, None, callback), nextId := id + 1);
    var s2 := s1.(animEnd := s1.animEnd - {elem});
    if animClass.Some? && animClass.value != "" then
      AddClass(s2.(animEnd := s2.animEnd[elem := ClickEnd(id, animClass.value)]), elem, animClass.value)
    else s2
  }

  /** The body of `_onAnimatedClick` up to the final check: the slot is
      filled and an immediate handler reports. */
  function Begin<R>(s: AnimatorState<R>, now: int, elem: Elem, animClass: Option<string>, handler: Handler<R>, callback: Option<nat>): AnimatorState<R> {
    var s3 := FillSlot(s, now, elem, animClass, handler, callback);
    if handler.Immediate? then HandlerCompleted(s3, s.nextId, handler.result) else s3
  }

  /** `_onAnimatedClick` as written, with whether it throws. */
  function AnimatedClickAsWritten<R>(s: AnimatorState<R>, now: int, elem: Elem, animClass: Option<string>, handler: Handler<R>, callback: Option<nat>): (AnimatorState<R>, bool) {
    if Blocked(s, now) then (s, false)
    else CheckCompletedAsWritten(Begin(s, now, elem, animClass, handler, callback))
  }

  /** `_onAnimatedClick` with the final check skipping an empty slot. */
  function AnimatedClick<R>(s: AnimatorState<R>, now: int, elem: Elem, animClass: Option<string>, handler: Handler<R>, callback: Option<nat>): AnimatorState<R> {
    if Blocked(s, now) then s
    else CheckCompleted(Begin(s, now, elem, animClass, handler, callback))
  }

  /** An `animationend` event on an element runs the listener bound to it,
      if any: a click's, or the one of `startAnimation`
      (`_onAnimationEnd`), which removes the class and calls `onend`. */
  function AnimationEnd<R>(s: AnimatorState<R>, elem: Elem): AnimatorState<R> {
    if elem !in s.animEnd then s
    else match s.animEnd[elem]
      case ClickEnd(clickId, c) => AnimationCompleted(s, clickId, elem, c)
      case PlainEnd(c, onend) =>
        var s1 := RemoveClass(s, elem, c);
        if onend.Some? then s1.(onends := s1.onends + [onend.value]) else s1
  }

  /** `startAnimation`: replaces the element's `animationend` listener and
      adds the class; the click slot is not involved. */
  function AnimationStarted<R>(s: AnimatorState<R>, elem: Elem, animClass: string, onend: Option<nat>): AnimatorState<R> {
    AddClass(s.(animEnd := s.animEnd[elem := PlainEnd(animClass, onend)]), elem, animClass)
  }

  /** A click on an element runs its click handlers in the order they were
      added; one that throws stops the rest. */
  function DispatchClick<R>(s: AnimatorState<R>, bindings: seq<Binding<R>>, now: int): (AnimatorState<R>, bool)
    decreases |bindings|
  {
    if |bindings| == 0 then (s, false)
    else
      var b := bindings[0];
      var (s1, threw) := AnimatedClickAsWritten(s, now, b.animElem, b.animClass, b.handler, b.callback);
      if threw then (s1, true) else DispatchClick(s1, bindings[1..], now)
  }

  // ----- Properties of the transitions -----

  lemma InitialInv<R>()
    ensures Inv<R>(Initial<R>())
  {
  }

  lemma SettleInv<R>(s: AnimatorState<R>)
    requires Inv(s) && s.current.Active?
    ensures Inv(Settle(s))
    ensures Settle(s).nextId == s.nextId
    ensures |Settle(s).settled| <= |s.settled| + 1
  {
  }

  /** A report keeps the invariant. */
  lemma HandlerCompletedInv<R>(s: AnimatorState<R>, clickId: nat, result: Option<R>)
    requires Inv(s)
    ensures Inv(HandlerCompleted(s, clickId, result))
  {
    if s.current.Active? && s.current.id == clickId {
      SettleInv(s.(current := s.current.(handlerDone := true, result := result)));
    }
  }

  /** The end of an animation keeps the invariant. */
  lemma AnimationCompletedInv<R>(s: AnimatorState<R>, clickId: nat, elem: Elem, animClass: string)
    requires Inv(s)
    ensures Inv(AnimationCompleted(s, clickId, elem, animClass))
  {
    var s1 := RemoveClass(s, elem, animClass);
    if s1.current.Active? && s1.current.id == clickId {
      SettleInv(s1.(current := s1.current.(animDone := true)));
    }
  }

  lemma BeginInv<R>(s: AnimatorState<R>, now: int, elem: Elem, animClass: Option<string>, handler: Handler<R>, callback: Option<nat>)
    requires Inv(s)
    ensures Inv(Begin(s, now, elem, animClass, handler, callback))
  {
    var s3 := FillSlot(s, now, elem, animClass, handler, callback);
    InvOfClicks(s3, s.(current := s3.current, nextId := s3.nextId));
    if handler.Immediate? {
      HandlerCompletedInv(s3, s.nextId, handler.result);
    }
  }

  /** A click keeps the invariant, as written and corrected. */
  lemma OnAnimatedClickInv<R>(s: AnimatorState<R>, now: int, elem: Elem, animClass: Option<string>, handler: Handler<R>, callback: Option<nat>)
    requires Inv(s)
    ensures Inv(AnimatedClick(s, now, elem, animClass, handler, callback))
    ensures Inv(AnimatedClickAsWritten(s, now, elem, animClass, handler, callback).0)
  {
    if !Blocked(s, now) {
      var b := Begin(s, now, elem, animClass, handler, callback);
      BeginInv(s, now, elem, animClass, handler, callback);
      if b.current.Active? {
        SettleInv(b);
      }
    }
  }

  /** The invariant is about the slot, the ids and the settled clicks
      only, not about the elements. */
  lemma InvOfClicks<R>(s: AnimatorState<R>, t: AnimatorState<R>)
    requires s.current == t.current && s.nextId == t.nextId && s.settled == t.settled
    ensures Inv(s) == Inv(t)
  {
  }

  /** An `animationend` event keeps the invariant. */
  lemma AnimationEndInv<R>(s: AnimatorState<R>, elem: Elem)
    requires Inv(s)
    ensures Inv(AnimationEnd(s, elem))
  {
    if elem in s.animEnd {
      match s.animEnd[elem]
      case ClickEnd(clickId, c) =>
        AnimationCompletedInv(s, clickId, elem, c);
      case PlainEnd(c, onend) =>
        InvOfClicks(s, AnimationEnd(s, elem));
    }
  }

  /** `startAnimation` keeps the invariant. */
  lemma StartAnimationInv<R>(s: AnimatorState<R>, elem: Elem, animClass: string, onend: Option<nat>)
    requires Inv(s)
    ensures Inv(AnimationStarted(s, elem, animClass, onend))
  {
    InvOfClicks(s, AnimationStarted(s, elem, animClass, onend));
  }

  /** A click is ignored exactly when a pending click is younger than the
      wait; at exactly the wait a new click is taken. An accepted click
      takes the next fresh id, which is above every id handed out before. */
  lemma ClickIgnoredIff<R>(s: AnimatorState<R>, now: int, elem: Elem, animClass: Option<string>, handler: Handler<R>, callback: Option<nat>)
    ensures var r := AnimatedClick(s, now, elem, animClass, handler, callback);
            && (r == s <==> Blocked(s, now))
            && (r.nextId == s.nextId <==> Blocked(s, now))
            && (!Blocked(s, now) ==> r.nextId == s.nextId + 1)
    ensures s.current.Active? && now == s.current.start + ELEMENT_ANIMATOR_CLICK_HANDLER_WAIT ==> !Blocked(s, now)
  {
    if !Blocked(s, now) {
      var b := Begin(s, now, elem, animClass, handler, callback);
      assert b.nextId == s.nextId + 1;
      if b.current.Active? {
        assert Settle(b).nextId == b.nextId;
      }
    }
  }

  /** A new click with a deferred handler and a non-empty animation class
      is pending with the fresh id, the click time, neither part done and
      a null result. */
  lemma NewClickPending<R>(s: AnimatorState<R>, now: int, elem: Elem, animClass: string, callback: Option<nat>)
    requires !Blocked(s, now) && animClass != ""
    ensures var r := AnimatedClick(s, now, elem, Some(animClass), Deferred, callback);
            && r.current == Active(s.nextId, now, false, false, None, callback)
            && r.settled == s.settled
            && r.animEnd == s.animEnd[elem := ClickEnd(s.nextId, animClass)]
            && ClassesIn(r.classes, elem) == ClassesIn(s.classes, elem) + {animClass}
  {
  }

  /** A click with neither an animation class nor a handler settles at
      once, passing null to its callback. */
  lemma PlainClickSettlesAtOnce<R>(s: AnimatorState<R>, now: int, elem: Elem, callback: Option<nat>)
    requires !Blocked(s, now)
    ensures var r := AnimatedClick(s, now, elem, None, NoHandler, callback);
            r.current.Idle? && r.settled == s.settled + [Settled(s.nextId, callback, None)]
  {
  }

  /** A report or an animation end for another click, or on an empty slot,
      leaves the slot and the settled clicks as they are; the animation
      class is removed all the same. */
  lemma StaleSignalsDropped<R>(s: AnimatorState<R>, clickId: nat, result: Option<R>, elem: Elem, animClass: string)
    requires s.current.Idle? || s.current.id != clickId
    ensures HandlerCompleted(s, clickId, result) == s
    ensures AnimationCompleted(s, clickId, elem, animClass) == RemoveClass(s, elem, animClass)
  {
  }

  /** A report for the pending click settles it exactly when its animation
      is done, with the reported result, and then empties the slot. */
  lemma ReportSettlesIff<R>(s: AnimatorState<R>, result: Option<R>)
    requires s.current.Active?
    ensures var r := HandlerCompleted(s, s.current.id, result);
            && (r.current.Idle? <==> s.current.animDone)
            && (s.current.animDone ==> r.settled == s.settled + [Settled(s.current.id, s.current.callback, result)])
            && (!s.current.animDone ==> r.settled == s.settled && r.current == s.current.(handlerDone := true, result := result))
  {
  }

  /** The end of the pending click's animation settles it exactly when its
      handler is done, with the stored result. */
  lemma AnimationSettlesIff<R>(s: AnimatorState<R>, elem: Elem, animClass: string)
    requires s.current.Active?
    ensures var r := AnimationCompleted(s, s.current.id, elem, animClass);
            && (r.current.Idle? <==> s.current.handlerDone)
            && (s.current.handlerDone ==> r.settled == s.settled + [Settled(s.current.id, s.current.callback, s.current.result)])
            && (!s.current.handlerDone ==> r.settled == s.settled && r.current == s.current.(animDone := true))
  {
  }

  /** The report and the end of the animation may come in either order:
      both orders lead to the same state, with one callback passing the
      reported result. */
  lemma OrderIndependent<R>(s: AnimatorState<R>, result: Option<R>, elem: Elem, animClass: string)
    requires s.current.Active? && !s.current.animDone && !s.current.handlerDone
    ensures var id := s.current.id;
            var a := HandlerCompleted(AnimationCompleted(s, id, elem, animClass), id, result);
            var b := AnimationCompleted(HandlerCompleted(s, id, result), id, elem, animClass);
            && a == b
            && a.current.Idle?
            && a.settled == s.settled + [Settled(id, s.current.callback, result)]
  {
  }

  /** A pending click older than the wait is replaced by a new click; its
      later report and animation end carry a stale id and are dropped, so
      it never settles. */
  lemma ExpiredClickReplaced<R>(s: AnimatorState<R>, now: int, elem: Elem, animClass: Option<string>, handler: Handler<R>,
                                callback: Option<nat>, result: Option<R>, elem2: Elem, animClass2: string)
    requires Inv(s) && s.current.Active? && now >= s.current.start + ELEMENT_ANIMATOR_CLICK_HANDLER_WAIT
    ensures var r := AnimatedClick(s, now, elem, animClass, handler, callback);
            && HandlerCompleted(r, s.current.id, result) == r
            && AnimationCompleted(r, s.current.id, elem2, animClass2) == RemoveClass(r, elem2, animClass2)
            && forall i :: 0 <= i < |r.settled| ==> r.settled[i].clickId != s.current.id
  {
    var b := Begin(s, now, elem, animClass, handler, callback);
    assert b.current.Active? ==> b.current.id == s.nextId;
    assert forall i :: |s.settled| <= i < |b.settled| ==> b.settled[i].clickId == s.nextId;
    if b.current.Active? {
      assert forall i :: 0 <= i < |b.settled| ==> b.settled[i] == Settle(b).settled[i];
    }
  }

  /** Line 130 of the source as written: when the handler reports before it
      returns and no animation class was given, the click settles inside
      the handler, and the final check then reads the emptied slot and
      throws. Apart from the throw the state is the corrected one. */
  lemma SyncReportThrows<R>(s: AnimatorState<R>, now: int, elem: Elem, animClass: Option<string>, handler: Handler<R>, callback: Option<nat>)
    ensures var (r, threw) := AnimatedClickAsWritten(s, now, elem, animClass, handler, callback);
            && (threw <==> !Blocked(s, now) && animClass.None? && handler.Immediate?)
            && r == AnimatedClick(s, now, elem, animClass, handler, callback)
  {
  }

  /** The corrected click does the same and settles such a click once. */
  lemma SyncReportSettlesOnce<R>(s: AnimatorState<R>, now: int, elem: Elem, callback: Option<nat>, result: Option<R>)
    requires !Blocked(s, now)
    ensures var r := AnimatedClick(s, now, elem, None, Immediate(result), callback);
            r.current.Idle? && r.settled == s.settled + [Settled(s.nextId, callback, result)]
  {
  }

  /** Two stacked click handlers: when the first starts a click that stays
      pending, the second finds it younger than the wait and is ignored. */
  lemma StackedHandlerIgnored<R>(s: AnimatorState<R>, now: int, b1: Binding<R>, b2: Binding<R>)
    requires !Blocked(s, now) && b1.handler.Deferred?
    ensures DispatchClick(s, [b1, b2], now) ==
            (AnimatedClick(s, now, b1.animElem, b1.animClass, b1.handler, b1.callback), false)
  {
    var s1 := AnimatedClick(s, now, b1.animElem, b1.animClass, b1.handler, b1.callback);
    SyncReportThrows(s, now, b1.animElem, b1.animClass, b1.handler, b1.callback);
    assert AnimatedClickAsWritten(s, now, b1.animElem, b1.animClass, b1.handler, b1.callback) == (s1, false);
    assert s1.current.Active? && s1.current.start == now;
    assert Blocked(s1, now);
    assert AnimatedClickAsWritten(s1, now, b2.animElem, b2.animClass, b2.handler, b2.callback) == (s1, false);
    assert [b1, b2][1..] == [b2];
    assert [b1, b2][1..][1..] == [];
    assert DispatchClick(s1, [b2], now) == (s1, false);
  }

  /** `startAnimation` leaves the click slot alone, and it takes over the
      element's `animationend`: a click animating the same element no
      longer learns that its animation ended. */
  lemma StartAnimationNotExclusive<R>(s: AnimatorState<R>, elem: Elem, animClass: string, onend: Option<nat>)
    ensures var r := AnimationStarted(s, elem, animClass, onend);
            && r.current == s.current && r.nextId == s.nextId && r.settled == s.settled
            && r.animEnd[elem] == PlainEnd(animClass, onend)
            && AnimationEnd(r, elem).current == s.current
            && AnimationEnd(r, elem).onends == s.onends + (if onend.Some? then [onend.value] else [])
  {
  }

  /** The element animator; its fields are the parts of `State` and the
      click handlers added to each element. */
  class ElementAnimator<R> {
    var current: Slot<R>
    var nextId: nat
    var settled: seq<Settled<R>>
    var animEnd: map<Elem, AnimEndListener>
    var classes: map<Elem, set<string>>
    var onends: seq<nat>
    var clickListeners: map<Elem, seq<Binding<R>>>

    function State(): AnimatorState<R>
      reads this
    {
      AnimatorState(current, nextId, settled, animEnd, classes, onends)
    }

    predicate Valid()
      reads this
    {
      Inv(State())
    }

    constructor ()
      ensures State() == Initial() && clickListeners == map[] && Valid()
    {
      current := Idle;
      nextId := 0;
      settled := [];
      animEnd := map[];
      classes := map[];
      onends := [];
      clickListeners := map[];
    }

    /** `addAnimatedClickHandler`: one more click handler on the element;
      the ones added before stay. */
    method AddAnimatedClickHandler(clickElem: Elem, binding: Binding<R>)
      modifies this
      ensures clickListeners == old(clickListeners)[clickElem := ListenersOf(old(clickListeners), clickElem) + [binding]]
      ensures State() == old(State())
    {
      clickListeners := clickListeners[clickElem := ListenersOf(clickListeners, clickElem) + [binding]];
    }

    /** `clearAnimatedClickHandler`: every click handler of the element is
        removed. */
    method ClearAnimatedClickHandler(clickElem: Elem)
      modifies this
      ensures clickListeners == old(clickListeners) - {clickElem}
      ensures ListenersOf(clickListeners, clickElem) == []
      ensures State() == old(State())
    {
      clickListeners := clickListeners - {clickElem};
    }

    /** `_checkAnimatedClickCompleted` as written. */
    method CheckAnimatedClickCompleted() returns (threw: bool)
      modifies this
      ensures (State(), threw) == CheckCompletedAsWritten(old(State()))
      ensures clickListeners == old(clickListeners)
    {
      if current.Idle? {
        return true;
      }
      if !current.animDone || !current.handlerDone {
        return false;
      }
      settled := settled + [Settled(current.id, current.callback, current.result)];
      current := Idle;
      threw := false;
    }

    /** `onAnimatedClickHandlerCompleted`. */
    method OnAnimatedClickHandlerCompleted(clickId: nat, result: Option<R>)
      modifies this
      ensures State() == HandlerCompleted(old(State()), clickId, result)
      ensures clickListeners == old(clickListeners)
      ensures old(Valid()) ==> Valid()
    {
      if Valid() {
        HandlerCompletedInv(State(), clickId, result);
      }
      if current.Idle? || current.id != clickId {
        return;
      }
      current := current.(handlerDone := true, result := result);
      var _ := CheckAnimatedClickCompleted();
    }

    /** `_onAnimatedClickAnimationCompleted`. */
    method OnAnimatedClickAnimationCompleted(clickId: nat, elem: Elem, animClass: string)
      modifies this
      ensures State() == AnimationCompleted(old(State()), clickId, elem, animClass)
      ensures clickListeners == old(clickListeners)
      ensures old(Valid()) ==> Valid()
    {
      if Valid() {
        AnimationCompletedInv(State(), clickId, elem, animClass);
      }
      classes := classes[elem := ClassesIn(classes, elem) - {animClass}];
      if current.Idle? || current.id != clickId {
        return;
      }
      current := current.(animDone := true);
      var _ := CheckAnimatedClickCompleted();
    }

    /** `_onAnimatedClick` as written, with whether it throws. */
    method OnAnimatedClickAsWritten(now: int, elem: Elem, animClass: Option<string>, handler: Handler<R>, callback: Option<nat>)
      returns (threw: bool)
      modifies this
      ensures (State(), threw) == AnimatedClickAsWritten(old(State()), now, elem, animClass, handler, callback)
      ensures clickListeners == old(clickListeners)
      ensures old(Valid()) ==> Valid()
    {
      if Valid() {
        OnAnimatedClickInv(State(), now, elem, animClass, handler, callback);
      }
      if current.Active? && now < current.start + ELEMENT_ANIMATOR_CLICK_HANDLER_WAIT {
        return false;
      }
      BeginClick(now, elem, animClass, handler, callback);
      threw := CheckAnimatedClickCompleted();
    }

    /** `_onAnimatedClick` with the final check skipping an empty slot. */
    method OnAnimatedClick(now: int, elem: Elem, animClass: Option<string>, handler: Handler<R>, callback: Option<nat>)
      modifies this
      ensures State() == AnimatedClick(old(State()), now, elem, animClass, handler, callback)
      ensures clickListeners == old(clickListeners)
      ensures old(Valid()) ==> Valid()
    {
      if Valid() {
        OnAnimatedClickInv(State(), now, elem, animClass, handler, callback);
      }
      if current.Active? && now < current.start + ELEMENT_ANIMATOR_CLICK_HANDLER_WAIT {
        return;
      }
      BeginClick(now, elem, animClass, handler, callback);
      if current.Active? {
        var _ := CheckAnimatedClickCompleted();
      }
    }

    /** Lines 109 to 129 of `_onAnimatedClick`. */
    method BeginClick(now: int, elem: Elem, animClass: Option<string>, handler: Handler<R>, callback: Option<nat>)
      modifies this
      ensures State() == Begin(old(State()), now, elem, animClass, handler, callback)
      ensures clickListeners == old(clickListeners)
    {
      var clickId := FillClickSlot(now, elem, animClass, handler, callback);
      if handler.Immediate? {
        OnAnimatedClickHandlerCompleted(clickId, handler.result);
      }
    }

    /** Lines 109 to 127 of `_onAnimatedClick`. */
    method FillClickSlot(now: int, elem: Elem, animClass: Option<string>, handler: Handler<R>, callback: Option<nat>)
      returns (clickId: nat)
      modifies this
      ensures clickId == old(nextId)
      ensures State() == FillSlot(old(State()), now, elem, animClass, handler, callback)
      ensures clickListeners == old(clickListeners)
    {
      ghost var s0 := State();
      clickId := nextId;
      nextId := nextId + 1;
      current := Active(clickId, now, animClass.None?, handler.NoHandler?, None, callback);
      animEnd := animEnd - {elem};
      ghost var s2 := State();
      assert s2 == s0.(current := current, nextId := clickId + 1).(animEnd := s0.animEnd - {elem});
      if animClass.Some? && animClass.value != "" {
        animEnd := animEnd[elem := ClickEnd(clickId, animClass.value)];
        classes := classes[elem := ClassesIn(classes, elem) + {animClass.value}];
        assert State() == AddClass(s2.(animEnd := s2.animEnd[elem := ClickEnd(clickId, animClass.value)]), elem, animClass.value);
      }
    }

    /** An `animationend` event on an element. */
    method AnimationEndEvent(elem: Elem)
      modifies this
      ensures State() == AnimationEnd(old(State()), elem)
      ensures clickListeners == old(clickListeners)
      ensures old(Valid()) ==> Valid()
    {
      if Valid() {
        AnimationEndInv(State(), elem);
      }
      if elem !in animEnd {
        return;
      }
      match animEnd[elem]
      case ClickEnd(clickId, c) =>
        OnAnimatedClickAnimationCompleted(clickId, elem, c);
      case PlainEnd(c, onend) =>
        OnAnimationEnd(elem, c, onend);
    }

    /** `_onAnimationEnd`. */
    method OnAnimationEnd(elem: Elem, animClass: string, onend: Option<nat>)
      modifies this
      ensures State() == (var s1 := RemoveClass(old(State()), elem, animClass);
                          if onend.Some? then s1.(onends := s1.onends + [onend.value]) else s1)
      ensures clickListeners == old(clickListeners)
    {
      classes := classes[elem := ClassesIn(classes, elem) - {animClass}];
      if onend.Some? {
        onends := onends + [onend.value];
      }
    }

    /** `startAnimation`. */
    method StartAnimation(elem: Elem, animClass: string, onend: Option<nat>)
      modifies this
      ensures State() == AnimationStarted(old(State()), elem, animClass, onend)
      ensures clickListeners == old(clickListeners)
      ensures old(Valid()) ==> Valid()
    {
      if Valid() {
        StartAnimationInv(State(), elem, animClass, onend);
      }
      animEnd := animEnd[elem := PlainEnd(animClass, onend)];
      classes := classes[elem := ClassesIn(classes, elem) + {animClass}];
    }

    /** A click on an element: each of its click handlers runs
        `_onAnimatedClick` in turn, until one throws. */
    method Click(clickElem: Elem, now: int) returns (threw: bool)
      modifies this
      ensures (State(), threw) == DispatchClick(old(State()), ListenersOf(old(clickListeners), clickElem), now)
      ensures clickListeners == old(clickListeners)
      ensures old(Valid()) ==> Valid()
    {
      var bindings := ListenersOf(clickListeners, clickElem);
      ghost var valid := Valid();
      threw := false;
      var i := 0;
      while i < |bindings| && !threw
        invariant 0 <= i <= |bindings|
        invariant clickListeners == old(clickListeners)
        invariant valid ==> Valid()
        invariant !threw ==> DispatchClick(State(), bindings[i..], now) == DispatchClick(old(State()), bindings, now)
        invariant threw ==> (State(), true) == DispatchClick(old(State()), bindings, now)
        decreases |bindings| - i
      {
        var b := bindings[i];
        ghost var before := State();
        assert bindings[i..][0] == b && bindings[i..][1..] == bindings[i + 1..];
        threw := OnAnimatedClickAsWritten(now, b.animElem, b.animClass, b.handler, b.callback);
        i := i + 1;
      }
      if !threw {
        assert bindings[i..] == [];
      }
    }
  }
}
