/**
 * The runtime navigation state of the delivered page: the list of visited
 * slide indices (`visitedSlides`), the slide on screen and the deck size.
 * `updateProgress` records visits, `lockSections` unlocks a sidebar link
 * when the slide before it has been visited, and the keydown handler refuses
 * to move forward from a slide that has not been recorded as visited.
 */
module Navigation {
  import opened Wrappers

  datatype NavState = NavState(visited: seq<nat>, current: nat, total: nat)

  /** A Reveal.js `slidechanged` / `ready` event: the horizontal index shown, and the one read from
      `event.previousIndexh` when the event carries that property. */
  datatype SlideEvent = SlideEvent(previous: Option<nat>, index: nat)

  predicate NoDuplicates(xs: seq<nat>) {
    forall i, j :: 0 <= i < j < |xs| ==> xs[i] != xs[j]
  }

  /** `ys` is `xs` with zero or more elements appended. */
  predicate Extends(ys: seq<nat>, xs: seq<nat>) {
    |xs| <= |ys| && ys[..|xs|] == xs
  }

  /** `if (!list.includes(x)) list.push(x)`. */
  function Include(xs: seq<nat>, x: nat): (r: seq<nat>)
    ensures Extends(r, xs) && |r| <= |xs| + 1
    ensures forall y :: y in r <==> y in xs || y == x
    ensures |r| == |xs| <==> x in xs
    ensures NoDuplicates(xs) ==> NoDuplicates(r)
    ensures forall i :: |xs| <= i < |r| ==> r[i] == x && x !in xs
  {
    if x in xs then xs else xs + [x]
  }

  /** The visited list after `updateProgress` handles `ev`: the previous index first, then the current one. */
  function Visit(visited: seq<nat>, ev: SlideEvent): (r: seq<nat>)
    ensures Extends(r, visited) && |r| <= |visited| + 2
    ensures ev.index in r
    ensures ev.previous.Some? ==> ev.previous.value in r
    ensures forall y :: y in r <==> y in visited || y == ev.index || ev.previous == Some(y)
    ensures NoDuplicates(visited) ==> NoDuplicates(r)
    ensures forall i, j :: |visited| <= i < j < |r| ==> r[i] != r[j]
    ensures forall i :: |visited| <= i < |r| ==> r[i] !in visited
    ensures ev.previous.Some? && ev.previous.value !in visited ==> r[|visited|] == ev.previous.value
  {
    var afterPrevious := match ev.previous
      case Some(p) => Include(visited, p)
      case None => visited;
    Include(afterPrevious, ev.index)
  }

  /** A change between two slides not yet visited appends the previous slide, then the current one. */
  lemma VisitOrder(visited: seq<nat>, p: nat, c: nat)
    requires p != c && p !in visited && c !in visited
    ensures Visit(visited, SlideEvent(Some(p), c)) == visited + [p, c]
  {
  }

  /** Duplicates already in the list stay as they are, and the new slide is appended once. */
  lemma VisitAppendsOnce()
    ensures Visit([1, 1], SlideEvent(None, 2)) == [1, 1, 2]
  {
  }

  /** The navigation state after a slide change. */
  function Step(s: NavState, ev: SlideEvent): (r: NavState)
    ensures Extends(r.visited, s.visited) && r.current == ev.index && r.total == s.total
  {
    NavState(Visit(s.visited, ev), ev.index, s.total)
  }

  /** The unlock test of `lockSections` for the sidebar link to slide `i`. */
  predicate Unlocked(visited: seq<nat>, i: nat) {
    (i >= 1 && (i - 1) in visited) || i == 0
  }

  /** The lock state `lockSections` gives each sidebar link, in link order (`true` = unlocked). */
  function LockStates(visited: seq<nat>, links: seq<nat>): (r: seq<bool>)
    ensures |r| == |links|
    ensures forall k :: 0 <= k < |links| ==> (r[k] <==> links[k] == 0 || (links[k] >= 1 && links[k] - 1 in visited))
  {
    seq(|links|, k requires 0 <= k < |links| => Unlocked(visited, links[k]))
  }

  /** Before anything is visited only the first link is unlocked. */
  lemma InitiallyOnlyFirst(i: nat)
    ensures Unlocked([], i) <==> i == 0
  {
  }

  /** A link, once unlocked, stays unlocked while the visited list only grows. */
  lemma UnlockedMonotone(visited: seq<nat>, more: seq<nat>, i: nat)
    requires forall y :: y in visited ==> y in more
    requires Unlocked(visited, i)
    ensures Unlocked(more, i)
  {
  }

  /** A slide change unlocks the slide after the one shown and keeps every unlocked link unlocked. */
  lemma StepUnlocks(s: NavState, ev: SlideEvent, i: nat)
    ensures Unlocked(Step(s, ev).visited, ev.index + 1)
    ensures Unlocked(s.visited, i) ==> Unlocked(Step(s, ev).visited, i)
  {
  }

  predicate IsForwardKey(key: string) {
    key == "ArrowRight" || key == "PageDown"
  }

  /** Whether the keydown handler calls `preventDefault` for `key` while slide `h` is shown. */
  function KeyPrevented(visited: seq<nat>, h: nat, key: string): (r: bool)
    ensures r <==> IsForwardKey(key) && h !in visited
  {
    var nextIndex := h + 1;
    IsForwardKey(key) && !((nextIndex - 1) in visited) && nextIndex != 0
  }

  /** A forward key that is let through lands on an unlocked slide. */
  lemma ForwardKeyReachesUnlocked(visited: seq<nat>, h: nat, key: string)
    requires IsForwardKey(key) && !KeyPrevented(visited, h, key)
    ensures Unlocked(visited, h + 1)
  {
  }

  /** Every visited slide other than the first has its predecessor visited too. */
  predicate Sequential(visited: seq<nat>) {
    forall v :: v in visited ==> Unlocked(visited, v)
  }

  /** Moving only to unlocked slides (and, when present, from one) keeps the visited list sequential. */
  lemma StepKeepsSequential(visited: seq<nat>, ev: SlideEvent)
    requires Sequential(visited)
    requires Unlocked(visited, ev.index)
    requires ev.previous.Some? ==> Unlocked(visited, ev.previous.value)
    ensures Sequential(Visit(visited, ev))
  {
    var r := Visit(visited, ev);
    forall v | v in r
      ensures Unlocked(r, v)
    {
      assert v in visited || v == ev.index || ev.previous == Some(v);
      UnlockedMonotone(visited, r, v);
    }
  }

  /** A duplicate-free list of indices below `bound` has at most `bound` elements. */
  lemma {:induction false} BoundedDistinct(xs: seq<nat>, bound: nat)
    requires NoDuplicates(xs)
    requires forall x :: x in xs ==> x < bound
    ensures |xs| <= bound
    decreases bound
  {
    if xs != [] {
      assert xs[0] in xs;
      var top := bound - 1;
      var rest := RemoveValue(xs, top);
      assert NoDuplicates(rest) && |rest| >= |xs| - 1;
      assert forall x :: x in rest ==> x < top;
      BoundedDistinct(rest, top);
      assert |rest| <= top;
    }
  }

  /** `xs` without the element `x`; a duplicate-free list loses exactly one element when it holds `x`. */
  function RemoveValue(xs: seq<nat>, x: nat): (r: seq<nat>)
    ensures forall y :: y in r <==> y in xs && y != x
    ensures NoDuplicates(xs) ==> NoDuplicates(r) && |r| == (if x in xs then |xs| - 1 else |xs|)
  {
    if xs == [] then []
    else
      var rest := RemoveValue(xs[1..], x);
      assert forall y :: y in xs[1..] ==> y in xs;
      assert xs == [xs[0]] + xs[1..];
      assert NoDuplicates(xs) ==> NoDuplicates(xs[1..]);
      if xs[0] == x then rest
      else
        assert NoDuplicates(xs) ==> xs[0] !in rest;
        [xs[0]] + rest
  }
}
