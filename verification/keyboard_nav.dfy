/**
 The arrow-key focus movement of hooks/useKeyboardNav.ts. `current` is
 `findIndex` of the focused link among the `n` `.link-button` elements: -1 when
 none of them has focus. Focusing `links[nextIndex]` does nothing when that
 index is out of range (`?.focus()` on `undefined`).
 */
module KeyboardNav {

  const NavKeys: seq<string> := ["ArrowDown", "ArrowUp", "Home", "End"]

  /** What the handler does to the page. */
  datatype Action = NoAction | Focus(index: nat) | Blur

  /** A `findIndex` result over `n` links. */
  predicate ValidCurrent(current: int, n: nat) {
    -1 <= current < n
  }

  /** The `switch (e.key)` for a navigation key. */
  function NextIndex(key: string, current: int, n: nat): int {
    if key == "ArrowDown" then (if current < n - 1 then current + 1 else 0)
    else if key == "ArrowUp" then (if current > 0 then current - 1 else n - 1)
    else if key == "Home" then 0
    else if key == "End" then n - 1
    else current
  }

  /** What the handler does to the event and to the page: whether it calls
      `e.preventDefault()`, and which focus change follows. */
  datatype Effect = Effect(prevented: bool, action: Action)

  /** The keydown handler. A navigation key always suppresses the browser's
      default scrolling, even when there is no link to move to. */
  function HandleKey(key: string, current: int, n: nat): (e: Effect)
    requires ValidCurrent(current, n)
    ensures e.prevented <==> key in NavKeys
    ensures key in NavKeys && n > 0 ==> e.action.Focus? && e.action.index < n
    ensures key in NavKeys && n == 0 ==> e.action == NoAction
    ensures key == "Escape" ==> e.action == Blur
    ensures key !in NavKeys && key != "Escape" ==> e.action == NoAction
    ensures e.action.Focus? ==> e.action.index < n
  {
    if key in NavKeys then
      var next := NextIndex(key, current, n);
      Effect(true, if 0 <= next < n then Focus(next) else NoAction)
    else if key == "Escape" then Effect(false, Blur)
    else Effect(false, NoAction)
  }

  /** ArrowDown moves to the following link, cyclically; from nowhere it goes
      to the first. */
  lemma ArrowDownIsSuccessor(current: int, n: nat)
    requires n > 0 && ValidCurrent(current, n)
    ensures HandleKey("ArrowDown", current, n).action == Focus((current + 1) % n)
    ensures current == -1 || current == n - 1 ==> HandleKey("ArrowDown", current, n).action == Focus(0)
  {
    if current < n - 1 {
      SmallMod(current + 1, n, current + 1);
    } else {
      SmallMod(current + 1, n, 0);
    }
  }

  /** ArrowUp moves to the preceding link, cyclically; from nowhere it goes to
      the last. */
  lemma ArrowUpIsPredecessor(current: int, n: nat)
    requires n > 0 && ValidCurrent(current, n)
    ensures current >= 0 ==> HandleKey("ArrowUp", current, n).action == Focus((current - 1 + n) % n)
    ensures current == -1 || current == 0 ==> HandleKey("ArrowUp", current, n).action == Focus(n - 1)
  {
    if current > 0 {
      SmallMod(current - 1 + n, n, current - 1);
    } else if current == 0 {
      SmallMod(n - 1, n, n - 1);
    }
  }

  /** A value below the modulus, shifted by at most one period, reduces to `r`. */
  lemma SmallMod(x: int, n: nat, r: int)
    requires n > 0 && 0 <= r < n && (x == r || x == r + n)
    ensures x % n == r
  {
  }

  lemma HomeAndEnd(current: int, n: nat)
    requires n > 0 && ValidCurrent(current, n)
    ensures HandleKey("Home", current, n).action == Focus(0)
    ensures HandleKey("End", current, n).action == Focus(n - 1)
  {
  }

  /** From a focused link, ArrowDown then ArrowUp comes back, and so does
      ArrowUp then ArrowDown. */
  lemma DownUpRoundTrip(current: nat, n: nat)
    requires current < n
    ensures var a := HandleKey("ArrowDown", current, n).action;
      a.Focus? && HandleKey("ArrowUp", a.index, n).action == Focus(current)
    ensures var a := HandleKey("ArrowUp", current, n).action;
      a.Focus? && HandleKey("ArrowDown", a.index, n).action == Focus(current)
  {
  }

  /** Pressing ArrowDown `k` times from link `current`. */
  function PressDown(current: nat, n: nat, k: nat): (i: nat)
    requires current < n
    ensures i < n
  {
    if k == 0 then current else HandleKey("ArrowDown", PressDown(current, n, k - 1), n).action.index
  }

  lemma {:induction false} PressDownAdd(current: nat, n: nat, a: nat, b: nat)
    requires current < n
    ensures PressDown(current, n, a + b) == PressDown(PressDown(current, n, a), n, b)
  {
    if b > 0 {
      PressDownAdd(current, n, a, b - 1);
    }
  }

  /** Below the last link, each press moves one link down. */
  lemma {:induction false} PressDownClimb(current: nat, n: nat, k: nat)
    requires current + k < n
    ensures PressDown(current, n, k) == current + k
  {
    if k > 0 {
      PressDownClimb(current, n, k - 1);
    }
  }

  /** `n` presses of ArrowDown visit every link and come back to the start. */
  lemma PressDownCycles(current: nat, n: nat)
    requires current < n
    ensures PressDown(current, n, n) == current
  {
    var up := n - 1 - current;
    PressDownClimb(current, n, up);
    PressDownAdd(current, n, up, current + 1);
    assert PressDown(current, n, n) == PressDown(n - 1, n, current + 1);
    assert PressDown(n - 1, n, 1) == 0 by {
      assert PressDown(n - 1, n, 0) == n - 1;
    }
    PressDownAdd(n - 1, n, 1, current);
    assert PressDown(n - 1, n, current + 1) == PressDown(0, n, current);
    PressDownClimb(0, n, current);
  }
}
