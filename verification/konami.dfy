/**
 The Konami-code recogniser of components/KonamiEasterEgg.tsx, as a state
 machine over key events. The closure variable `currentIndex` and the React
 state `progress`, `activated` and `showHint` make up the state. The key handler
 advances on a match and drops back to the start on any mismatch. It never falls
 back to a shorter partial match, so a key sequence that contains the code can
 still fail to activate it.
 */
module Konami {
  import opened Text

  const KonamiCode: seq<string> := [
    "ArrowUp", "ArrowUp",
    "ArrowDown", "ArrowDown",
    "ArrowLeft", "ArrowRight",
    "ArrowLeft", "ArrowRight",
    "b", "a"
  ]

  const CodeLength: nat := 10

  /** A position in the code: the handler indexes `KONAMI_CODE[currentIndex]`. */
  type CodeIndex = i: nat | i < CodeLength

  datatype State = State(index: CodeIndex, progress: nat, activated: bool, showHint: bool)

  datatype Event =
    | KeyDown(key: string)   // `keydown` with `e.key`
    | Close                  // the "Cerrar" button
    | HintTimeout            // the 30-second hint timer fires

  const Initial: State := State(0, 0, false, false)

  /** The key matches the expected one once both are lower-cased. */
  predicate Matches(key: string, i: CodeIndex) {
    ToLower(key) == ToLower(KonamiCode[i])
  }

  /** One event. Closing the modal re-runs the effect, which starts the index
      from zero in a fresh handler. */
  function Step(s: State, e: Event): (s': State)
    ensures e.KeyDown? && Matches(e.key, s.index) && s.index + 1 < CodeLength ==>
      s' == s.(index := s.index + 1, progress := s.index + 1)
    ensures e.KeyDown? && Matches(e.key, s.index) && s.index + 1 == CodeLength ==>
      s' == State(0, CodeLength, true, false)
    ensures e.KeyDown? && !Matches(e.key, s.index) ==>
      s' == s.(index := 0, progress := 0)
    ensures e.Close? ==>
      && !s'.activated && s'.progress == s.progress && s'.showHint == s.showHint
      && s'.index == (if s.activated then 0 else s.index)
    ensures e.HintTimeout? ==>
      s'.showHint == (s.showHint || !s.activated) && s'.index == s.index &&
      s'.progress == s.progress && s'.activated == s.activated
    ensures s'.activated && !s.activated ==> e.KeyDown? && s.index == CodeLength - 1 && s'.index == 0
    ensures s.progress <= CodeLength ==> s'.progress <= CodeLength
  {
    match e
    case KeyDown(key) =>
      if Matches(key, s.index) then
        var next := s.index + 1;
        if next == CodeLength then State(0, next, true, false)
        else s.(index := next, progress := next)
      else
        s.(index := 0, progress := 0)
    case Close =>
      if s.activated then s.(activated := false, index := 0) else s
    case HintTimeout =>
      if s.activated then s else s.(showHint := true)
  }

  /** The index never runs ahead of the progress shown, and the progress
      never passes the code's length. (They can differ: closing the modal
      restarts the index but leaves the dots as they were.) */
  predicate Sane(s: State) {
    s.index <= s.progress <= CodeLength
  }

  lemma StepSane(s: State, e: Event)
    requires Sane(s)
    ensures Sane(Step(s, e))
  {
  }

  /** Closing the modal after a partial second attempt leaves progress and
      index apart. */
  lemma CloseSplitsProgress()
    ensures Step(State(3, 3, true, false), Close) == State(0, 3, false, false)
  {
  }

  function Run(s: State, keys: seq<string>): State
    decreases |keys|
  {
    if keys == [] then s else Run(Step(s, KeyDown(keys[0])), keys[1..])
  }

  lemma {:induction false} RunAppend(s: State, a: seq<string>, b: seq<string>)
    ensures Run(s, a + b) == Run(Run(s, a), b)
    decreases |a|
  {
    if a == [] {
      assert a + b == b;
    } else {
      assert (a + b)[1..] == a[1..] + b;
      RunAppend(Step(s, KeyDown(a[0])), a[1..], b);
    }
  }

  /** Typing the first `k` keys of the code from the start leaves the index and
      the progress at `k`. */
  lemma {:induction false} CodePrefix(s: State, k: nat)
    requires s.index == 0 && k < CodeLength
    ensures Run(s, KonamiCode[..k]) == if k == 0 then s else s.(index := k, progress := k)
  {
    if k > 0 {
      CodePrefix(s, k - 1);
      assert KonamiCode[..k] == KonamiCode[..k - 1] + [KonamiCode[k - 1]];
      RunAppend(s, KonamiCode[..k - 1], [KonamiCode[k - 1]]);
    }
  }

  /** The whole code typed from the start always activates, whatever came
      before, and leaves the recogniser ready for another round. */
  lemma CodeActivates(s: State)
    requires s.index == 0
    ensures Run(s, KonamiCode) == State(0, CodeLength, true, false)
  {
    CodePrefix(s, CodeLength - 1);
    assert KonamiCode == KonamiCode[..CodeLength - 1] + [KonamiCode[CodeLength - 1]];
    RunAppend(s, KonamiCode[..CodeLength - 1], [KonamiCode[CodeLength - 1]]);
  }

  /** Keys are compared without regard to case: Shift+B counts as `b`. */
  lemma UpperCaseKeyMatches()
    ensures Matches("B", 8)
  {
    assert ToLower("B") == ToLower(KonamiCode[8]);
  }

  /** A wrong key sends the index to zero even when it is the code's first
      key: a third ArrowUp after two does not count as a fresh start. */
  lemma MismatchRestarts()
    ensures Step(State(2, 2, false, false), KeyDown("ArrowUp")) == State(0, 0, false, false)
  {
    assert |ToLower("ArrowUp")| != |ToLower(KonamiCode[2])|;
  }

  /** Up, up, up, down, down, left, right, left, right, b, a contains the code
      but does not activate it. */
  lemma OverlapIsMissed()
    ensures !Run(Initial, ["ArrowUp"] + KonamiCode).activated
  {
    var ups := ["ArrowUp", "ArrowUp"];
    var s2 := State(2, 2, false, false);
    assert Run(Initial, ups) == s2 by {
      CodePrefix(Initial, 2);
      assert KonamiCode[..2] == ups;
    }
    assert Run(s2, ["ArrowUp"]) == Initial by {
      MismatchRestarts();
    }
    RunAppend(Initial, ups, ["ArrowUp"]);
    CodeAfterTwoUps();
    assert ["ArrowUp"] + KonamiCode == (ups + ["ArrowUp"]) + AfterTwoUps;
    RunAppend(Initial, ups + ["ArrowUp"], AfterTwoUps);
    AfterTwoUpsIdle();
  }

  /** The code past its two opening ArrowUps. */
  const AfterTwoUps: seq<string> :=
    ["ArrowDown", "ArrowDown", "ArrowLeft", "ArrowRight", "ArrowLeft", "ArrowRight", "b", "a"]

  lemma CodeAfterTwoUps()
    ensures KonamiCode == ["ArrowUp", "ArrowUp"] + AfterTwoUps
  {
  }

  /** None of those keys is ArrowUp, so from the start they go nowhere. */
  lemma AfterTwoUpsIdle()
    ensures Run(Initial, AfterTwoUps) == Initial
  {
    NoneMatchFirst(AfterTwoUps);
  }

  /** From the start, keys none of which is the first code key never leave
      the start. */
  lemma {:induction false} NoneMatchFirst(keys: seq<string>)
    requires forall i :: 0 <= i < |keys| ==> |keys[i]| != |KonamiCode[0]|
    ensures Run(Initial, keys) == Initial
  {
    if keys != [] {
      assert |ToLower(keys[0])| != |ToLower(KonamiCode[0])|;
      NoneMatchFirst(keys[1..]);
    }
  }

  /** Among the first `k` dots, how many satisfy `i < progress`. */
  function DotsFilled(k: nat, progress: nat): (n: nat)
    ensures n == if progress < k then progress else k
  {
    if k == 0 then 0 else DotsFilled(k - 1, progress) + (if k - 1 < progress then 1 else 0)
  }

  /** The hint draws one dot per code key, filled while `i < progress`: one
      filled dot per matched key, never more than the code has keys. */
  function FilledDots(s: State): (n: nat)
    ensures Sane(s) ==> n == s.progress
    ensures n <= CodeLength
  {
    DotsFilled(CodeLength, s.progress)
  }
}
