/** The typewriter effect under the hero heading (`TypingAnimation.type`).

    The animation cycles through a fixed list of strings. Each call of `type`
    shows one more or one fewer character of the current string, flips between
    typing and deleting at the two ends of the string, moves on to the next
    string (cyclically) once a string is fully deleted, and schedules the next
    call after a delay. Here one call is the pure function `Step`, which
    returns the text to display, the next state and the delay instead of
    writing the DOM and calling `setTimeout`. Strings are JavaScript strings
    (`JsString.Text`), so "one character" is one UTF-16 code unit, as it is
    for `length` and `substring`. */
module Typewriter {

  import opened JsString

  /** Delays in milliseconds (`CONFIG.typingSpeed`, `CONFIG.deletingSpeed`,
      `CONFIG.delayBetweenTexts` and the literal used after a wrap-around). */
  const TypingDelay: nat := 100
  const DeletingDelay: nat := 50
  const FullTextPause: nat := 2000
  const NextTextPause: nat := 500

  /** `textIndex`, `charIndex` and `isDeleting` of the animation object. */
  datatype State = State(textIndex: int, charIndex: int, deleting: bool)

  /** What one call of `type` does: the element's new text, the new state and
      the delay before the next call. */
  datatype Tick = Tick(display: Text, next: State, delay: nat)

  /** The state the constructor sets up. */
  const Initial: State := State(0, 0, false)

  /** The strings the page passes to the constructor, as written in the
      page's source and as the JavaScript strings the animation handles. */
  const HeroStrings: seq<string> := [
    "Senior Software Developer",
    "Database Architect",
    "Full-Stack Engineer",
    "Cloud Solutions Expert",
    "Problem Solver"
  ]
  const HeroTexts: seq<Text> := seq(|HeroStrings|, i requires 0 <= i < |HeroStrings| => Utf16(HeroStrings[i]))

  /** Every string in the list has at least one character. */
  predicate NonEmptyTexts(texts: seq<Text>) {
    |texts| > 0 && forall i :: 0 <= i < |texts| ==> |texts[i]| > 0
  }

  /** The states `type` can be called in: the text index is in range, the
      character index lies within the current string, a typing state has
      not reached the end yet and a deleting state has not reached the start. */
  predicate Valid(texts: seq<Text>, s: State) {
    && 0 <= s.textIndex < |texts|
    && 0 <= s.charIndex <= |texts[s.textIndex]|
    && (s.deleting ==> s.charIndex >= 1)
    && (!s.deleting ==> s.charIndex < |texts[s.textIndex]|)
  }

  /** The text that state `s` stands for: the first `charIndex` characters of
      the current string. */
  function Shown(texts: seq<Text>, s: State): Text
    requires 0 <= s.textIndex < |texts|
    requires 0 <= s.charIndex <= |texts[s.textIndex]|
  {
    texts[s.textIndex][..s.charIndex]
  }

  /** One call of `type`. */
  function Step(texts: seq<Text>, s: State): (t: Tick)
    requires 0 <= s.textIndex < |texts|
    // valid states stay valid and the element shows exactly what the new state stands for
    ensures NonEmptyTexts(texts) && Valid(texts, s) ==>
              Valid(texts, t.next) && t.display == Shown(texts, t.next)
    // typing reaches the end of the string: pause, then delete
    ensures !s.deleting && s.charIndex + 1 == |texts[s.textIndex]| ==>
              t.next == State(s.textIndex, |texts[s.textIndex]|, true) && t.delay == FullTextPause
    // deleting reaches the start: pause, then type the next string
    ensures s.deleting && s.charIndex == 1 ==>
              t.next == State((s.textIndex + 1) % |texts|, 0, false) && t.delay == NextTextPause
    // otherwise one character more or less, same string and direction
    ensures !s.deleting && s.charIndex + 1 != |texts[s.textIndex]| ==>
              t.next == State(s.textIndex, s.charIndex + 1, false) && t.delay == TypingDelay
    ensures s.deleting && s.charIndex != 1 ==>
              t.next == State(s.textIndex, s.charIndex - 1, true) && t.delay == DeletingDelay
  {
    Tick(Display(texts, s), Next(texts, s), Delay(texts, s))
  }

  /** The text written to the element: one character more than `charIndex`
      when typing, one fewer when deleting. */
  function Display(texts: seq<Text>, s: State): Text
    requires 0 <= s.textIndex < |texts|
  {
    var current := texts[s.textIndex];
    if s.deleting then Substring(current, 0, s.charIndex - 1)
    else Substring(current, 0, s.charIndex + 1)
  }

  /** The state after the call: `charIndex` moves by one, the direction flips
      at either end, and a finished deletion moves to the next string. */
  function Next(texts: seq<Text>, s: State): (n: State)
    requires 0 <= s.textIndex < |texts|
    ensures NonEmptyTexts(texts) && Valid(texts, s) ==> Valid(texts, n)
  {
    var charIndex := if s.deleting then s.charIndex - 1 else s.charIndex + 1;
    if !s.deleting && charIndex == |texts[s.textIndex]| then
      State(s.textIndex, charIndex, true)
    else if s.deleting && charIndex == 0 then
      State((s.textIndex + 1) % |texts|, charIndex, false)
    else
      State(s.textIndex, charIndex, s.deleting)
  }

  /** The delay before the next call. */
  function Delay(texts: seq<Text>, s: State): nat
    requires 0 <= s.textIndex < |texts|
  {
    var charIndex := if s.deleting then s.charIndex - 1 else s.charIndex + 1;
    if !s.deleting && charIndex == |texts[s.textIndex]| then FullTextPause
    else if s.deleting && charIndex == 0 then NextTextPause
    else if s.deleting then DeletingDelay
    else TypingDelay
  }

  /** The state after `n` calls of `type`. */
  function Run(texts: seq<Text>, s: State, n: nat): (r: State)
    requires NonEmptyTexts(texts) && Valid(texts, s)
    ensures Valid(texts, r)
    decreases n
  {
    if n == 0 then s else Run(texts, Next(texts, s), n - 1)
  }

  /** Every state the animation ever reaches is valid, and every call shows
      the prefix its new state stands for. */
  lemma {:induction false} ReachableStatesValid(texts: seq<Text>, n: nat)
    requires NonEmptyTexts(texts)
    ensures Valid(texts, Run(texts, Initial, n))
    ensures Step(texts, Run(texts, Initial, n)).display == Shown(texts, Run(texts, Initial, n + 1))
  {
    RunSplit(texts, Initial, n, 1);
  }

  /** Running `a` calls then `b` calls is running `a + b` calls. */
  lemma {:induction false} RunSplit(texts: seq<Text>, s: State, a: nat, b: nat)
    requires NonEmptyTexts(texts) && Valid(texts, s)
    ensures Run(texts, Run(texts, s, a), b) == Run(texts, s, a + b)
    decreases a
  {
    if a > 0 {
      RunSplit(texts, Next(texts, s), a - 1, b);
    }
  }

  /** Typing a string from its start: after `k` calls the first `k`
      characters are shown, and the direction flips exactly when `k` reaches
      the string's length. */
  lemma {:induction false} TypingPhase(texts: seq<Text>, i: nat, k: nat)
    requires NonEmptyTexts(texts) && i < |texts|
    requires 1 <= k <= |texts[i]|
    ensures Run(texts, State(i, 0, false), k) == State(i, k, k == |texts[i]|)
  {
    if k > 1 {
      TypingPhase(texts, i, k - 1);
      RunSplit(texts, State(i, 0, false), k - 1, 1);
    }
  }

  /** Deleting a fully typed string: after `k` calls `|texts[i]| - k`
      characters remain, and when none remain the animation types the next
      string from its start. */
  lemma {:induction false} DeletingPhase(texts: seq<Text>, i: nat, k: nat)
    requires NonEmptyTexts(texts) && i < |texts|
    requires 1 <= k <= |texts[i]|
    ensures Run(texts, State(i, |texts[i]|, true), k) ==
              if k < |texts[i]| then State(i, |texts[i]| - k, true)
              else State((i + 1) % |texts|, 0, false)
  {
    if k > 1 {
      DeletingPhase(texts, i, k - 1);
      RunSplit(texts, State(i, |texts[i]|, true), k - 1, 1);
    }
  }

  /** One full cycle over a string takes twice its length in calls and ends
      at the start of the next string in the list, or of the first string
      after the last one. */
  lemma FullCycle(texts: seq<Text>, i: nat)
    requires NonEmptyTexts(texts) && i < |texts|
    ensures Run(texts, State(i, 0, false), 2 * |texts[i]|) ==
              State(if i + 1 < |texts| then i + 1 else 0, 0, false)
  {
    var len := |texts[i]|;
    Successor(i, |texts|);
    TypingPhase(texts, i, len);
    DeletingPhase(texts, i, len);
    RunSplit(texts, State(i, 0, false), len, len);
  }

  /** The index advance `(i + 1) % n` of the source, for an index in range. */
  lemma Successor(i: int, n: int)
    requires 0 <= i < n
    ensures (i + 1) % n == if i + 1 < n then i + 1 else 0
  {
  }

  /** Calls needed to type and delete the strings before index `j`. */
  function CycleLength(texts: seq<Text>, j: nat): nat
    requires j <= |texts|
  {
    if j == 0 then 0 else CycleLength(texts, j - 1) + 2 * |texts[j - 1]|
  }

  /** The animation visits every string in order and, after typing and
      deleting all of them, is back in its initial state. */
  lemma {:induction false} CyclicProgress(texts: seq<Text>, j: nat)
    requires NonEmptyTexts(texts) && j <= |texts|
    ensures Run(texts, Initial, CycleLength(texts, j)) == State(if j < |texts| then j else 0, 0, false)
  {
    if j > 0 {
      var before := CycleLength(texts, j - 1);
      var cycle := 2 * |texts[j - 1]|;
      var start := State(j - 1, 0, false);
      assert Run(texts, Initial, before) == start by {
        CyclicProgress(texts, j - 1);
      }
      assert Run(texts, start, cycle) == State(if j < |texts| then j else 0, 0, false) by {
        FullCycle(texts, j - 1);
      }
      assert Run(texts, Run(texts, Initial, before), cycle) == Run(texts, Initial, before + cycle) by {
        RunSplit(texts, Initial, before, cycle);
      }
    }
  }

  /** Each string is shown in full: the call that finishes typing string `j`
      displays the whole string and is followed by the long pause. */
  lemma ShowsEveryTextInFull(texts: seq<Text>, j: nat)
    requires NonEmptyTexts(texts) && j < |texts|
    ensures Step(texts, Run(texts, Initial, CycleLength(texts, j) + |texts[j]| - 1)).display == texts[j]
    ensures Step(texts, Run(texts, Initial, CycleLength(texts, j) + |texts[j]| - 1)).delay == FullTextPause
  {
    LastTypingState(texts, j);
    FinishTyping(texts, j);
  }

  /** Typing the last character of string `j` shows all of it. */
  lemma FinishTyping(texts: seq<Text>, j: nat)
    requires NonEmptyTexts(texts) && j < |texts|
    ensures Step(texts, State(j, |texts[j]| - 1, false)).display == texts[j]
    ensures Step(texts, State(j, |texts[j]| - 1, false)).delay == FullTextPause
  {
    assert Valid(texts, State(j, |texts[j]| - 1, false));
  }

  /** The state in which string `j` lacks only its last character. */
  lemma LastTypingState(texts: seq<Text>, j: nat)
    requires NonEmptyTexts(texts) && j < |texts|
    ensures Run(texts, Initial, CycleLength(texts, j) + |texts[j]| - 1) == State(j, |texts[j]| - 1, false)
  {
    var len := |texts[j]|;
    var start := CycleLength(texts, j);
    RunSplit(texts, Initial, start, len - 1);
    CyclicProgress(texts, j);
    TypeAllButLast(texts, j);
  }

  lemma TypeAllButLast(texts: seq<Text>, j: nat)
    requires NonEmptyTexts(texts) && j < |texts|
    ensures Run(texts, State(j, 0, false), |texts[j]| - 1) == State(j, |texts[j]| - 1, false)
  {
    if |texts[j]| > 1 {
      TypingPhase(texts, j, |texts[j]| - 1);
    }
  }

  /** Outside the non-empty assumption: on an empty string the animation
      never switches to deleting, so it stays on that string for ever while
      `charIndex` keeps growing past the string's length. */
  lemma EmptyTextNeverDeletes(texts: seq<Text>, s: State)
    requires 0 <= s.textIndex < |texts| && texts[s.textIndex] == []
    requires !s.deleting && s.charIndex >= 0
    ensures Step(texts, s) == Tick([], State(s.textIndex, s.charIndex + 1, false), TypingDelay)
  {
  }

  /** The page's own strings satisfy the assumption the cycle lemmas make. */
  lemma HeroTextsNonEmpty()
    ensures NonEmptyTexts(HeroTexts)
    ensures |HeroTexts| == 5
    ensures forall i :: 0 <= i < |HeroTexts| ==> |HeroTexts[i]| >= 14
  {
    forall i | 0 <= i < |HeroTexts|
      ensures |HeroTexts[i]| >= 14
    {
      assert |HeroTexts[i]| >= |HeroStrings[i]|;
    }
  }

  /** A string holding one character outside the Basic Multilingual Plane is
      typed in two calls, because `type` counts code units: the first call
      shows a lone high surrogate and only the second the whole character. */
  lemma LoneSurrogateMidTyping()
    ensures Utf16("\U{1F600}") == [0xD83D, 0xDE00]
    ensures Step([Utf16("\U{1F600}")], Initial).display == [0xD83D]
    ensures IsHighSurrogate(Step([Utf16("\U{1F600}")], Initial).display[0])
    ensures Step([Utf16("\U{1F600}")], State(0, 1, false)).display == Utf16("\U{1F600}")
  {
    assert Utf16("\U{1F600}") == Encode('\U{1F600}') + Utf16([]);
  }
}
