# Portfolio page decision logic, in Dafny

This project models the parts of the portfolio site's `script.js` that make
decisions, not the parts that only animate. Each part becomes a pure function
of explicit inputs. DOM writes, toasts and scheduled callbacks become returned
values. The parts are:

- the hero typewriter (`TypingAnimation.type`). It is a state machine over
  `(textIndex, charIndex, isDeleting)` that types and deletes a cycle of
  strings and picks the delay before the next call;
- the contact form (`ContactForm.validateForm` and the gate in
  `handleSubmit`). The form needs four non-empty fields and an address
  matching `/^[^\s@]+@[^\s@]+\.[^\s@]+$/`;
- the exclusive-selection rules behind the `active` class:
  - scroll-spy navigation links (`Navigation.updateActiveLink`);
  - theme buttons (`ThemeSwitcher.switchTheme`);
  - skill tabs and panels (`SkillsTabs.switchTab`);
  - project filter buttons and card visibility (`ProjectFilter`);
- the preloader's progress label and message (`Preloader.updateProgress`),
  driven by the simulated loading loop with the random increments passed in.

Modules, one file each:

- `Optional`: the `Option` type.
- `JsString`: JavaScript strings as sequences of UTF-16 code units, the
  conversion of Unicode text into them, and `substring`.
- `Selection`: the three ways the page picks active elements: every match
  (`forEach` plus a comparison), the first match (`querySelector`), or the
  clicked element. Also the counting lemmas about them.
- `Typewriter`, `EmailPattern`, `ContactForm`, `Navigation`,
  `ThemeSwitcher`, `SkillsTabs`, `ProjectFilter`, `Preloader`: one module per
  component.

Notes on how the model reads the code:

- JavaScript's `substring` clamps its arguments and swaps them when needed.
  The model does the same, so a typewriter step is defined for every
  `charIndex` and direction while `textIndex` is in range.
  The invariants assume that every string in the list is non-empty, as the
  page's five strings are.
- `length` and `substring` count UTF-16 code units, so the typewriter works
  on code-unit sequences. A character outside the Basic Multilingual Plane
  takes two calls to type, and the first of them shows a lone high
  surrogate. The page's own strings are plain ASCII, where code units and
  characters coincide.
- The email regular expression is modelled twice. `IsValidEmail` is an
  executable check that splits at the first `@`. `MatchesEmailPattern`
  describes the pattern's language as a cut of the string into three
  non-empty runs of `[^\s@]` characters, with `\s` being ECMAScript's
  whitespace set. `EmailPattern.ValidEmailMatchesPattern` proves that the two
  agree on every string.
- The theme table covers only `cyan`, `purple`, `green` and `orange`.
  `switchTheme` with any other name reads a colour of `undefined` and throws.
  By then `currentTheme` and the document's `data-theme` attribute are
  already updated, but the colours and buttons are not. The model returns
  `Threw` with exactly that state.
- `switchTab` uses `querySelector`, so only the first tab and the first panel
  with the target key become active. Theme buttons and navigation links use
  `forEach`, so every match becomes active.
- When no section covers the scroll position, the scroll spy compares
  `href`s with `"#"`. A link whose `href` is `"#"` then becomes active.
- The preloader's increments are below 15 and a message band is 20 wide. So
  the loop always passes through the last band before it reaches 100. At 100
  the band index is 5, which is past the end of the list, so the text is
  kept. A finished load therefore always shows "Welcome!".

## Model

| member | source | states |
|---|---|---|
| Typewriter.Step | script.js:466-489 | From a valid state with non-empty strings, the next state is valid. The element shows exactly the first `charIndex` characters of the new state's string. Reaching the full length while typing switches to deleting with a 2000 ms pause. Reaching 0 while deleting moves to the next string (index mod list length) in typing mode with a 500 ms pause. Any other call moves one character with 100 ms (typing) or 50 ms (deleting). |
| Typewriter.Next | script.js:470-485 | The state update keeps `textIndex` in range and `charIndex` within the current string. A typing state never sits at the end and a deleting state never sits at 0. |
| Typewriter.ReachableStatesValid | script.js:453-489 | Every state reached from the constructor's `(0, 0, false)` after any number of calls is valid. Each call displays the prefix its new state stands for. |
| Typewriter.TypingPhase | script.js:472-481 | From the start of string `i`, `k` calls type `k` characters. The direction flips exactly when `k` reaches the string's length. |
| Typewriter.DeletingPhase | script.js:469-485 | From a fully typed string, `k` calls remove `k` characters. Removing the last one moves to the next string, cyclically, in typing mode. |
| Typewriter.FullCycle | script.js:466-489 | Typing and deleting one string takes twice its length in calls. It ends at the start of the next string, or of the first string after the last. |
| Typewriter.CyclicProgress | script.js:479-485 | The animation visits the strings in list order. After typing and deleting all of them it is back in its initial state. |
| Typewriter.ShowsEveryTextInFull | script.js:473-481 | For every string, the call that types its last character displays the whole string and schedules the 2000 ms pause. |
| Typewriter.HeroTextsNonEmpty | script.js:1064-1070 | The page's five strings are all non-empty (at least 14 code units each), so the cycle lemmas apply to the page as built. |
| Typewriter.LoneSurrogateMidTyping | script.js:467-481 | A string holding only U+1F600 is two code units long. The first typing call shows the lone high surrogate 0xD83D, and the second shows the whole character. |
| JsString.Utf16 | script.js:467-473 | A JavaScript string has one code unit per character plus one more for every character outside the Basic Multilingual Plane. |
| JsString.AstralCount | script.js:467-473 | The number of extra code units a string needs is at most its length, and zero exactly when no character lies outside the Basic Multilingual Plane. |
| JsString.Encode | script.js:467-473 | A character of the Basic Multilingual Plane is one code unit equal to its code point. Any other character is a high surrogate followed by a low surrogate, from which the code point is recovered. |
| JsString.Utf16OfBmp | script.js:467-473 | A string without astral characters has exactly one code unit per character, equal to that character's code point. |
| Typewriter.EmptyTextNeverDeletes | script.js:472-481 | On an empty string the animation never switches to deleting. It stays on that string while `charIndex` grows without bound. |
| EmailPattern.ValidEmailMatchesPattern | script.js:904-905 | The executable check accepts a string exactly when the string is in the language of `/^[^\s@]+@[^\s@]+\.[^\s@]+$/`. |
| EmailPattern.IsValidEmail | script.js:904-905 | An accepted address contains no whitespace, contains exactly one `@`, and is at least five characters long. |
| EmailPattern.AcceptsSimpleAddress | script.js:904-905 | `a@b.com` matches the email pattern. |
| EmailPattern.RejectsWithoutAt | script.js:904-905 | A string without any `@` never matches. |
| EmailPattern.RejectsPlainWord | script.js:904-905 | `not-an-email` does not match. |
| EmailPattern.RejectsDotRightAfterAt | script.js:904-905 | A dot right after the `@` has no host character before it, so `a@.com` is rejected. |
| ContactForm.Validate | script.js:898-911 | Accepts exactly when all four fields are non-empty and the email matches the pattern. Any empty field gives the fill-in-all-fields error, and that check runs first. An empty email is therefore never reported as malformed. |
| ContactForm.HandleSubmit | script.js:875-896 | A rejected form produces exactly one error toast with its message and nothing else. An accepted form starts the simulated send exactly once, shows the success toast, resets the form, and ends by restoring the submit button. |
| ContactForm.SubmitExamples | script.js:898-911 | An empty name is rejected as missing. `not-an-email` is rejected as malformed. A complete form with `a@b.com` is accepted and sends once. |
| Navigation.LastCovering | script.js:429-438 | Returns the last section, in document order, whose band `[offsetTop-100, offsetTop-100+clientHeight)` contains the scroll position. Returns none exactly when no section covers it. |
| Navigation.CurrentSection | script.js:429-438 | The overwriting loop ends with the id of the last covering section, or `''` when there is none. |
| Navigation.UpdateActiveLink | script.js:428-446 | Links keep their order and `href`s. A link is active exactly when its `href` is `#` followed by the current section's id. |
| Navigation.UncoveredPositionSelectsBareHash | script.js:440-445 | With no covering section the current id is empty. Then exactly the links whose `href` is `"#"` are active. |
| Navigation.LaterSectionWins | script.js:431-438 | When two sections' bands overlap at the scroll position, the later one is chosen. |
| Navigation.AtMostOneActiveLink | script.js:440-445 | With distinct `href`s, one link is active if a link points at the current section, and none otherwise. |
| Selection.ActivateMatching | script.js:282-287 | Clearing `active` and re-adding it by comparison marks exactly the elements whose key equals the target. Order and keys are kept. |
| Selection.ActivateFirst | script.js:598-605 | Clearing `active` and adding it to the `querySelector` result marks exactly the first element carrying the target key. |
| Selection.ActivateAt | script.js:625-626 | Clearing `active` and adding it to the clicked element marks exactly that position. |
| Selection.ActivateMatchingIdempotent | script.js:282-287 | Applying the comparison rule twice with the same key gives the same elements as applying it once. |
| Selection.ActivateMatchingForgetsHistory | script.js:282-287 | The comparison rule's result does not depend on which elements were active before. |
| Selection.ActivateMatchingCount | script.js:282-287 | With distinct keys, the comparison rule leaves one element active if the key occurs, and none otherwise. |
| Selection.ActivateFirstCount | script.js:598-605 | The first-match rule leaves one element active if the key occurs, and none otherwise, even when keys repeat. |
| Selection.ActivateAtCount | script.js:625-626 | The clicked-element rule always leaves exactly one element active. |
| ThemeSwitcher.StartupTheme | script.js:261 | A stored non-empty theme is used. A missing or empty stored value falls back to `cyan`. |
| ThemeSwitcher.PaletteOf | script.js:296-303 | The colour table has entries for exactly `cyan`, `purple`, `green` and `orange`, and each entry has two different colours. |
| ThemeSwitcher.SwitchTheme | script.js:277-306 | The switch completes exactly for the four themes in the colour table. It then remembers and applies the theme with its two colours and marks exactly the buttons carrying it. Any other name throws after updating only `currentTheme` and the `data-theme` attribute. |
| ThemeSwitcher.SwitchThemeIdempotent | script.js:277-290 | Switching to the same theme twice gives the same outcome as switching once, whether the switch completes or throws. |
| ThemeSwitcher.SwitchThemeForgetsHistory | script.js:282-287 | A completed switch depends only on the buttons present, not on the previous theme or active flags. |
| ThemeSwitcher.SwitchThemeSingleActive | script.js:282-287 | With one button per theme, a completed switch leaves exactly one active button when one exists, and never two. |
| SkillsTabs.SwitchTab | script.js:597-606 | The active tab and panel are exactly the first tab and the first panel whose key equals the target. All others are inactive. |
| SkillsTabs.SwitchTabSingleActive | script.js:597-606 | After a switch, exactly one tab and one panel are active when one with the target exists, and none otherwise. |
| SkillsTabs.SwitchTabIdempotent | script.js:597-606 | Switching twice to the same tab gives the same state as switching once. |
| ProjectFilter.FilterProjects | script.js:631-649 | A card is visible exactly when the filter is `all` or equals its category. Cards keep their order and categories. |
| ProjectFilter.ClickFilter | script.js:619-628 | A click makes the clicked button the only active one, keeping every button's value. The cards keep their number and categories. A card is visible exactly when the clicked value is `all` or equals the card's category. |
| ProjectFilter.VisibleCount | script.js:631-649 | `all` shows every card. Any other filter shows as many cards as there are cards of that category. |
| ProjectFilter.FilterIdempotent | script.js:631-649 | Filtering twice by the same value gives the same cards as filtering once. |
| ProjectFilter.FilterForgetsHistory | script.js:632-635 | A card's visibility after filtering depends only on its category, not on what was visible before. |
| ProjectFilter.ClickLeavesOneActiveButton | script.js:625-626 | After any click exactly one filter button is active. |
| Preloader.LoadingText | script.js:47-50 | Progress in band `[20k, 20(k+1))` for `k` in 0..4 shows message `k`. Progress of 100 or more, or below 0, leaves the text unchanged. |
| Preloader.UpdateProgress | script.js:38-51 | The bar width is the progress. The label is the progress rounded down. The text is the message of the progress's band, or the old text outside the five bands. |
| Preloader.Tick | script.js:55-63 | A tick adds the increment. The tick that reaches 100 or more clears the timer and sets progress to exactly 100. Every tick displays the capped progress. |
| Preloader.Simulate | script.js:53-63 | Once the timer is cleared no further tick changes anything. A load still running has added up every increment it was given. |
| Preloader.TickConsistent | script.js:53-63 | A tick with an increment in `[0, 15)` never lowers progress and keeps it within `[0, 100]`. At 80 or more the last message is shown. A finished load stands at 100 with label 100. |
| Preloader.SimulateConsistent | script.js:53-63 | Any run of such ticks keeps the loader consistent and never lowers progress. |
| Preloader.FinishedLoadSaysWelcome | script.js:53-63 | Whatever the random increments, a finished load shows "Welcome!" and a label of 100. |
| Preloader.NoMessageSkipped | script.js:47-56 | An increment smaller than a band moves the message index forward by zero or one, never backwards. So no message is skipped. |
| Preloader.CompleteKeepsText | script.js:47-50 | At progress 100 the message index is 5, past the end of the list, and the text is kept. |
| Preloader.WholeProgressIndex | script.js:47 | For whole-number progress the message index is integer division by 20. |

## Left out

- The particle field (script.js:148-254). It uses floating-point motion and
  canvas drawing, and runs an endless frame loop.
- The stats counter (script.js:495-535), the skill-bar animation
  (script.js:540-565 and 583-592) and the scroll progress bar
  (script.js:312-328). These are float ratios and timed DOM writes.
- The custom cursor, the toast renderer, the project modal, smooth
  scrolling, the simulated CV download, the scroll-to-top button, lazy
  image loading, performance
  logging, the console message and service-worker registration. These are
  DOM and browser-API plumbing.
- Every `setTimeout`, `setInterval` and observer. Delays are returned as
  numbers. The typewriter's first call 1000 ms after construction is not
  modelled.
- Typewriter.Step: the display is the string written to `textContent`. The
  write itself is not modelled.
- ContactForm.HandleSubmit: the spinner markup and the saved button HTML are
  not modelled. The send is a fixed list of effects, not a timer. A missing
  form field is treated like an empty one, because both are falsy. A form
  without a submit button throws at script.js:883-886 before the send
  starts. The model always assumes the button exists.
- Navigation.UpdateActiveLink: `scrollY`, `offsetTop` and `clientHeight` are
  whole numbers here, though browsers may report a fractional `scrollY`. A
  section without an `id` (which the page would compare as `#null`) is not
  modelled. The navbar's `scrolled` class and the mobile menu are left out.
  Without a `#navbar` element the scroll handler throws at script.js:381 or
  383, before it calls `updateActiveLink` at line 386. The scroll spy then
  never runs. The model always assumes the navbar exists.
- ThemeSwitcher.SwitchTheme: the "Theme changed" toast and the
  `localStorage` write are left out. They happen only when the switch
  completes. A name that plain objects inherit, such as `toString` or
  `constructor`, counts as unknown here. In the source such a lookup finds a
  value with no colours and does not throw.
- ThemeSwitcher.StartupTheme: only the choice of theme is modelled. The
  constructor's `applyTheme` call, which throws for an unknown stored name,
  is not.
- Missing DOM elements are not modelled. Most components check for their
  elements and do nothing when they are absent, but not all do. Two such
  cases are listed under Navigation.UpdateActiveLink and
  ContactForm.HandleSubmit.
- ProjectFilter.FilterProjects: only the settled visibility is modelled. The
  opacity and scale styles and the 10 ms and 300 ms timers are not. A hide
  still pending from an earlier click is therefore not modelled.
- SkillsTabs.SwitchTab: the target is compared as a plain string. CSS
  selector quoting in `querySelector` is not modelled.
- Preloader.UpdateProgress: progress is an exact real, not a binary64 float,
  so floating-point rounding in `progress / 20` and in the accumulated sum is
  not modelled. The bar width is the number, not the `'%'` string. Hiding the
  preloader after loading is left out.
