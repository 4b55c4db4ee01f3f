# Portfolio page interactions, modelled in Dafny

This is a model of the logic in the portfolio site's `script.js`, without the
DOM wiring. It covers three parts.

- **Typing effect** (`typing_effect.dfy`, module `TypingEffect`). A cursor
  (word index, character index, deleting flag) moves over a fixed list of words.
  Each timer tick types or deletes one character and shows a prefix of the
  current word. It also picks the delay before the next tick: 100, 50, 2000 or
  500. `Step` describes one tick as a value. The class `Typewriter` holds the
  closure's three variables as fields, and its `Tick` is proved equal to `Step`.
  Lemmas prove that the indices stay in bounds, that each tick shows a prefix,
  how the phases change, that one word takes exactly twice its length in ticks, and that a
  full pass over the list comes back to the start with the words in their
  original order.
- **Scroll highlighting** (`navigation.dfy`, module `Navigation`). Sections are
  `(id, offsetTop)` pairs in document order. Links are given by their `href`.
  `CurrentSection` is the loop that picks `current`. It is proved to return the
  id of the last section with `scrollY >= offsetTop - 200`, or `""` when there
  is none. `Controller.Scroll` clears every link flag, marks the links whose
  `href.slice(1)` equals that id, and sets the navbar background.
- **Menu toggling** (`Controller.BurgerClick`, `Controller.LinkClick`). The
  burger toggles both `active` classes, and a link click clears both. Both
  handlers keep the two flags equal.

`scrollY` and `offsetTop` are integers. Timers, event registration and the
document itself are not modelled: each handler call is one method call.

## Model

| member | source | states |
|---|---|---|
| TypingEffect.PortfolioWordsValid | script.js:86 | The page's word list is non-empty and contains no empty word. |
| TypingEffect.Substring | script.js:95-98 | `substring(0, end)` clamps `end` into `[0, length of s]` and returns a prefix of `s` of that length. |
| TypingEffect.Step | script.js:91-111 | One call of `type()`. Its own contract says only that the word index stays a valid index (the wrap is `% words.length`). What the tick shows and how it changes phase is stated by StepShowsPrefix and StepPhases. |
| TypingEffect.StepPreservesWellFormed | script.js:91-111 | With non-empty words, a tick keeps `wordIndex` below the number of words and `charIndex` between 0 and the word's length. A typing cursor always has a character left to type, and a deleting cursor one left to delete. |
| TypingEffect.StepShowsPrefix | script.js:94-100 | The text shown is the first `charIndex` characters (the new `charIndex`) of the word just processed. It is empty exactly on the tick that ends a deletion, which is the tick with the 500 delay. |
| TypingEffect.StepPhases | script.js:102-111 | Delay 2000 happens iff a typing tick completes the word, and that tick switches to deleting at full length. Delay 500 happens iff a deleting tick reaches 0, and that tick switches to typing at `(wordIndex+1) % words.length`, index 0. Delay 100 is a typing tick and 50 is a deleting tick, and neither changes phase. The phase changes exactly on the 2000 and 500 ticks. |
| TypingEffect.RunPreservesWellFormed | script.js:91-111 | Every state reached by any number of ticks from a well-formed state is well-formed, so the index bounds hold forever. |
| TypingEffect.RunAdditive | script.js:113 | `k1 + k2` ticks reach the same state and show the same frames as `k1` ticks followed by `k2` ticks. |
| TypingEffect.TypingPhase | script.js:97-105 | From `j` typed characters, `w.length - j` ticks reach `(i, w.length, deleting)`. The t-th of these ticks shows `w[..j+t+1]` with delay 100, except the last, which waits 2000. |
| TypingEffect.DeletingPhase | script.js:94-110 | From `j` shown characters, `j` deleting ticks reach `((i+1) mod n, 0, typing)`. The t-th of these ticks shows `w[..j-1-t]` with delay 50, except the last, which waits 500. |
| TypingEffect.WordCycle | script.js:91-111 | From `(i, 0, typing)`, exactly `2·words[i].length` ticks reach `((i+1) mod n, 0, typing)`, and those ticks show the word typed out and deleted again. |
| TypingEffect.PassFrom | script.js:109 | Cycling from word `i` to the end of the list wraps round to `(0, 0, typing)`, showing each word's frames in list order. |
| TypingEffect.FullPass | script.js:87-111 | From the initial state, twice the total word length in ticks return to `(0, 0, typing)`. The frames shown are the words' cycles concatenated in list order. |
| TypingEffect.TwoWordCycle | script.js:91-111 | For `["a","bb"]`, six ticks show `a/2000, ""/500, b/100, bb/2000, b/50, ""/500` and return to the initial state. |
| TypingEffect.PortfolioCycle | script.js:86-111 | For the page's own five words, 76 ticks return to the initial state. |
| TypingEffect.Typewriter.constructor | script.js:86-89 | The object starts at word 0, character 0, typing, with the given valid word list. |
| TypingEffect.Typewriter.Tick | script.js:91-111 | One tick updates the fields and returns the text and delay exactly as `Step` says. It keeps the object valid, and the text is `words[old wordIndex][..charIndex]`. |
| Navigation.SelectedIdIsLast | script.js:43-52 | The selected id is `""` when no section has `scrollY >= offsetTop - 200`. Otherwise a last such section in document order exists, and the id is that section's. |
| Navigation.CurrentSection | script.js:43-52 | The `forEach` loop returns the id of the last section in document order with `scrollY >= offsetTop - 200`, or `""` if none qualifies. |
| Navigation.HrefTarget | script.js:56 | `href.slice(1)` is the href without its first character, and `""` for an empty href. |
| Navigation.ActiveFlags | script.js:54-59 | The link flags computed from the chosen id. Its own contract says only that there is one flag per link. Which flags are set is stated by ActiveIffTarget. |
| Navigation.ActiveIffTarget | script.js:54-59 | A link is marked active iff its `href.slice(1)` equals the chosen id. |
| Navigation.AtMostOneActive | script.js:54-59 | When no two hrefs have the same target, at most one link is active. |
| Navigation.ScrollHighlight | script.js:43-59 | Every active link points at the last reached section, or has the empty target while no section is reached. With distinct targets, the link that points at the last reached section is the only active link. |
| Navigation.NavBackgroundThreshold | script.js:63-67 | The navbar background is the 0.95-opacity value iff `scrollY > 50`, and the 0.8 value otherwise. |
| Navigation.Controller.constructor | script.js:23-25 | The controller starts from the classes found in the markup, with one flag per link. |
| Navigation.Controller.BurgerClick | script.js:28-31 | Both the menu's and the burger's `active` flags are negated, so they stay equal if they were equal. |
| Navigation.Controller.LinkClick | script.js:34-39 | Both flags become false, so they are equal afterwards. |
| Navigation.Controller.Scroll | script.js:42-67 | The link flags become `ActiveFlags(hrefs, SelectedId(sections, scrollY))`: link i is active iff its `href.slice(1)` equals the selected id. The background becomes the threshold value. The new flags do not depend on the old ones, so a second call with the same inputs changes nothing. |

## Left out

- DOM querying, event registration and the smooth-scroll click handler (`preventDefault`, `scrollIntoView`, script.js:7-17 and 70-78) are host plumbing with no logic.
- `setTimeout` rescheduling of the typing effect (script.js:113) is not modelled. A tick is one call, and only the chosen delay is returned.
- Missing elements are not modelled. In the source, a missing `.burger` fails at `burger.addEventListener` (script.js:28). A missing `.dynamic-text` fails in the first `type()` call, which runs synchronously (script.js:116, failing at line 98). In both cases the error escapes the `DOMContentLoaded` callback (script.js:7-17), so page initialisation stops and none of the later `init*` calls run. A missing `.nav-links` makes the burger and link click handlers throw (script.js:29, 36). A missing `.glass-nav` makes the scroll handler throw (script.js:64, 66), after the link flags have been updated.
- A section without an `id` attribute is not modelled. `getAttribute('id')` then yields `null` and no link matches. Sections carry a string id here.
- A `null` `href` (which would throw) is not modelled.
- `scrollY` is a floating-point number in the browser, but it is an integer here. `offsetTop` is an integer in the browser too.
- The unused `sectionHeight` read (script.js:48) has no effect and is dropped.
- TypingEffect.Typewriter.constructor: requires a non-empty list of non-empty words. The page's constant list satisfies this (`PortfolioWordsValid`). With an empty word the source would keep typing forever, with `charIndex` growing past the word.
- TypingEffect.Substring and Navigation.HrefTarget index code points where JavaScript's `substring` and `slice` index UTF-16 code units. Word lengths count code points the same way. The two differ only when a character outside the Basic Multilingual Plane is split. For example, the href `"😀home"` leaves a lone surrogate plus `home` in the source, so no link matches, but the model gives `"home"`. The page's own words are all in the Basic Multilingual Plane.
- Tilt, code-window, parallax, glow and card-stagger effects, the reveal observer, skill bars, counter animation and particle generation (script.js:122-391) are left out. They are floating-point arithmetic written into CSS strings, host callbacks, or `Math.random`.
