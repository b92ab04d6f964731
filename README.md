# Portfolio page script: easter-egg and toggle state machines

This project models the stateful event handlers of a personal portfolio
page's front-end script (`script.js`) and proves what they promise:

- **Keyword typing** (`handleKeyPress`): every key name is lower-cased and
  appended to a rolling buffer cut to its last ten characters. If the cut
  buffer contains `stillness`, dark mode is turned on and the `dark` theme
  stored. Otherwise, if it contains `chaos`, dark mode is turned off and the
  `light` theme stored. Either keyword clears the buffer and shows its
  message.
- **Konami code** (`handleKonamiCode`): an index into the fixed ten-key
  sequence `ArrowUp ArrowUp ArrowDown ArrowDown ArrowLeft ArrowRight
  ArrowLeft ArrowRight b a`. A matching key advances it and any other key
  resets it to 0, with no fallback to a shorter partial match. The tenth
  matching key shows the egg's message and resets the index.
- **Footer secret** (the click handler of `initFooterSecret`): a click counter
  that shows one of five quotes on every fifth click, picked by
  `Math.random()`, and then starts over.
- **Section toggles** (the click handler of `initSectionToggles`): a click
  flips a button's `aria-expanded` attribute, its arrow text and the
  `hidden` class of the content it controls, all together.

Layout, one module per concern:

- `text.dfy` (`Text`): ASCII lower-casing and substring search, standing
  for `toLowerCase` and `includes`.
- `keywords.dfy` (`Keywords`): the keywords, messages, themes and the
  ten-character window.
- `konami.dfy` (`Konami`): the code, the one-key step `Next` and the index
  after a whole history of keys `IndexAfter`. These take the code as a
  parameter, so the lemmas about when the egg fires hold for any non-empty
  code. `KonamiEgg` and the handler use them with the script's ten-key code.
- `footer.dfy` (`Footer`): the quotes, the one-click step, the counter after
  `n` clicks, and the quote index picked from a random number.
- `sections.dfy` (`Sections`): the `(aria-expanded, arrow, hidden)` triple,
  its specification `Toggled`, and a `Section` class with the click handler.
- `page.dfy` (`Page`): a `Page` class whose fields are the script's
  module-level variables (`keyBuffer`, `konamiIndex`, `footerClickCount`),
  the `dark-mode` class on the body, the stored theme and a log of the
  messages shown. It has one method per handler. Ghost fields record every
  Konami key and footer click since page load. The class invariant ties
  the real counters to the functions of those histories and keeps both
  keywords out of the buffer. `NoKeyFiresBoth` uses it to show that the two
  `keydown` handlers never both log a message for the same key.

## Model

| member | source | states |
|---|---|---|
| Text.Lower | script.js:48 | the lower-cased key has the key's length, each character is lower-cased in place, and no upper-case ASCII letter is left |
| Text.Includes | script.js:54-57 | the scan answers true exactly when the word occurs at some position of the buffer |
| Keywords.Window | script.js:50-52 | the kept buffer is the last min(10, n) characters of the n-character buffer, in order |
| Keywords.KeyADoesNotCompleteKeyword | script.js:48-60 | both keywords end in `s`, so typing `a` after a buffer that holds neither keyword leaves neither in the cut buffer |
| Keywords.KeywordsExclusive | script.js:54-60 | a buffer of at most ten characters never contains both `stillness` and `chaos`, so the order of the two tests never decides the outcome |
| Page.Page.constructor | script.js:75-80 | at page load dark mode is on exactly when the stored theme is `dark`; the buffer, Konami index, click counter and message log start empty or at 0 |
| Page.Page.EnableDarkMode | script.js:63-67 | dark mode is on, the stored theme is `dark`, and the stillness message is appended to the log |
| Page.Page.DisableDarkMode | script.js:69-73 | dark mode is off, the stored theme is `light`, and the chaos message is appended to the log |
| Page.Page.HandleKeyPress | script.js:47-61 | the buffer is at most ten characters after every key and never holds either keyword; the keyword test runs on the last ten characters of old buffer plus lower-cased key; `stillness` turns dark mode on and `chaos` turns it off, each storing its theme, logging its message and clearing the buffer; with neither, the buffer is that window and dark mode, theme and log are unchanged |
| Konami.Next | script.js:127-139 | one key keeps the index inside the code; a mismatch gives index 0 and no egg; a match advances the index; the egg fires exactly when the index was at the code's last entry and the key equals it, and the index is then 0 |
| Konami.IndexAfter | script.js:125-139 | the index after any history of keys, starting from 0 at page load, stays inside the code ([0, 9] for the ten-key code) |
| Konami.IndexIsMatchedRun | script.js:130-137 | an index k after a history means the last k keys are the code's first k keys |
| Konami.RunStartsAtReset | script.js:130-137 | an index k after a history means the index was 0 just before the last k keys |
| Konami.MatchedPrefix | script.js:130-131 | from index 0, the code's first j keys (j short of the whole code) take the index to j |
| Konami.FiringRunStartsAtReset | script.js:130-135 | the egg fires only when the index was 0 just before the last keys |
| Konami.FiringKeysSpellCode | script.js:130-135 | the egg fires only when the last keys plus the current one are the whole code in order |
| Konami.FiringResets | script.js:132-135 | the key that fires the egg leaves the index at 0 |
| Konami.EggFiresOnCode | script.js:130-135 | from index 0, typing the keys of the code in order fires the egg on the last |
| Konami.EggFiresWhenCodeTyped | script.js:130-135 | if the keys since an index-0 point plus the current key are the code, the egg fires |
| Konami.EggFiresIffCodeTyped | script.js:130-139 | the egg fires if and only if the keys since an index-0 point plus the current key are the code, and the index is 0 afterwards |
| Konami.EggFiresIffHistoryEndsInCode | script.js:127-139 | the index after one more key is the one-key step from the old index, and the egg fires exactly when the whole history ends in the code typed from an index-0 point |
| Konami.KonamiEgg | script.js:120-139 | for the ten-key code the egg fires exactly when the index was 9 and the key is `a`, which is exactly when the last ten keys, typed from index 0, are the code |
| Konami.ThirdArrowUpResets | script.js:130-137 | no partial-match fallback: a third `ArrowUp` after two resets the index from 2 to 0, so `ArrowUp` typed three times before the rest of the code does not fire the egg although the last ten keys are the code |
| Page.NoKeyFiresBoth | script.js:223-224 | on a valid page, a key that fires the Konami egg makes the keyword handler find neither keyword, so one `keydown` never shows both an egg message and a keyword message |
| Page.Page.HandleKonamiCode | script.js:127-139 | the index stays in [0, 9] and follows the one-key step; a mismatch resets it to 0; the egg message is logged exactly when the old index was 9 and the key is `a`, which is exactly when the last ten keys since an index-0 point spell the code |
| Footer.NextClick | script.js:165-172 | one click keeps the counter in [0, 4], shows a quote exactly on reaching 5, and leaves the counter at (count + 1) mod 5 |
| Footer.CountAfter | script.js:152-171 | the counter after any number of clicks stays in [0, 4] |
| Footer.CountIsRemainder | script.js:152-172 | after n clicks the counter is n mod 5 and n div 5 quotes have been shown |
| Footer.ShownOnEveryFifthClick | script.js:166-172 | click number n + 1 shows a quote exactly when n + 1 is a multiple of 5 |
| Footer.QuoteIndex | script.js:169 | for a random number in [0, 1) the chosen index is a valid index into the five quotes, the floor of the number times five |
| Page.Page.ClickFooter | script.js:165-173 | the counter is the number of clicks since page load mod 5; a quote, the one the random number picks, is logged exactly on every fifth click |
| Sections.Toggled | script.js:27-37 | after a click the attribute is `true` exactly when it was not `true` before (any other value counts as collapsed), and the arrow is `[v]` with the content shown iff expanded, `[>]` with it hidden otherwise |
| Sections.ToggleTwiceRestores | script.js:27-37 | two clicks on a section whose triple is consistent give back the original triple |
| Sections.Section.Toggle | script.js:22-37 | the click handler changes the button, arrow and content exactly as `Toggled` says and leaves them consistent |

## Left out

- The age counter (`calculateAge`, `updateAge`): floating-point division of a `Date` difference and `toFixed`.
- Message display timing (`showEasterEggMessage`): the show and hide timers and CSS classes. A shown message is an entry appended to the `messages` log.
- `triggerKonamiEasterEgg`: the glitch animation on the body is not modelled. Its message, shown after a 300 ms timer in the script, is logged at once.
- `injectGlitchAnimation`: it only injects CSS.
- `initScrollEmphasis`: it relies on the browser's `IntersectionObserver`.
- `checkReadingTime` and `initReadingTimeReward`: they depend on `Date.now` and `setInterval`.
- Local storage: it is a plain `theme` field. An absent entry is any value other than `dark`, which `loadThemePreference` treats the same way. The constructor stands for `loadThemePreference` on a body without the `dark-mode` class.
- The `init` wiring, focus handling and `addEventListener` plumbing. Both keyboard handlers are registered for `keydown`. Each is modelled as its own method, because the only state they share is the message log. `Page.NoKeyFiresBoth` shows that no single key makes both of them append to it.
- Keywords.Window: counts Unicode scalar values, as Dafny strings do. The script's `keyBuffer.length > 10` and `slice(-10)` count UTF-16 code units. A key name with a character outside the Basic Multilingual Plane counts 2 there, and the cut can split it. So "at most ten characters" is in different units. Keyword detection is the same for ASCII and other single-code-unit key names.
- Text.Lower: maps only the ASCII letters A-Z. JavaScript's `toLowerCase` also lower-cases non-ASCII letters.
- Footer.QuoteIndex: treats `Math.random() * 5` as exact real arithmetic. The script uses double-precision multiplication. The random number is a parameter, because `Math.random` is outside the model.
- Missing DOM elements: a `null` returned by `getElementById` or `querySelector` would make the script throw. The model assumes every element exists.
- `update-images.js`: file-system I/O and a regex rewrite of a block that `script.js` does not contain.
