/** The page-level state the keyboard and footer handlers share: the key
    buffer, the dark-mode flag and stored theme, the Konami index, the footer
    click counter and the log of easter-egg messages shown so far. */
module Page {
  import opened Text
  import opened Keywords
  import Konami
  import Footer

  class Page {
    /** Recently typed characters, lower-cased (`keyBuffer`). */
    var keyBuffer: string
    /** Whether the body carries the `dark-mode` class. */
    var darkMode: bool
    /** The value stored under the `theme` key. */
    var theme: string
    /** Every easter-egg message shown so far, oldest first. */
    var messages: seq<string>
    /** Position in the Konami code (`konamiIndex`). */
    var konamiIndex: nat
    /** Clicks on the footer signature since the last quote (`footerClickCount`). */
    var footerClickCount: nat

    /** Every key the Konami handler has seen since page load. */
    ghost var konamiKeys: seq<string>
    /** Every click on the footer signature since page load. */
    ghost var footerClicks: nat

    /** The key buffer is cut to ten characters and, once a keyword is
        found, cleared, so it never holds either keyword. */
    ghost predicate BufferValid()
      reads this`keyBuffer
    {
      |keyBuffer| <= MaxBuffer &&
      !Includes(keyBuffer, StillnessKeyword) && !Includes(keyBuffer, ChaosKeyword)
    }

    /** The Konami index is the one the matcher reaches on the keys seen. */
    ghost predicate KonamiValid()
      reads this`konamiIndex, this`konamiKeys
    {
      konamiIndex == Konami.IndexAfter(Konami.KonamiCode, konamiKeys)
    }

    /** The footer counter is the one the clicks since page load give. */
    ghost predicate FooterValid()
      reads this`footerClickCount, this`footerClicks
    {
      footerClickCount == Footer.CountAfter(footerClicks)
    }

    ghost predicate Valid()
      reads this
    {
      BufferValid() && KonamiValid() && FooterValid()
    }

    /** Page load, with `storedTheme` the value found under the `theme` key:
        dark mode is on exactly when that value is "dark". */
    constructor (storedTheme: string)
      ensures Valid()
      ensures darkMode == (storedTheme == DarkTheme) && theme == storedTheme
      ensures keyBuffer == [] && messages == []
      ensures konamiIndex == 0 && footerClickCount == 0
      ensures konamiKeys == [] && footerClicks == 0
    {
      keyBuffer := "";
      darkMode := storedTheme == DarkTheme;
      theme := storedTheme;
      messages := [];
      konamiIndex := 0;
      footerClickCount := 0;
      konamiKeys := [];
      footerClicks := 0;
    }

    /** Turns dark mode on, stores the dark theme and shows its message. */
    method EnableDarkMode()
      modifies this`darkMode, this`theme, this`messages
      ensures darkMode && theme == DarkTheme
      ensures messages == old(messages) + [StillnessMessage]
    {
      darkMode := true;
      theme := DarkTheme;
      messages := messages + [StillnessMessage];
    }

    /** Turns dark mode off, stores the light theme and shows its message. */
    method DisableDarkMode()
      modifies this`darkMode, this`theme, this`messages
      ensures !darkMode && theme == LightTheme
      ensures messages == old(messages) + [ChaosMessage]
    {
      darkMode := false;
      theme := LightTheme;
      messages := messages + [ChaosMessage];
    }

    /** The `keydown` handler for the typed keywords. The lower-cased key
        name is appended, the buffer cut to its last ten characters, and the
        cut buffer searched: "stillness" turns dark mode on, otherwise
        "chaos" turns it off, and either clears the buffer; with neither the
        cut buffer is kept and nothing else changes. */
    method HandleKeyPress(key: string)
      requires Valid()
      modifies this`keyBuffer, this`darkMode, this`theme, this`messages
      ensures Valid()
      ensures |keyBuffer| <= MaxBuffer
      ensures
        var w := Window(old(keyBuffer) + Lower(key));
        if Includes(w, StillnessKeyword) then
          darkMode && theme == DarkTheme && keyBuffer == [] &&
          messages == old(messages) + [StillnessMessage]
        else if Includes(w, ChaosKeyword) then
          !darkMode && theme == LightTheme && keyBuffer == [] &&
          messages == old(messages) + [ChaosMessage]
        else
          keyBuffer == w && darkMode == old(darkMode) && theme == old(theme) &&
          messages == old(messages)
    {
      ghost var typed := keyBuffer + Lower(key);
      keyBuffer := keyBuffer + Lower(key);
      if |keyBuffer| > MaxBuffer {
        keyBuffer := keyBuffer[|keyBuffer| - MaxBuffer..];
      }
      assert keyBuffer == Window(typed);
      if Includes(keyBuffer, StillnessKeyword) {
        EnableDarkMode();
        keyBuffer := "";
      } else if Includes(keyBuffer, ChaosKeyword) {
        DisableDarkMode();
        keyBuffer := "";
      }
    }

    /** The `keydown` handler for the Konami code. A key equal to the code's
        entry at the current index advances it, any other key resets it to 0;
        the key that completes the code shows the egg's message and resets
        the index. */
    method HandleKonamiCode(key: string)
      requires Valid()
      modifies this`konamiIndex, this`messages, this`konamiKeys
      ensures Valid()
      ensures konamiKeys == old(konamiKeys) + [key]
      ensures konamiIndex < |Konami.KonamiCode|
      ensures konamiIndex == Konami.Next(Konami.KonamiCode, old(konamiIndex), key).index
      ensures key != Konami.KonamiCode[old(konamiIndex)] ==> konamiIndex == 0
      ensures var fired := old(konamiIndex) == 9 && key == "a";
        messages == old(messages) + (if fired then [Konami.EggMessage] else []) &&
        (fired ==> konamiIndex == 0) &&
        (fired <==>
          |konamiKeys| >= 10 &&
          Konami.IndexAfter(Konami.KonamiCode, konamiKeys[..|konamiKeys| - 10]) == 0 &&
          konamiKeys[|konamiKeys| - 10..] == Konami.KonamiCode)
    {
      assert |Konami.KonamiCode| == 10;
      Konami.KonamiEgg(konamiKeys, key);
      Konami.EggFiresIffHistoryEndsInCode(Konami.KonamiCode, konamiKeys, key);
      if key == Konami.KonamiCode[konamiIndex] {
        konamiIndex := konamiIndex + 1;
        if konamiIndex == |Konami.KonamiCode| {
          messages := messages + [Konami.EggMessage];
          konamiIndex := 0;
        }
      } else {
        konamiIndex := 0;
      }
      konamiKeys := konamiKeys + [key];
    }

    /** The click handler of the footer signature; `rand` stands for the value
        `Math.random()` returns. Every fifth click since page load shows the
        quote `rand` picks and resets the counter. */
    method ClickFooter(rand: real)
      requires Valid()
      requires 0.0 <= rand < 1.0
      modifies this`footerClickCount, this`messages, this`footerClicks
      ensures Valid()
      ensures footerClicks == old(footerClicks) + 1
      ensures footerClickCount < Footer.ClickThreshold
      ensures footerClickCount == footerClicks % Footer.ClickThreshold
      ensures messages == old(messages) +
        (if footerClicks % Footer.ClickThreshold == 0
         then [Footer.FooterQuotes[Footer.QuoteIndex(rand)]] else [])
    {
      footerClickCount := footerClickCount + 1;
      if footerClickCount >= Footer.ClickThreshold {
        var quote := Footer.FooterQuotes[Footer.QuoteIndex(rand)];
        messages := messages + [quote];
        footerClickCount := 0;
      }
      footerClicks := footerClicks + 1;
      Footer.CountIsRemainder(footerClicks);
      Footer.ShownOnEveryFifthClick(footerClicks - 1);
    }
  }

  /** Both handlers run on every `keydown`, and the only state they share is
      the message log. No single key shows both an egg message and a keyword
      message: the Konami egg fires only on "a", and on a valid page "a"
      cannot complete either keyword. */
  lemma NoKeyFiresBoth(p: Page, key: string)
    requires p.Valid()
    ensures Konami.Next(Konami.KonamiCode, p.konamiIndex, key).fired ==>
      !Includes(Window(p.keyBuffer + Lower(key)), StillnessKeyword) &&
      !Includes(Window(p.keyBuffer + Lower(key)), ChaosKeyword)
  {
    if Konami.Next(Konami.KonamiCode, p.konamiIndex, key).fired {
      assert key == "a";
      KeyADoesNotCompleteKeyword(p.keyBuffer);
    }
  }
}
