/** The "stillness" / "chaos" typing easter egg: the constants and the
    rolling window of recently typed characters. The handler that uses them
    is `Page.Page.HandleKeyPress`. */
module Keywords {
  import opened Text

  /** The key buffer never keeps more than this many characters. */
  const MaxBuffer: nat := 10

  const StillnessKeyword: string := "stillness"
  const ChaosKeyword: string := "chaos"

  const StillnessMessage: string := "Clarity comes from stillness"
  const ChaosMessage: string := "Back to chaos"

  const DarkTheme: string := "dark"
  const LightTheme: string := "light"

  /** `buffer.slice(-10)` when the buffer is longer than ten characters:
      the last min(10, |s|) characters of `s`, in order. */
  function Window(s: string): (r: string)
    ensures |r| == if |s| <= MaxBuffer then |s| else MaxBuffer
    ensures r == s[|s| - |r|..]
  {
    if |s| > MaxBuffer then s[|s| - MaxBuffer..] else s
  }

  /** "stillness" holds neither a 'c' nor an 'h'. */
  lemma StillnessLetters(m: int)
    requires 0 <= m < |StillnessKeyword|
    ensures StillnessKeyword[m] != 'c' && StillnessKeyword[m] != 'h'
  {
  }

  /** In a window of at most ten characters "stillness" starts at 0 or 1,
      so it covers positions 1 to 8, none of which can then be 'c' or 'h'. */
  lemma StillnessCovers(w: string, i: int)
    requires |w| <= MaxBuffer && OccursAt(w, StillnessKeyword, i)
    ensures |w| >= 9
    ensures forall k :: 1 <= k <= 8 ==> w[k] != 'c' && w[k] != 'h'
  {
    forall k | 1 <= k <= 8
      ensures w[k] != 'c' && w[k] != 'h'
    {
      assert w[k] == w[i..i + 9][k - i];
      StillnessLetters(k - i);
    }
  }

  /** In a window of at most ten characters "chaos" starts at 0..5. */
  lemma ChaosMarks(w: string, j: int)
    requires |w| <= MaxBuffer && OccursAt(w, ChaosKeyword, j)
    ensures 0 <= j <= 5 && w[j] == 'c' && w[j + 1] == 'h'
  {
    assert w[j] == w[j..j + 5][0];
    assert w[j + 1] == w[j..j + 5][1];
  }

  /** A window of at most ten characters cannot hold both keywords, so the
      order in which the handler tests them never decides the outcome. */
  lemma KeywordsExclusive(w: string)
    requires |w| <= MaxBuffer
    ensures !(Includes(w, StillnessKeyword) && Includes(w, ChaosKeyword))
  {
    if Includes(w, StillnessKeyword) && Includes(w, ChaosKeyword) {
      var i :| OccursAt(w, StillnessKeyword, i);
      var j :| OccursAt(w, ChaosKeyword, j);
      StillnessCovers(w, i);
      ChaosMarks(w, j);
      // The 'c' at j, or the 'h' at j + 1 when j is 0, falls in 1..8.
      assert false;
    }
  }

  /** Both keywords end in 's', so typing "a" after a buffer that holds
      neither keyword leaves neither in the window. */
  lemma KeyADoesNotCompleteKeyword(buffer: string)
    requires !Includes(buffer, StillnessKeyword) && !Includes(buffer, ChaosKeyword)
    ensures !Includes(Window(buffer + Lower("a")), StillnessKeyword)
    ensures !Includes(Window(buffer + Lower("a")), ChaosKeyword)
  {
    var typed := buffer + Lower("a");
    assert typed == buffer + ['a'];
    var w := Window(typed);
    IncludesFromSuffix(typed, |typed| - |w|, StillnessKeyword);
    IncludesFromSuffix(typed, |typed| - |w|, ChaosKeyword);
    IncludesAfterAppend(buffer, 'a', StillnessKeyword);
    IncludesAfterAppend(buffer, 'a', ChaosKeyword);
  }
}
