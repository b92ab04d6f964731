/** String helpers the key handlers rely on: `String.prototype.toLowerCase`
    (restricted to ASCII letters) and `String.prototype.includes`. */
module Text {

  predicate IsUpperAscii(c: char) {
    'A' <= c <= 'Z'
  }

  /** Lower-cases one character; only the ASCII letters A-Z are mapped. */
  function LowerChar(c: char): (d: char)
    ensures !IsUpperAscii(d)
    ensures IsUpperAscii(c) ==> d as int - c as int == 'a' as int - 'A' as int
    ensures !IsUpperAscii(c) ==> d == c
  {
    if IsUpperAscii(c) then (c as int - 'A' as int + 'a' as int) as char else c
  }

  /** `s.toLowerCase()`: same length, every character lower-cased in place,
      and no upper-case ASCII letter left. */
  function Lower(s: string): (r: string)
    ensures |r| == |s|
    ensures forall i :: 0 <= i < |s| ==> r[i] == LowerChar(s[i])
    ensures forall i :: 0 <= i < |r| ==> !IsUpperAscii(r[i])
  {
    if s == [] then [] else [LowerChar(s[0])] + Lower(s[1..])
  }

  /** `w` occurs in `s` starting at position `i`. */
  ghost predicate OccursAt(s: string, w: string, i: int) {
    0 <= i && i + |w| <= |s| && s[i..i + |w|] == w
  }

  lemma OccursShifted(s: string, w: string, i: nat)
    requires s != []
    ensures OccursAt(s[1..], w, i) <==> OccursAt(s, w, i + 1)
  {
    if i + |w| <= |s| - 1 {
      assert s[1..][i..i + |w|] == s[i + 1..i + 1 + |w|];
    }
  }

  /** `s.includes(w)`, computed by scanning left to right; true exactly when
      `w` occurs somewhere in `s` (the empty word occurs everywhere). */
  function Includes(s: string, w: string): (b: bool)
    ensures b <==> exists i :: OccursAt(s, w, i)
    decreases |s|
  {
    if |s| < |w| then
      false
    else if s[..|w|] == w then
      assert OccursAt(s, w, 0);
      true
    else
      var rest := Includes(s[1..], w);
      assert rest ==> exists i :: OccursAt(s, w, i) by {
        if rest {
          var i :| OccursAt(s[1..], w, i);
          OccursShifted(s, w, i);
        }
      }
      assert (exists i :: OccursAt(s, w, i)) ==> rest by {
        if exists i :: OccursAt(s, w, i) {
          var i :| OccursAt(s, w, i);
          assert i != 0;
          OccursShifted(s, w, i - 1);
        }
      }
      rest
  }

  /** A word found in a suffix of `s` is found in `s`. */
  lemma IncludesFromSuffix(s: string, j: nat, w: string)
    requires j <= |s|
    ensures Includes(s[j..], w) ==> Includes(s, w)
  {
    if Includes(s[j..], w) {
      var i :| OccursAt(s[j..], w, i);
      assert s[j..][i..i + |w|] == s[i + j..i + j + |w|];
      assert OccursAt(s, w, i + j);
    }
  }

  /** An occurrence in `s + [c]` that does not end on `c` lies within `s`. */
  lemma OccursBeforeAppended(s: string, c: char, w: string, i: int)
    requires w != [] && w[|w| - 1] != c && OccursAt(s + [c], w, i)
    ensures OccursAt(s, w, i)
  {
    assert (s + [c])[i + |w| - 1] == w[|w| - 1];
    assert (s + [c])[i..i + |w|] == s[i..i + |w|];
  }

  /** An occurrence in `s` is still there after a character is appended. */
  lemma OccursAfterAppended(s: string, c: char, w: string, i: int)
    requires OccursAt(s, w, i)
    ensures OccursAt(s + [c], w, i)
  {
    assert (s + [c])[i..i + |w|] == s[i..i + |w|];
  }

  /** Appending a character other than the last of `w` neither creates nor
      removes an occurrence of `w`. */
  lemma IncludesAfterAppend(s: string, c: char, w: string)
    requires w != [] && w[|w| - 1] != c
    ensures Includes(s + [c], w) <==> Includes(s, w)
  {
    if Includes(s + [c], w) {
      var i :| OccursAt(s + [c], w, i);
      OccursBeforeAppended(s, c, w, i);
    }
    if Includes(s, w) {
      var i :| OccursAt(s, w, i);
      OccursAfterAppended(s, c, w, i);
    }
  }
}
