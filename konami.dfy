/** The Konami-code easter egg: an index into a fixed key sequence that a
    matching key advances and any other key resets to 0, with no fallback to
    a shorter partial match. The matcher is stated for any non-empty code and
    used with `KonamiCode`; `IndexAfter` is the index after a whole history
    of keys. The handler that keeps the index is `Page.Page.HandleKonamiCode`. */
module Konami {

  const KonamiCode: seq<string> := [
    "ArrowUp", "ArrowUp", "ArrowDown", "ArrowDown",
    "ArrowLeft", "ArrowRight", "ArrowLeft", "ArrowRight",
    "b", "a"
  ]

  const EggMessage: string := "You found it. Not everyone does."

  /** The index after one key, and whether that key completed the code. */
  datatype Step = Step(index: nat, fired: bool)

  /** One call of the handler, from index `index` into `code`. */
  function Next(code: seq<string>, index: nat, key: string): (r: Step)
    requires index < |code|
    ensures r.index < |code|
    ensures r.fired <==> index == |code| - 1 && key == code[index]
    ensures r.fired ==> r.index == 0
    ensures key != code[index] ==> r == Step(0, false)
    ensures key == code[index] && !r.fired ==> r.index == index + 1
  {
    if key == code[index] then
      if index + 1 == |code| then Step(0, true) else Step(index + 1, false)
    else
      Step(0, false)
  }

  /** The index after the handler has seen `keys`, starting from 0 at page load. */
  function IndexAfter(code: seq<string>, keys: seq<string>): (k: nat)
    requires |code| > 0
    ensures k < |code|
  {
    if keys == [] then 0
    else Next(code, IndexAfter(code, keys[..|keys| - 1]), keys[|keys| - 1]).index
  }

  /** Whether the egg fires on `key` after the history `keys`. */
  function FiresOn(code: seq<string>, keys: seq<string>, key: string): bool
    requires |code| > 0
  {
    Next(code, IndexAfter(code, keys), key).fired
  }

  /** An index `k` after a history means its last `k` keys are the first `k`
      keys of the code. */
  lemma {:induction false} IndexIsMatchedRun(code: seq<string>, keys: seq<string>)
    requires |code| > 0
    ensures IndexAfter(code, keys) <= |keys|
    ensures keys[|keys| - IndexAfter(code, keys)..] == code[..IndexAfter(code, keys)]
  {
    var k := IndexAfter(code, keys);
    if k != 0 {
      var init, last := keys[..|keys| - 1], keys[|keys| - 1];
      var j := IndexAfter(code, init);
      assert k == Next(code, j, last).index;
      assert last == code[j] && k == j + 1;
      IndexIsMatchedRun(code, init);
      assert keys[|keys| - k..] == init[|init| - j..] + [last];
      assert code[..k] == code[..j] + [code[j]];
    }
  }

  /** The index was 0 just before those `k` keys: the run began at a reset or
      at page load. */
  lemma {:induction false} RunStartsAtReset(code: seq<string>, keys: seq<string>)
    requires |code| > 0
    ensures IndexAfter(code, keys) <= |keys|
    ensures IndexAfter(code, keys[..|keys| - IndexAfter(code, keys)]) == 0
  {
    var k := IndexAfter(code, keys);
    if k == 0 {
      assert keys[..|keys|] == keys;
    } else {
      var init, last := keys[..|keys| - 1], keys[|keys| - 1];
      var j := IndexAfter(code, init);
      assert k == Next(code, j, last).index;
      assert k == j + 1;
      RunStartsAtReset(code, init);
      assert keys[..|keys| - k] == init[..|init| - j];
    }
  }

  /** From index 0, the first `j` keys of the code (short of the whole code)
      take the index to `j`. */
  lemma {:induction false} MatchedPrefix(code: seq<string>, prefix: seq<string>, j: nat)
    requires |code| > 0 && IndexAfter(code, prefix) == 0
    requires j < |code|
    ensures IndexAfter(code, prefix + code[..j]) == j
  {
    if j == 0 {
      assert prefix + code[..0] == prefix;
    } else {
      MatchedPrefix(code, prefix, j - 1);
      var keys := prefix + code[..j];
      assert keys[..|keys| - 1] == prefix + code[..j - 1];
      assert keys[|keys| - 1] == code[j - 1];
    }
  }

  /** Appending one key to a history of at least `m` keys leaves the keys
      before the last `m` alone and extends the last `m` by that key. */
  lemma AppendWindow(s: seq<string>, x: string, m: nat)
    requires m <= |s|
    ensures (s + [x])[..|s| - m] == s[..|s| - m]
    ensures (s + [x])[|s| - m..] == s[|s| - m..] + [x]
  {
    assert (s + [x])[..|s| - m] == s[..|s| - m];
    assert (s + [x])[|s| - m..] == s[|s| - m..] + [x];
  }

  /** Firing implies the handler was at index 0 just before the last
      |code| - 1 keys. */
  lemma FiringRunStartsAtReset(code: seq<string>, keys: seq<string>, key: string)
    requires |code| > 0 && FiresOn(code, keys, key)
    ensures |keys| >= |code| - 1
    ensures IndexAfter(code, keys[..|keys| - (|code| - 1)]) == 0
  {
    assert IndexAfter(code, keys) == |code| - 1;
    RunStartsAtReset(code, keys);
  }

  /** Firing implies the last |code| - 1 keys and `key` spell the whole code
      in order. */
  lemma FiringKeysSpellCode(code: seq<string>, keys: seq<string>, key: string)
    requires |code| > 0 && FiresOn(code, keys, key)
    ensures |keys| >= |code| - 1
    ensures keys[|keys| - (|code| - 1)..] + [key] == code
  {
    var n := |code| - 1;
    assert IndexAfter(code, keys) == n && key == code[n];
    IndexIsMatchedRun(code, keys);
    assert code == code[..n] + [code[n]];
  }

  /** From index 0, the keys of the code in order fire the egg on the last. */
  lemma EggFiresOnCode(code: seq<string>, prefix: seq<string>)
    requires |code| > 0 && IndexAfter(code, prefix) == 0
    ensures FiresOn(code, prefix + code[..|code| - 1], code[|code| - 1])
  {
    MatchedPrefix(code, prefix, |code| - 1);
  }

  /** When the last |code| - 1 keys of a history and `key` spell the code,
      the history is what came before them followed by the code's first
      |code| - 1 keys, and `key` is the code's last. */
  lemma SplitAtCode(code: seq<string>, keys: seq<string>, key: string)
    requires |code| > 0 && |keys| >= |code| - 1
    requires keys[|keys| - (|code| - 1)..] + [key] == code
    ensures keys == keys[..|keys| - (|code| - 1)] + code[..|code| - 1]
    ensures key == code[|code| - 1]
  {
    var n := |code| - 1;
    var typed := keys[|keys| - n..];
    assert (typed + [key])[..n] == typed;
    assert keys == keys[..|keys| - n] + typed;
  }

  /** A history whose last |code| - 1 keys, typed from index 0, are followed
      by `key` to spell the code fires the egg on `key`. */
  lemma EggFiresWhenCodeTyped(code: seq<string>, keys: seq<string>, key: string)
    requires |code| > 0 && |keys| >= |code| - 1
    requires IndexAfter(code, keys[..|keys| - (|code| - 1)]) == 0
    requires keys[|keys| - (|code| - 1)..] + [key] == code
    ensures FiresOn(code, keys, key)
  {
    SplitAtCode(code, keys, key);
    EggFiresOnCode(code, keys[..|keys| - (|code| - 1)]);
  }

  /** The key that fires the egg leaves the index at 0. */
  lemma FiringResets(code: seq<string>, keys: seq<string>, key: string)
    requires |code| > 0 && FiresOn(code, keys, key)
    ensures IndexAfter(code, keys + [key]) == 0
  {
    assert (keys + [key])[..|keys|] == keys;
  }

  /** The egg fires on `key` exactly when the handler was at index 0 just
      before the last |code| - 1 keys and those keys and `key` spell the whole
      code in order. Afterwards the index is 0 again. */
  lemma EggFiresIffCodeTyped(code: seq<string>, keys: seq<string>, key: string)
    requires |code| > 0
    ensures FiresOn(code, keys, key) <==>
      |keys| >= |code| - 1 && IndexAfter(code, keys[..|keys| - (|code| - 1)]) == 0 &&
      keys[|keys| - (|code| - 1)..] + [key] == code
    ensures FiresOn(code, keys, key) ==> IndexAfter(code, keys + [key]) == 0
  {
    var n := |code| - 1;
    if |keys| >= n && IndexAfter(code, keys[..|keys| - n]) == 0 &&
       keys[|keys| - n..] + [key] == code
    {
      EggFiresWhenCodeTyped(code, keys, key);
    }
    if FiresOn(code, keys, key) {
      FiringRunStartsAtReset(code, keys, key);
      FiringKeysSpellCode(code, keys, key);
      FiringResets(code, keys, key);
    }
  }

  /** The same fact read on the history after `key`: the handler's new
      index is the one-key step from the old, and the egg fires exactly when
      the last |code| keys, `key` included, spell the code and were typed
      from index 0. */
  lemma EggFiresIffHistoryEndsInCode(code: seq<string>, keys: seq<string>, key: string)
    requires |code| > 0
    ensures IndexAfter(code, keys + [key]) == Next(code, IndexAfter(code, keys), key).index
    ensures var all := keys + [key];
      FiresOn(code, keys, key) <==>
        |all| >= |code| && IndexAfter(code, all[..|all| - |code|]) == 0 &&
        all[|all| - |code|..] == code
  {
    assert (keys + [key])[..|keys|] == keys;
    EggFiresIffCodeTyped(code, keys, key);
    if |keys| >= |code| - 1 {
      AppendWindow(keys, key, |code| - 1);
    }
  }

  /** For the Konami code: the egg fires exactly on an "a" typed at index 9,
      which happens exactly after the ten keys of the code typed from a reset. */
  lemma KonamiEgg(keys: seq<string>, key: string)
    ensures FiresOn(KonamiCode, keys, key) <==> IndexAfter(KonamiCode, keys) == 9 && key == "a"
    ensures FiresOn(KonamiCode, keys, key) <==>
      |keys| >= 9 && IndexAfter(KonamiCode, keys[..|keys| - 9]) == 0 &&
      keys[|keys| - 9..] + [key] == KonamiCode
  {
    EggFiresIffCodeTyped(KonamiCode, keys, key);
  }

  /** No partial-match fallback: a third "ArrowUp" after two resets the index
      to 0 rather than keeping it at 2, so "ArrowUp" typed three times before
      the rest of the code does not fire the egg, although the last ten keys
      typed are then exactly the code. */
  lemma ThirdArrowUpResets()
    ensures IndexAfter(KonamiCode, ["ArrowUp", "ArrowUp"]) == 2
    ensures IndexAfter(KonamiCode, ["ArrowUp", "ArrowUp", "ArrowUp"]) == 0
    ensures !FiresOn(KonamiCode, ["ArrowUp", "ArrowUp", "ArrowUp"] + KonamiCode[2..9], "a")
  {
    var two := ["ArrowUp", "ArrowUp"];
    var three := two + ["ArrowUp"];
    assert two[..1] == ["ArrowUp"] && ["ArrowUp"][..0] == [];
    assert three[..2] == two;
    assert three == ["ArrowUp", "ArrowUp", "ArrowUp"];
    var keys := three + KonamiCode[2..9];
    EggFiresIffCodeTyped(KonamiCode, keys, "a");
    assert |keys| == 10;
    assert keys[..|keys| - 9] == ["ArrowUp"];
    assert IndexAfter(KonamiCode, ["ArrowUp"]) == 1;
  }
}
