/** The footer-signature easter egg: a click counter that shows a random
    quote on every fifth click and starts over. `CountAfter` and `ShownAfter`
    describe a whole run of clicks; the handler is `Page.Page.ClickFooter`. */
module Footer {

  const ClickThreshold: nat := 5

  const FooterQuotes: seq<string> := [
    "Currently thinking about: the nature of creativity",
    "Persistence is the obsession you can control",
    "ASCII art: ¯\\_(ツ)_/¯",
    "You clicked enough. Here's nothing.",
    "Still clicking? That's dedication."
  ]

  /** The count after one click, and whether that click showed a quote. */
  datatype Click = Click(count: nat, shown: bool)

  /** One click from `count`: the counter goes up, and on reaching the
      threshold a quote is shown and the counter returns to 0. */
  function NextClick(count: nat): (r: Click)
    requires count < ClickThreshold
    ensures r.count < ClickThreshold
    ensures r.shown <==> count == ClickThreshold - 1
    ensures r.count == (count + 1) % ClickThreshold
  {
    if count + 1 >= ClickThreshold then Click(0, true) else Click(count + 1, false)
  }

  /** The counter after `clicks` clicks since page load. */
  function CountAfter(clicks: nat): (c: nat)
    ensures c < ClickThreshold
  {
    if clicks == 0 then 0 else NextClick(CountAfter(clicks - 1)).count
  }

  /** How many quotes `clicks` clicks since page load have shown. */
  function ShownAfter(clicks: nat): nat {
    if clicks == 0 then 0
    else ShownAfter(clicks - 1) + if NextClick(CountAfter(clicks - 1)).shown then 1 else 0
  }

  /** Division by the threshold is determined by quotient and remainder. */
  lemma DivMod(n: nat, q: nat, r: nat)
    requires r < ClickThreshold && n == q * ClickThreshold + r
    ensures n % ClickThreshold == r && n / ClickThreshold == q
  {
  }

  /** After `n` clicks the counter is `n mod 5` and `n div 5` quotes were shown. */
  lemma {:induction false} CountIsRemainder(n: nat)
    ensures CountAfter(n) == n % ClickThreshold
    ensures ShownAfter(n) == n / ClickThreshold
  {
    if n > 0 {
      CountIsRemainder(n - 1);
      var q, r := (n - 1) / ClickThreshold, (n - 1) % ClickThreshold;
      if r == ClickThreshold - 1 {
        DivMod(n, q + 1, 0);
      } else {
        DivMod(n, q, r + 1);
      }
    }
  }

  /** Click number `n + 1` shows a quote exactly when it is a multiple of 5. */
  lemma ShownOnEveryFifthClick(n: nat)
    ensures NextClick(CountAfter(n)).shown <==> (n + 1) % ClickThreshold == 0
  {
    CountIsRemainder(n);
  }

  /** `Math.floor(rand * footerQuotes.length)` for `rand = Math.random()`,
      which lies in [0, 1): a valid index into the quotes. */
  function QuoteIndex(rand: real): (i: nat)
    requires 0.0 <= rand < 1.0
    ensures i < |FooterQuotes|
    ensures i as real <= rand * |FooterQuotes| as real < i as real + 1.0
  {
    (rand * |FooterQuotes| as real).Floor
  }
}
