/** The testimonial carousel (src/components/TestimonialsSection.tsx): an
    active index that cycles over the testimonials, moved by the previous and
    next arrows and set directly by the dots.  The section shows four
    testimonials; the model is stated for any positive count `n`. */
module Testimonials {

  /** JavaScript's `%`, which truncates towards zero: the remainder takes
      the sign of the dividend. */
  function JsRemainder(a: int, b: int): (r: int)
    requires b > 0
    ensures a >= 0 ==> 0 <= r < b && r == a % b
    ensures a < 0 ==> -b < r <= 0
  {
    if a >= 0 then a % b else -((-a) % b)
  }

  /** The index shown first. */
  function InitialIndex(n: nat): (i: nat)
    requires n > 0
    ensures i < n
    ensures i == 0
  {
    0
  }

  /** `(prev + 1) % n`: one step forward, wrapping from the last index to
      the first. */
  function Next(i: nat, n: nat): (j: nat)
    requires i < n
    ensures j < n
    ensures j == if i == n - 1 then 0 else i + 1
  {
    JsRemainder(i + 1, n)
  }

  /** `(prev - 1 + n) % n`: one step back, wrapping from the first index to
      the last; the added `n` keeps the dividend, and so the result, from
      going negative. */
  function Prev(i: nat, n: nat): (j: nat)
    requires i < n
    ensures j < n
    ensures j == if i == 0 then n - 1 else i - 1
  {
    JsRemainder(i - 1 + n, n)
  }

  /** Without the added `n`, going back from the first index would give -1:
      JavaScript's `%` keeps the sign of the dividend. */
  lemma PrevNeedsOffset(n: nat)
    requires n > 1
    ensures JsRemainder(0 - 1, n) == -1
  {
  }

  /** Back after forward, and forward after back, return to the start. */
  lemma PrevNextInverse(i: nat, n: nat)
    requires i < n
    ensures Prev(Next(i, n), n) == i
    ensures Next(Prev(i, n), n) == i
  {
  }

  /** The index after `k` presses of the next arrow. */
  function NextTimes(i: nat, n: nat, k: nat): (j: nat)
    requires i < n
    ensures j < n
  {
    if k == 0 then i else Next(NextTimes(i, n, k - 1), n)
  }

  /** Presses compose: `a` presses and then `b` more are `a + b` presses. */
  lemma {:induction false} NextTimesCompose(i: nat, n: nat, a: nat, b: nat)
    requires i < n
    ensures NextTimes(i, n, a + b) == NextTimes(NextTimes(i, n, a), n, b)
  {
    if b > 0 {
      NextTimesCompose(i, n, a, b - 1);
    }
  }

  /** Before the wrap, `k` presses advance the index by exactly `k`. */
  lemma {:induction false} NextTimesBeforeWrap(i: nat, n: nat, k: nat)
    requires i + k < n
    ensures NextTimes(i, n, k) == i + k
  {
    if k > 0 {
      NextTimesBeforeWrap(i, n, k - 1);
    }
  }

  /** Pressing the next arrow `n` times comes back to the start. */
  lemma NextCycles(i: nat, n: nat)
    requires i < n
    ensures NextTimes(i, n, n) == i
  {
    NextTimesBeforeWrap(i, n, n - i - 1);
    assert NextTimes(i, n, n - i) == 0;
    NextTimesBeforeWrap(0, n, i);
    NextTimesCompose(i, n, n - i, i);
  }

  /** Clicking dot `k` makes `k` the active index. */
  function ClickDot(k: nat, n: nat): (i: nat)
    requires k < n
    ensures i < n
    ensures Dots(i, n)[k]
  {
    k
  }

  /** Which of the `n` dots is highlighted for the active index. */
  function Dots(active: nat, n: nat): (dots: seq<bool>)
    ensures |dots| == n
    ensures forall k :: 0 <= k < n ==> (dots[k] <==> k == active)
  {
    seq(n, k => k == active)
  }

  /** Number of highlighted dots. */
  function CountLit(dots: seq<bool>): nat {
    if |dots| == 0 then 0 else CountLit(dots[..|dots| - 1]) + (if dots[|dots| - 1] then 1 else 0)
  }

  /** Among the first `m` dots, the active one is highlighted when it is
      among them and no other is. */
  lemma {:induction false} LitAmongFirst(active: nat, n: nat, m: nat)
    requires m <= n
    ensures CountLit(Dots(active, n)[..m]) == if active < m then 1 else 0
  {
    if m > 0 {
      LitAmongFirst(active, n, m - 1);
      assert Dots(active, n)[..m][..m - 1] == Dots(active, n)[..m - 1];
    }
  }

  /** Exactly one dot, the active one, is highlighted. */
  lemma ExactlyOneDotLit(active: nat, n: nat)
    requires active < n
    ensures CountLit(Dots(active, n)) == 1
  {
    LitAmongFirst(active, n, n);
    assert Dots(active, n)[..n] == Dots(active, n);
  }

  /** A click on the carousel: an arrow or dot `k`. */
  datatype Press = NextArrow | PrevArrow | Dot(k: nat)

  /** The active index after a sequence of clicks from the initial one; it
      never leaves the range of the testimonials. */
  function Run(presses: seq<Press>, n: nat): (i: nat)
    requires n > 0
    requires forall p :: p in presses && p.Dot? ==> p.k < n
    ensures i < n
  {
    if |presses| == 0 then InitialIndex(n)
    else
      var before := Run(presses[..|presses| - 1], n);
      match presses[|presses| - 1]
      case NextArrow => Next(before, n)
      case PrevArrow => Prev(before, n)
      case Dot(k) => ClickDot(k, n)
  }
}
