/** The three-digit counters of the top bar (drawCounter in
    src/gameState.cpp): the shown value is clamped into 0..999 and split into
    the decimal digits that select the three digit textures. */
module Counter {

  /** The largest value three digits can show. */
  const COUNTER_MAX: int := 999

  /** The clamp of drawCounter: values above 999 show as 999, negative
      values (more flags than mines) as 0, everything else unchanged. */
  function Clamp(value: int): (v: int)
    ensures 0 <= v <= COUNTER_MAX
    ensures 0 <= value <= COUNTER_MAX ==> v == value
    ensures value > COUNTER_MAX ==> v == COUNTER_MAX
    ensures value < 0 ==> v == 0
  {
    var upper := if value > COUNTER_MAX then COUNTER_MAX else value;
    if upper < 0 then 0 else upper
  }

  /** The digit indices d1, d2, d3 of drawCounter. */
  datatype Digits = Digits(hundreds: int, tens: int, ones: int)

  predicate IsDigit(d: int) {
    0 <= d <= 9
  }

  /** The three digits drawn for `value`: each selects one of the ten digit
      textures, and together they spell the clamped value in decimal. */
  function CounterDigits(value: int): (d: Digits)
    ensures IsDigit(d.hundreds) && IsDigit(d.tens) && IsDigit(d.ones)
    ensures 100 * d.hundreds + 10 * d.tens + d.ones == Clamp(value)
  {
    var v := Clamp(value);
    Digits(v / 100, (v % 100) / 10, v % 10)
  }

  /** Three digits spell at most one number: the split is the decimal
      representation and nothing else. */
  lemma DigitsUnique(a: Digits, b: Digits)
    requires IsDigit(a.hundreds) && IsDigit(a.tens) && IsDigit(a.ones)
    requires IsDigit(b.hundreds) && IsDigit(b.tens) && IsDigit(b.ones)
    requires 100 * a.hundreds + 10 * a.tens + a.ones == 100 * b.hundreds + 10 * b.tens + b.ones
    ensures a == b
  {
  }

  /** Any three digits are what the counter draws for the number they spell. */
  lemma DigitsRoundTrip(h: int, t: int, o: int)
    requires IsDigit(h) && IsDigit(t) && IsDigit(o)
    ensures CounterDigits(100 * h + 10 * t + o) == Digits(h, t, o)
  {
  }

  /** Clamping twice is clamping once: a shown value is redrawn unchanged. */
  lemma ClampIdempotent(value: int)
    ensures Clamp(Clamp(value)) == Clamp(value)
  {
  }
}
