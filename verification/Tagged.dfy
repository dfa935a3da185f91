/** Arithmetic on tagged words. */
module Tagged {
  import opened Values

  const WORD: nat := 0x1_0000_0000_0000_0000

  /** `tag_integer`: a left shift by two in a 64-bit word. */
  function TagInteger(n: int): (w: nat)
    ensures w < WORD
  {
    (n * 4) % WORD
  }

  /** `get_integer`: an unsigned right shift by two. */
  function GetInteger(w: nat): nat { w / 4 }

  /** The low two bits of a fixnum's word are clear. */
  predicate IsIntegerWord(w: nat) { w < WORD && w % 4 == 0 }

  /** The word that tags an integer is the payload modulo 2^62, shifted. */
  lemma TagIsPayload(n: int)
    ensures TagInteger(n) == 4 * (n % FIXNUM_LIMIT) && IsIntegerWord(TagInteger(n))
    ensures GetInteger(TagInteger(n)) == n % FIXNUM_LIMIT
  {
    var q := n / FIXNUM_LIMIT;
    assert n * 4 == 4 * (n % FIXNUM_LIMIT) + WORD * q;
  }

  /** Adding and subtracting tagged words is adding and subtracting what they tag. */
  lemma AddTagged(x: int, y: int)
    ensures (TagInteger(x) + TagInteger(y)) % WORD == TagInteger(x + y)
    ensures (TagInteger(x) - TagInteger(y)) % WORD == TagInteger(x - y)
  {
    var qx, qy := (x * 4) / WORD, (y * 4) / WORD;
    ModShift(TagInteger(x) + TagInteger(y), qx + qy);
    ModShift(TagInteger(x) - TagInteger(y), qx - qy);
    assert x * 4 == WORD * qx + TagInteger(x);
    assert y * 4 == WORD * qy + TagInteger(y);
    assert (x + y) * 4 == TagInteger(x) + TagInteger(y) + WORD * (qx + qy);
    assert (x - y) * 4 == TagInteger(x) - TagInteger(y) + WORD * (qx - qy);
  }

  lemma MulWord(x: nat, y: nat)
    ensures ((x % WORD) * y) % WORD == (x * y) % WORD
  {
    var q := x / WORD;
    assert x * y == (x % WORD) * y + WORD * (q * y);
    ModShift((x % WORD) * y, q * y);
  }

  lemma ModShift(a: int, k: int)
    ensures (a + WORD * k) % WORD == a % WORD
  {
    var r := a % WORD;
    assert a == WORD * (a / WORD) + r;
    assert a + WORD * k == WORD * (a / WORD + k) + r;
  }

  /** Reducing to a word first does not change the payload. */
  lemma PayloadOfWord(x: int)
    ensures (x % WORD) % FIXNUM_LIMIT == x % FIXNUM_LIMIT
  {
    var q := x / WORD;
    assert x == (x % WORD) + FIXNUM_LIMIT * (4 * q);
    PayloadShift(x % WORD, 4 * q);
  }

  lemma PayloadShift(a: int, k: int)
    ensures (a + FIXNUM_LIMIT * k) % FIXNUM_LIMIT == a % FIXNUM_LIMIT
  {
    var r := a % FIXNUM_LIMIT;
    assert a == FIXNUM_LIMIT * (a / FIXNUM_LIMIT) + r;
    assert a + FIXNUM_LIMIT * k == FIXNUM_LIMIT * (a / FIXNUM_LIMIT + k) + r;
  }

  // ---------- quotients ----------

  predicate IsQuotient(w: nat, d: nat, q: nat) { d * q <= w < d * q + d }

  lemma IsQuotientOf(w: nat, d: nat)
    requires d > 0
    ensures IsQuotient(w, d, w / d)
  {
  }

  lemma QuotientUnique(w: nat, d: nat, q: nat)
    requires d > 0 && IsQuotient(w, d, q)
    ensures w / d == q
  {
    var p := w / d;
    IsQuotientOf(w, d);
    if p < q { Below(d, p, q); }
    if q < p { Below(d, q, p); }
  }

  lemma Below(d: nat, p: nat, q: nat)
    requires p < q
    ensures d * p + d <= d * q
  {
    var k := q - p - 1;
    assert q == p + 1 + k;
    assert d * q == d * p + d + d * k;
  }

  /** Dividing twice is dividing by the product. */
  lemma QuotientTwice(w: nat, a: nat, b: nat)
    requires a > 0 && b > 0
    ensures b * a > 0 && w / a / b == w / (b * a)
  {
    var q := w / a;
    var r := q / b;
    IsQuotientOf(w, a);
    IsQuotientOf(q, b);
    Scaled(a, b * r, q, b * r + b);
    assert a * (b * r) == (b * a) * r;
    assert a * (b * r + b) == (b * a) * r + b * a;
    assert b * a > 0;
    QuotientUnique(w, b * a, r);
  }

  lemma Scaled(a: nat, low: nat, q: nat, high: nat)
    requires low <= q < high
    ensures a * low <= a * q && a * q + a <= a * high
  {
    Below(a, q, high);
    if low < q { Below(a, low, q); }
  }

  lemma QuotientOfFour(n: nat, p: nat)
    requires p > 0
    ensures (4 * n) / (4 * p) == n / p <= n
  {
    IsQuotientOf(n, p);
    var q := n / p;
    assert (4 * p) * q == 4 * (p * q);
    QuotientUnique(4 * n, 4 * p, q);
    if q > 0 { Below(q, 0, p); }
  }
}
