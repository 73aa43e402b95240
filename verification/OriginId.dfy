/** The time-ordered 26-digit message id of direct-peer ingress, in the shape of the ULID
    specification (sections "Encoding" and "Sorting"):
    scripts/smoke/admission_capacity_transport.py, alphabet in admission_capacity_support.py. */
module OriginId {

  const ALPHABET: string := "0123456789ABCDEFGHJKMNPQRSTVWXYZ"
  const DIGITS: nat := 26
  const ENTROPY_SPAN: nat := 0x1_0000_0000_0000_0000_0000      // 2^80
  const ULID_MILLISECONDS: nat := 0x1_0000_0000_0000           // 2^48
  const ENCODABLE_MILLISECONDS: nat := 0x4_0000_0000_0000      // 2^50

  function Power32(n: nat): (p: nat)
    ensures p > 0
  {
    if n == 0 then 1 else 32 * Power32(n - 1)
  }

  /** `(milliseconds << 80) | entropy`; the entropy is masked to 80 bits, so the two parts
      do not overlap and the bitwise or is a sum. */
  function Value(milliseconds: nat, entropy: nat): nat { milliseconds * ENTROPY_SPAN + entropy }

  /** `(value >> (5 * offset)) & 0x1F` */
  function Digit(value: nat, offset: nat): (d: nat)
    ensures d < 32
  { (value / Power32(offset)) % 32 }

  /** Most significant digit first, offsets `n - 1` down to 0. */
  function Encode(value: nat, n: nat): (s: string)
    ensures |s| == n
  { seq(n, i requires 0 <= i < n => ALPHABET[Digit(value, n - 1 - i)]) }

  function EncodeId(milliseconds: nat, entropy: nat): string { Encode(Value(milliseconds, entropy), DIGITS) }

  function DigitOf(c: char): (d: int)
    ensures -1 <= d < 32
    ensures d >= 0 ==> ALPHABET[d] == c
    ensures d == -1 ==> forall j :: 0 <= j < 32 ==> ALPHABET[j] != c
  { IndexFrom(c, 0) }

  function IndexFrom(c: char, i: nat): (d: int)
    requires i <= 32
    ensures -1 <= d < 32
    ensures d >= 0 ==> ALPHABET[d] == c
    ensures d == -1 ==> forall j :: i <= j < 32 ==> ALPHABET[j] != c
    decreases 32 - i
  {
    if i == 32 then -1 else if ALPHABET[i] == c then i else IndexFrom(c, i + 1)
  }

  /** Positional value of an id. */
  function Decode(s: string): int {
    if s == "" then 0 else 32 * Decode(s[..|s| - 1]) + DigitOf(s[|s| - 1])
  }

  function DecodeId(s: string): (int, int) { (Decode(s) / ENTROPY_SPAN, Decode(s) % ENTROPY_SPAN) }

  /** Lexicographic order on strings, as mail stores and file systems sort. */
  predicate Below(a: string, b: string) {
    exists k :: 0 <= k < |a| && k < |b| && a[..k] == b[..k] && a[k] < b[k]
  }

  lemma AlphabetIncreases(i: nat, j: nat)
    requires i < j < 32
    ensures ALPHABET[i] < ALPHABET[j]
  {
    if i + 1 < j { AlphabetIncreases(i, j - 1); }
  }

  /** A decimal digit, or a capital letter other than I, L, O and U. */
  predicate IsBase32(c: char) {
    '0' <= c <= '9' || ('A' <= c <= 'Z' && c != 'I' && c != 'L' && c != 'O' && c != 'U')
  }

  /** How many excluded letters come up to `c`. */
  function Skipped(c: char): nat {
    if c < 'I' then 0 else if c < 'L' then 1 else if c < 'O' then 2 else if c < 'U' then 3 else 4
  }

  function Place(c: char): int {
    if c <= '9' then c as int - '0' as int else c as int - 'A' as int + 10 - Skipped(c)
  }

  lemma AlphabetPlace(d: nat)
    requires d < 32
    ensures IsBase32(ALPHABET[d]) && Place(ALPHABET[d]) == d
  {
  }

  lemma PlaceInjective(c: char, e: char)
    requires IsBase32(c) && IsBase32(e) && Place(c) == Place(e)
    ensures c == e
  {
  }

  /** Every such character is a digit of the alphabet, and nothing else is. */
  lemma AlphabetMeans(c: char)
    ensures c in ALPHABET <==> IsBase32(c)
  {
    if IsBase32(c) {
      assert 0 <= Place(c) < 32;
      AlphabetPlace(Place(c));
      PlaceInjective(c, ALPHABET[Place(c)]);
      assert ALPHABET[Place(c)] in ALPHABET;
    }
    if c in ALPHABET {
      var d :| 0 <= d < 32 && ALPHABET[d] == c;
      AlphabetPlace(d);
    }
  }

  /** So no id holds a letter that can be misread. */
  lemma IdCharacters(milliseconds: nat, entropy: nat, i: nat)
    requires i < DIGITS
    ensures |EncodeId(milliseconds, entropy)| == DIGITS
    ensures var c := EncodeId(milliseconds, entropy)[i];
            IsBase32(c) && c != 'I' && c != 'L' && c != 'O' && c != 'U'
  {
    hide Digit, Power32, Value;
    AlphabetPlace(Digit(Value(milliseconds, entropy), DIGITS - 1 - i));
  }

  lemma DigitOfAlphabet(d: nat)
    requires d < 32
    ensures DigitOf(ALPHABET[d]) == d
  {
    var e := DigitOf(ALPHABET[d]);
    if 0 <= e < d { AlphabetIncreases(e, d); }
    if d < e { AlphabetIncreases(d, e); }
  }

  // ---------------------------------------------------------------- digits

  lemma DivDiv(value: nat, p: nat)
    requires p > 0
    ensures (value / 32) / p == value / (32 * p)
  {
    var q := value / (32 * p);
    var r := value % (32 * p);
    assert value == q * (32 * p) + r;
    assert value == 32 * (q * p) + r;
    assert value / 32 == q * p + r / 32;
    assert 0 <= r / 32 < p;
    DivUnique(q * p + r / 32, p, q, r / 32);
  }

  lemma DivUnique(n: nat, d: nat, q: nat, r: nat)
    requires d > 0 && n == q * d + r && r < d
    ensures n / d == q && n % d == r
  {
    var q', r' := n / d, n % d;
    assert (q' - q) * d == r - r' by { Distribute(q', q, d); }
    if q' < q { AtLeast(q - q', d); Distribute(q, q', d); }
    if q < q' { AtLeast(q' - q, d); }
  }

  lemma Distribute(a: int, b: int, d: int)
    ensures (a - b) * d == a * d - b * d
  {
  }

  lemma AtLeast(a: int, d: int)
    requires a >= 1 && d > 0
    ensures a * d >= d
  {
  }

  lemma DigitShift(value: nat, k: nat)
    ensures Digit(value, k + 1) == Digit(value / 32, k)
  {
    DivDiv(value, Power32(k));
  }

  /** Dropping the last digit encodes the quotient. */
  lemma EncodeDropLast(value: nat, n: nat)
    ensures Encode(value, n + 1)[..n] == Encode(value / 32, n)
    ensures Encode(value, n + 1)[n] == ALPHABET[value % 32]
  {
    forall i | 0 <= i < n ensures Encode(value, n + 1)[i] == Encode(value / 32, n)[i] {
      DigitShift(value, n - 1 - i);
    }
    assert (n + 1) - 1 - n == 0 && Digit(value, 0) == value % 32;
    assert Encode(value, n + 1)[n] == ALPHABET[Digit(value, (n + 1) - 1 - n)];
  }

  /** The id keeps exactly the low `5 * n` bits. */
  lemma {:induction false} DecodeEncode(value: nat, n: nat)
    ensures Decode(Encode(value, n)) == value % Power32(n)
    decreases n
  {
    if n == 0 {
    } else {
      EncodeDropLast(value, n - 1);
      DecodeEncode(value / 32, n - 1);
      DigitOfAlphabet(value % 32);
      ModSplit(value, Power32(n - 1));
    }
  }

  lemma ModSplit(value: nat, p: nat)
    requires p > 0
    ensures value % (32 * p) == 32 * ((value / 32) % p) + value % 32
  {
    var v := value / 32;
    var q, r := v / p, v % p;
    assert value == 32 * v + value % 32;
    assert v == q * p + r;
    assert value == q * (32 * p) + (32 * r + value % 32);
    DivUnique(value, 32 * p, q, 32 * r + value % 32);
  }

  lemma IdCapacity()
    ensures Power32(DIGITS) == ENCODABLE_MILLISECONDS * ENTROPY_SPAN
  {
    assert Power32(6) == 0x4000_0000;
    assert Power32(12) == 0x1000_0000_0000_0000;
    assert Power32(18) == 0x1000_0000_0000_0000 * 0x4000_0000;
    assert Power32(24) == 0x1000_0000_0000_0000 * 0x1000_0000_0000_0000;
  }

  /** The id decodes to its milliseconds and entropy if and only if the clock is below 2^50. */
  lemma RoundTrip(milliseconds: nat, entropy: nat)
    requires entropy < ENTROPY_SPAN
    ensures DecodeId(EncodeId(milliseconds, entropy)) == (milliseconds, entropy)
            <==> milliseconds < ENCODABLE_MILLISECONDS
  {
    hide Encode, Decode, Power32;
    var v := Value(milliseconds, entropy);
    DecodeEncode(v, DIGITS);
    IdCapacity();
  }

  // ---------------------------------------------------------------- sorting

  lemma BelowPrefix(a: string, b: string, x: char, y: char)
    requires Below(a, b) && |a| == |b|
    ensures Below(a + [x], b + [y])
  {
    var k :| 0 <= k < |a| && k < |b| && a[..k] == b[..k] && a[k] < b[k];
    assert (a + [x])[..k] == (b + [y])[..k];
  }

  /** Numerically smaller ids sort first. */
  lemma {:induction false} OrderPreserved(v: nat, w: nat, n: nat)
    requires v < w < Power32(n)
    ensures Below(Encode(v, n), Encode(w, n))
    decreases n
  {
    hide Encode;
    EncodeDropLast(v, n - 1);
    EncodeDropLast(w, n - 1);
    var a, b := Encode(v, n), Encode(w, n);
    assert a == a[..n - 1] + [a[n - 1]] && b == b[..n - 1] + [b[n - 1]];
    if v / 32 < w / 32 {
      OrderPreserved(v / 32, w / 32, n - 1);
      BelowPrefix(a[..n - 1], b[..n - 1], a[n - 1], b[n - 1]);
    } else {
      AlphabetIncreases(v % 32, w % 32);
      assert a[..n - 1] == b[..n - 1] && a[n - 1] < b[n - 1];
    }
  }

  lemma BelowAsymmetric(a: string, b: string)
    requires Below(a, b)
    ensures a != b && !Below(b, a)
  {
    var k :| 0 <= k < |a| && k < |b| && a[..k] == b[..k] && a[k] < b[k];
    forall j | 0 <= j < |b| && j < |a| && b[..j] == a[..j] ensures !(b[j] < a[j]) {
      if j < k { assert b[j] == b[..k][j] == a[..k][j]; }
      assert forall i :: 0 <= i < j ==> b[..j][i] == b[i] && a[..j][i] == a[i];
    }
  }

  /** String order is (milliseconds, entropy) order: a later millisecond always sorts later. */
  lemma IdsSortByTime(m1: nat, e1: nat, m2: nat, e2: nat)
    requires e1 < ENTROPY_SPAN && e2 < ENTROPY_SPAN
    requires m1 < ENCODABLE_MILLISECONDS && m2 < ENCODABLE_MILLISECONDS
    ensures Below(EncodeId(m1, e1), EncodeId(m2, e2)) <==> m1 < m2 || (m1 == m2 && e1 < e2)
  {
    hide Encode;
    var v, w := Value(m1, e1), Value(m2, e2);
    IdCapacity();
    if v < w {
      OrderPreserved(v, w, DIGITS);
    } else if w < v {
      OrderPreserved(w, v, DIGITS);
      BelowAsymmetric(EncodeId(m2, e2), EncodeId(m1, e1));
    } else if Below(EncodeId(m1, e1), EncodeId(m2, e2)) {
      BelowAsymmetric(EncodeId(m1, e1), EncodeId(m2, e2));
    }
  }

  lemma QuotientBound(v: nat, p: nat, m: nat)
    requires p > 0
    ensures v / p < m <==> v < m * p
  {
    var q, r := v / p, v % p;
    assert v == q * p + r;
    if q < m { AtLeast(m - q, p); Distribute(m, q, p); }
    if m < q { AtLeast(q - m, p); Distribute(q, m, p); }
  }

  lemma LeadingPlace()
    ensures 8 * Power32(25) == ULID_MILLISECONDS * ENTROPY_SPAN
    ensures 32 * Power32(25) == ENCODABLE_MILLISECONDS * ENTROPY_SPAN
  {
    IdCapacity();
  }

  lemma LeadingDigit(v: nat)
    requires v < 32 * Power32(25)
    ensures v / Power32(25) < 32
    ensures Encode(v, DIGITS)[0] == ALPHABET[v / Power32(25)]
  {
    hide Power32;
    QuotientBound(v, Power32(25), 32);
    assert Digit(v, 25) == v / Power32(25);
  }

  /** A clock below 2^48 keeps the leading digit in the ULID range 0-7, and only then. */
  lemma UlidShape(milliseconds: nat, entropy: nat)
    requires entropy < ENTROPY_SPAN && milliseconds < ENCODABLE_MILLISECONDS
    ensures EncodeId(milliseconds, entropy)[0] <= '7' <==> milliseconds < ULID_MILLISECONDS
  {
    hide Power32, Encode;
    var v := Value(milliseconds, entropy);
    LeadingPlace();
    LeadingDigit(v);
    QuotientBound(v, Power32(25), 8);
    var d := v / Power32(25);
    if d < 7 { AlphabetIncreases(d, 7); }
    if 7 < d { AlphabetIncreases(7, d); }
  }
}
