/** What `int(value.strip())` accepts, and decimal rendering: the number in a Content-Length field of
    scripts/smoke/admission_capacity_transport.py. */
module HttpNumber {
  import opened Search
  import opened HttpFraming

  const PLUS: Byte := 43
  const MINUS: Byte := 45

  function Decimal(n: nat): (s: seq<Byte>)
    ensures s != [] && forall i :: 0 <= i < |s| ==> 48 <= s[i] <= 57
  {
    if n < 10 then [48 + n] else Decimal(n / 10) + [48 + n % 10]
  }

  function Zeros(z: nat): (s: seq<Byte>)
    ensures |s| == z && forall i :: 0 <= i < z ==> s[i] == 48
  { seq(z, _ => 48) }

  /** Tab, line feed, vertical tab, form feed, carriage return, space. */
  predicate Blanks(s: seq<Byte>) { forall i :: 0 <= i < |s| ==> s[i] in {9, 10, 11, 12, 13, 32} }

  predicate IsSign(s: seq<Byte>) { s == [] || s == [PLUS] || s == [MINUS] }

  /** Digits with single underscores between them. */
  predicate Grouped(g: seq<Byte>) {
    && g != [] && g[0] != 95 && g[|g| - 1] != 95
    && (forall i :: 0 <= i < |g| ==> 48 <= g[i] <= 57 || g[i] == 95)
    && (forall i :: 0 < i < |g| && g[i] == 95 ==> g[i - 1] != 95)
  }

  /** Without the underscores. */
  function Ungrouped(g: seq<Byte>): (d: seq<Byte>)
    ensures 95 !in d
  {
    if g == [] then []
    else
      var n := |g| - 1;
      Ungrouped(g[..n]) + (if g[n] == 95 then [] else [g[n]])
  }

  function Signed(sign: seq<Byte>, n: int): int { if sign == [MINUS] then -n else n }

  // ---------------------------------------------------------------- values

  lemma {:induction false} DecimalValue(n: nat)
    ensures DigitValue(Decimal(n)) == n
  {
    if n < 10 {
      assert Decimal(n)[..0] == [];
    } else {
      DecimalValue(n / 10);
      assert Decimal(n)[..|Decimal(n)| - 1] == Decimal(n / 10);
    }
  }

  lemma {:induction false} ZerosValue(z: nat, d: seq<Byte>)
    requires AllDigits(d)
    ensures DigitValue(Zeros(z) + d) == DigitValue(d)
    decreases z + |d|
  {
    var s := Zeros(z) + d;
    if d != [] {
      var n := |d| - 1;
      assert s[..|s| - 1] == Zeros(z) + d[..n];
      ZerosValue(z, d[..n]);
    } else if z > 0 {
      assert s[..z - 1] == Zeros(z - 1) + d;
      ZerosValue(z - 1, d);
    }
  }

  lemma {:induction false} UngroupedValue(g: seq<Byte>)
    requires forall i :: 0 <= i < |g| ==> 48 <= g[i] <= 57 || g[i] == 95
    ensures DigitValue(Ungrouped(g)) == DigitValue(g)
  {
    if g == [] {
    } else {
      var n := |g| - 1;
      UngroupedValue(g[..n]);
      if g[n] != 95 {
        assert Ungrouped(g)[..|Ungrouped(g)| - 1] == Ungrouped(g[..n]);
      } else {
        assert Ungrouped(g) == Ungrouped(g[..n]);
      }
    }
  }

  // ---------------------------------------------------------------- trimming

  lemma BlanksSnoc(s: seq<Byte>, b: Byte)
    requires Blanks(s) && IsSpace(b)
    ensures Blanks(s + [b]) && Blanks([b] + s)
  {
  }

  lemma Regroup(a: seq<Byte>, b: seq<Byte>, c: seq<Byte>)
    ensures a + (b + c) == a + b + c
  {
  }

  lemma {:induction false} TrimLeftParts(s: seq<Byte>) returns (left: seq<Byte>)
    ensures s == left + TrimLeft(s) && Blanks(left)
  {
    if s == [] || !IsSpace(s[0]) {
      left := [];
    } else {
      var rest := TrimLeftParts(s[1..]);
      BlanksSnoc(rest, s[0]);
      hide Blanks, IsSpace;
      left := [s[0]] + rest;
      Regroup([s[0]], rest, TrimLeft(s[1..]));
      assert s == [s[0]] + s[1..];
    }
  }

  lemma {:induction false} TrimRightParts(s: seq<Byte>) returns (right: seq<Byte>)
    ensures s == TrimRight(s) + right && Blanks(right)
  {
    if s == [] || !IsSpace(s[|s| - 1]) {
      right := [];
    } else {
      var n := |s| - 1;
      var rest := TrimRightParts(s[..n]);
      BlanksSnoc(rest, s[n]);
      hide Blanks, IsSpace;
      right := rest + [s[n]];
      Regroup(TrimRight(s[..n]), rest, [s[n]]);
      assert s == s[..n] + [s[n]];
    }
  }

  lemma {:induction false} TrimLeftOf(left: seq<Byte>, t: seq<Byte>)
    requires Blanks(left) && t != [] && !IsSpace(t[0])
    ensures TrimLeft(left + t) == t
  {
    if left == [] {
      assert left + t == t;
    } else {
      assert (left + t)[1..] == left[1..] + t;
      TrimLeftOf(left[1..], t);
    }
  }

  lemma {:induction false} TrimRightOf(t: seq<Byte>, right: seq<Byte>)
    requires Blanks(right) && t != [] && !IsSpace(t[|t| - 1])
    ensures TrimRight(t + right) == t
  {
    if right == [] {
      assert t + right == t;
    } else {
      var n := |right| - 1;
      assert (t + right)[..|t| + n] == t + right[..n];
      TrimRightOf(t, right[..n]);
    }
  }

  // ---------------------------------------------------------------- what int accepts

  lemma SplitSign(sign: seq<Byte>, g: seq<Byte>)
    requires IsSign(sign) && Grouped(g)
    ensures var t := sign + g;
            && t != [] && !IsSpace(t[0]) && !IsSpace(t[|t| - 1])
            && (t[0] == PLUS || t[0] == MINUS <==> sign != [])
            && (sign != [] ==> t[1..] == g && t[0] == sign[0]) && (sign == [] ==> t == g)
  {
    var t := sign + g;
    assert t[|t| - 1] == g[|g| - 1];
    assert sign != [] ==> t[1..] == g;
  }

  lemma NumeralOf(sign: seq<Byte>, g: seq<Byte>)
    requires IsSign(sign) && Grouped(g)
    ensures ParseNumeral(sign + g) == Some(Signed(sign, DigitValue(g)))
  {
    hide DigitValue;
    SplitSign(sign, g);
  }

  lemma NumeralOnly(t: seq<Byte>)
    requires ParseNumeral(t).Some?
    ensures exists sign, g ::
              IsSign(sign) && Grouped(g) && t == sign + g && ParseNumeral(t) == Some(Signed(sign, DigitValue(g)))
  {
    hide DigitValue;
    var signed := t != [] && (t[0] == PLUS || t[0] == MINUS);
    var sign, g := if signed then t[..1] else [], if signed then t[1..] else t;
    assert t == sign + g && IsSign(sign) && Grouped(g);
    NumeralOf(sign, g);
  }

  /** Blanks, a sign or none, grouped digits with any number of leading zeros, blanks: a number. */
  lemma ParseIntOf(left: seq<Byte>, sign: seq<Byte>, g: seq<Byte>, right: seq<Byte>, z: nat, n: nat)
    requires Blanks(left) && Blanks(right) && IsSign(sign) && Grouped(g) && Ungrouped(g) == Zeros(z) + Decimal(n)
    ensures ParseInt(left + (sign + g) + right) == Some(Signed(sign, n))
  {
    hide Decimal, DigitValue, TrimLeft, TrimRight, Ungrouped, Blanks, ParseNumeral, IsSpace, Grouped, IsSign, Zeros;
    SplitSign(sign, g);
    TrimBoth(left, sign + g, right);
    NumeralOf(sign, g);
    PlainValue(g, z, n);
  }

  lemma TrimBoth(left: seq<Byte>, t: seq<Byte>, right: seq<Byte>)
    requires Blanks(left) && Blanks(right) && t != [] && !IsSpace(t[0]) && !IsSpace(t[|t| - 1])
    ensures TrimRight(TrimLeft(left + t + right)) == t
  {
    hide TrimLeft, TrimRight, Blanks, IsSpace;
    assert left + t + right == left + (t + right) && (t + right)[0] == t[0];
    TrimLeftOf(left, t + right);
    TrimRightOf(t, right);
  }

  lemma PlainValue(g: seq<Byte>, z: nat, n: nat)
    requires Grouped(g) && Ungrouped(g) == Zeros(z) + Decimal(n)
    ensures DigitValue(g) == n
  {
    hide Decimal, DigitValue, Ungrouped, Zeros;
    UngroupedValue(g);
    ZerosValue(z, Decimal(n));
    DecimalValue(n);
  }

  /** The text is blanks, a sign or none, grouped digits, blanks, and denotes `n`. */
  ghost predicate Denotes(v: seq<Byte>, n: int) {
    exists left, sign, g, right ::
      && Blanks(left) && Blanks(right) && IsSign(sign) && Grouped(g)
      && v == Spelled(left, sign, g, right) && n == Signed(sign, DigitValue(Ungrouped(g)))
  }

  function Spelled(left: seq<Byte>, sign: seq<Byte>, g: seq<Byte>, right: seq<Byte>): seq<Byte> {
    left + (sign + g) + right
  }

  /** And nothing else is one. */
  lemma ParseIntOnly(v: seq<Byte>)
    requires ParseInt(v).Some?
    ensures Denotes(v, ParseInt(v).value)
  {
    var left, t, right := TrimParts(v);
    var sign, g := NumeralParts(t);
    hide *;
    DenotedBy(left, sign, g, right);
  }

  lemma TrimParts(v: seq<Byte>) returns (left: seq<Byte>, t: seq<Byte>, right: seq<Byte>)
    ensures v == left + t + right && Blanks(left) && Blanks(right) && ParseInt(v) == ParseNumeral(t)
  {
    var u := TrimLeft(v);
    t := TrimRight(u);
    assert ParseInt(v) == ParseNumeral(t);
    hide *;
    left := TrimLeftParts(v);
    right := TrimRightParts(u);
    Regroup(left, t, right);
  }

  lemma NumeralParts(t: seq<Byte>) returns (sign: seq<Byte>, g: seq<Byte>)
    requires ParseNumeral(t).Some?
    ensures IsSign(sign) && Grouped(g) && t == sign + g && ParseNumeral(t) == Some(Signed(sign, DigitValue(g)))
  {
    hide *;
    NumeralOnly(t);
    sign, g :| IsSign(sign) && Grouped(g) && t == sign + g && ParseNumeral(t) == Some(Signed(sign, DigitValue(g)));
  }

  lemma DenotedBy(left: seq<Byte>, sign: seq<Byte>, g: seq<Byte>, right: seq<Byte>)
    requires Blanks(left) && Blanks(right) && IsSign(sign) && Grouped(g)
    ensures Denotes(left + (sign + g) + right, Signed(sign, DigitValue(g)))
  {
    GroupedValue(g);
    hide Blanks, IsSign, Grouped, DigitValue, Ungrouped, Signed;
    assert left + (sign + g) + right == Spelled(left, sign, g, right);
  }

  lemma GroupedValue(g: seq<Byte>)
    requires Grouped(g)
    ensures DigitValue(Ungrouped(g)) == DigitValue(g)
  {
    UngroupedValue(g);
  }

  lemma ParseDecimal(left: seq<Byte>, n: nat, right: seq<Byte>)
    requires Blanks(left) && Blanks(right)
    ensures ParseInt(left + Decimal(n) + right) == Some(n)
  {
    hide ParseInt, Blanks;
    DecimalIsGrouped(n);
    ParseIntOf(left, [], Decimal(n), right, 0, n);
    assert [] + Decimal(n) == Decimal(n);
  }

  lemma ParseNegative(n: int)
    requires n >= 0
    ensures ParseInt([SP, MINUS] + Decimal(n)) == Some(-n)
  {
    hide ParseInt;
    DecimalIsGrouped(n);
    ParseIntOf([SP], [MINUS], Decimal(n), [], 0, n);
    assert [SP] + ([MINUS] + Decimal(n)) + [] == [SP, MINUS] + Decimal(n);
  }

  lemma DecimalIsGrouped(n: nat)
    ensures Grouped(Decimal(n)) && Ungrouped(Decimal(n)) == Zeros(0) + Decimal(n)
  {
    hide Decimal;
    DigitsUngrouped(Decimal(n));
  }

  lemma {:induction false} DigitsUngrouped(d: seq<Byte>)
    requires AllDigits(d)
    ensures Ungrouped(d) == d
  {
    if d == [] {
    } else {
      DigitsUngrouped(d[..|d| - 1]);
    }
  }
}
