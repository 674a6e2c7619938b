/** Entity handles: the `Entity(usize)` wrapper, its pairing function and its decimal parse. */
module EntityId {
  import opened Wrappers

  /** An entity is its integer identity and nothing else; equality is integer equality. */
  type Entity = nat

  /** The largest `usize` on a 64-bit target. */
  const USIZE_MAX: nat := 0xFFFF_FFFF_FFFF_FFFF

  // ---------------------------------------------------------------------------
  // combine_key

  /** `Entity::combine_key`: Szudzik's pairing of `self` (a) with `other` (b). The key lies
      between the square of the larger component and just below the next square, so the
      larger component is determined by the key. */
  function CombineKey(a: Entity, b: Entity): (r: nat)
    ensures Max(a, b) * Max(a, b) <= r < (Max(a, b) + 1) * (Max(a, b) + 1)
  {
    var m := Max(a, b);
    assert (m + 1) * (m + 1) == m * m + 2 * m + 1;
    if a >= b then a * a + a + b else a + b * b
  }

  function Max(a: nat, b: nat): nat
  {
    if a >= b then a else b
  }

  lemma SquareMonotone(x: nat, y: nat)
    requires x <= y
    ensures x * x <= y * y
  {
    assert x * x <= x * y by { assert x * (y - x) >= 0; }
    assert x * y <= y * y by { assert (y - x) * y >= 0; }
  }

  /** The pairing is injective: different pairs of entities never combine to the same key. */
  lemma CombineKeyInjective(a: Entity, b: Entity, c: Entity, d: Entity)
    requires CombineKey(a, b) == CombineKey(c, d)
    ensures a == c && b == d
  {
    var m1, m2 := Max(a, b), Max(c, d);
    if m1 < m2 {
      SquareMonotone(m1 + 1, m2);
      assert false;
    } else if m2 < m1 {
      SquareMonotone(m2 + 1, m1);
      assert false;
    }
    assert m1 == m2;
  }

  /** The pairing is order-dependent: swapping two different entities changes the key. */
  lemma CombineKeyAsymmetric(a: Entity, b: Entity)
    requires a != b
    ensures CombineKey(a, b) != CombineKey(b, a)
  {
    if CombineKey(a, b) == CombineKey(b, a) {
      CombineKeyInjective(a, b, b, a);
    }
  }

  /** The regression the repository guards: re-combining a combined key with one of its
      inputs does not give the combined key back. */
  lemma CombineKeyRegression()
    ensures CombineKey(CombineKey(1, 2), 1) != CombineKey(1, 2)
  {
    assert CombineKey(1, 2) == 5;
    assert CombineKey(5, 1) == 31;
  }

  // ---------------------------------------------------------------------------
  // from_str

  predicate IsDigit(c: char)
  {
    '0' <= c <= '9'
  }

  predicate AllDigits(s: string)
  {
    forall i :: 0 <= i < |s| ==> IsDigit(s[i])
  }

  function DigitValue(c: char): nat
    requires IsDigit(c)
  {
    c as int - '0' as int
  }

  /** The number a string of decimal digits denotes (leading zeros allowed). */
  function DecimalValue(s: string): nat
    requires AllDigits(s)
  {
    if s == [] then 0 else DecimalValue(s[..|s| - 1]) * 10 + DigitValue(s[|s| - 1])
  }

  /** `usize::from_str` accepts one optional leading `+`; a `-` is an invalid digit. */
  function UnsignedDigits(s: string): string
  {
    if |s| > 0 && s[0] == '+' then s[1..] else s
  }

  const INVALID_ENTITY_STRING: string := "Invalid entity string"

  /** `Entity::from_str`: `s.parse::<usize>()`, with every parse error reported as the one
      message. Empty input, a lone sign, a non-digit and a value above `usize::MAX` all fail. */
  function FromStr(s: string): (r: Result<Entity, string>)
    ensures r.Ok? ==> r.value <= USIZE_MAX
    ensures r.Err? ==> r.error == INVALID_ENTITY_STRING
    ensures s == [] || s[0] == '-' ==> r.Err?
    ensures r.Ok? ==> s != [] && (IsDigit(s[0]) || s[0] == '+')
  {
    var d := UnsignedDigits(s);
    if |d| > 0 && AllDigits(d) && DecimalValue(d) <= USIZE_MAX then Ok(DecimalValue(d))
    else Err(INVALID_ENTITY_STRING)
  }

  /** The shortest decimal rendering of `n` (Rust's `Display` for `usize`). */
  function ToDecimal(n: nat): (r: string)
    ensures |r| > 0 && AllDigits(r)
    ensures |r| > 1 ==> r[0] != '0'
  {
    var c := ['0' + (n % 10) as char];
    if n < 10 then c else ToDecimal(n / 10) + c
  }

  lemma {:induction false} DecimalValueOfToDecimal(n: nat)
    ensures DecimalValue(ToDecimal(n)) == n
  {
    var s := ToDecimal(n);
    if n >= 10 {
      DecimalValueOfToDecimal(n / 10);
      assert s[..|s| - 1] == ToDecimal(n / 10);
    }
  }

  /** Parsing inverts printing on every `usize`, with or without a leading `+`. */
  lemma FromStrRoundTrip(n: nat)
    requires n <= USIZE_MAX
    ensures FromStr(ToDecimal(n)) == Ok(n)
    ensures FromStr("+" + ToDecimal(n)) == Ok(n)
  {
    DecimalValueOfToDecimal(n);
    assert UnsignedDigits("+" + ToDecimal(n)) == ToDecimal(n);
  }

  /** A number above `usize::MAX` is rejected rather than wrapped. */
  lemma FromStrRejectsOverflow(n: nat)
    requires n > USIZE_MAX
    ensures FromStr(ToDecimal(n)) == Err(INVALID_ENTITY_STRING)
  {
    DecimalValueOfToDecimal(n);
  }

  /** Leading zeros are accepted. */
  lemma FromStrLeadingZeros()
    ensures FromStr("007") == Ok(7)
    ensures FromStr("+") == Err(INVALID_ENTITY_STRING)
  {
    assert DecimalValue("007") == DecimalValue("00") * 10 + 7;
    assert DecimalValue("00") == DecimalValue("0") * 10;
    assert DecimalValue("0") == DecimalValue("") * 10;
  }
}
