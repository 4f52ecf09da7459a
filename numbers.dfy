/**
 * The 32-bit unsigned integers of the frame geometry and the decimal
 * conversion `str::parse::<u32>` performs on one coordinate token.
 */
module Numbers {
  import opened Wrappers

  const U32_LIMIT: nat := 0x1_0000_0000

  /** Rust's `u32`. */
  type U32 = n: nat | n < 0x1_0000_0000

  predicate IsDigit(c: char) {
    '0' <= c <= '9'
  }

  predicate AllDigits(s: string) {
    forall i :: 0 <= i < |s| ==> IsDigit(s[i])
  }

  function DigitValue(c: char): (d: nat)
    requires IsDigit(c)
    ensures d < 10
  {
    (c as int - '0' as int) as nat
  }

  function DigitChar(d: nat): (c: char)
    requires d < 10
    ensures IsDigit(c) && DigitValue(c) == d
  {
    ('0' as int + d) as char
  }

  /** The value of a decimal digit string, most significant digit first. */
  function DigitsValue(s: string): nat
    requires AllDigits(s)
  {
    if s == [] then 0 else DigitsValue(s[..|s| - 1]) * 10 + DigitValue(s[|s| - 1])
  }

  /** The shortest decimal rendering of `n`. */
  function Show(n: nat): (s: string)
    ensures s != [] && AllDigits(s)
  {
    if n < 10 then [DigitChar(n)] else Show(n / 10) + [DigitChar(n % 10)]
  }

  /** Digit by digit: the value of `s`, or nothing when it holds a non-digit. */
  function ReadDigits(s: string): (r: Option<nat>)
    ensures r.Some? && s != [] ==> IsDigit(s[0]) && IsDigit(s[|s| - 1])
  {
    if s == [] then Some(0)
    else if !IsDigit(s[|s| - 1]) then None
    else
      match ReadDigits(s[..|s| - 1])
      case None => None
      case Some(v) => Some(v * 10 + DigitValue(s[|s| - 1]))
  }

  /** Reading succeeds exactly on digit strings, with their positional value. */
  lemma {:induction false} ReadDigitsMeaning(s: string)
    ensures ReadDigits(s) == if AllDigits(s) then Some(DigitsValue(s)) else None
  {
    if s != [] {
      var init := s[..|s| - 1];
      ReadDigitsMeaning(init);
      if IsDigit(s[|s| - 1]) && !AllDigits(s) {
        var i :| 0 <= i < |s| && !IsDigit(s[i]);
        assert !IsDigit(init[i]);
      }
    }
  }

  /**
   * `u32::from_str`: an optional leading `+`, then one or more decimal
   * digits whose value fits in 32 bits; anything else is a failure.
   */
  function ParseU32(s: string): (r: Option<U32>)
    ensures s == [] || s == "+" ==> r == None
  {
    var digits := if s != [] && s[0] == '+' then s[1..] else s;
    if digits == [] then None
    else
      match ReadDigits(digits)
      case None => None
      case Some(v) => if v < U32_LIMIT then Some(v) else None
  }

  /** The same three cases stated on the digit string itself. */
  lemma ParseU32Meaning(s: string)
    ensures var digits := if s != [] && s[0] == '+' then s[1..] else s;
            ParseU32(s) == if digits == [] || !AllDigits(digits) || DigitsValue(digits) >= U32_LIMIT then None
                           else Some(DigitsValue(digits))
  {
    ReadDigitsMeaning(if s != [] && s[0] == '+' then s[1..] else s);
  }

  lemma {:induction false} DigitsValueOfShow(n: nat)
    ensures DigitsValue(Show(n)) == n
  {
    if n >= 10 {
      var s := Show(n);
      assert s[..|s| - 1] == Show(n / 10);
      DigitsValueOfShow(n / 10);
    }
  }

  /** Every `u32` is read back from its decimal rendering. */
  lemma ParseShow(n: U32)
    ensures ParseU32(Show(n)) == Some(n)
  {
    DigitsValueOfShow(n);
    ParseU32Meaning(Show(n));
  }

  /** A leading `+` is accepted. */
  lemma ParsePlusShow(n: U32)
    ensures ParseU32("+" + Show(n)) == Some(n)
  {
    DigitsValueOfShow(n);
    assert ("+" + Show(n))[1..] == Show(n);
    ParseU32Meaning("+" + Show(n));
  }

  /** A value that does not fit in 32 bits is rejected, not truncated. */
  lemma ParseRejectsOverflow(n: nat)
    requires n >= U32_LIMIT
    ensures ParseU32(Show(n)) == None
  {
    DigitsValueOfShow(n);
    ParseU32Meaning(Show(n));
  }

  /** A token that holds a character other than a digit (besides one leading `+`) is rejected. */
  lemma ParseRejectsNonDigit(s: string, i: nat)
    requires i < |s| && !IsDigit(s[i]) && !(i == 0 && s[i] == '+')
    ensures ParseU32(s) == None
  {
    ParseU32Meaning(s);
    if s[0] == '+' {
      assert !IsDigit(s[1..][i - 1]);
    }
  }
}
