/**
 * The parts of the Java platform that the change-log code leans on: 32-bit ints,
 * the exceptions it throws or catches, Integer.parseInt, and the mutable
 * java.util lists that ReleaseItem either copies or wraps.
 */
module JavaLang {
  import opened Wrappers

  const INT_MIN: int := -0x8000_0000
  const INT_MAX: int := 0x7fff_ffff

  /** Java's `int`. */
  type Int32 = x: int | INT_MIN <= x <= INT_MAX

  /** Two's-complement truncation to 32 bits, as Java int arithmetic does on overflow. */
  function Wrap32(x: int): (r: Int32)
    ensures (r - x) % 0x1_0000_0000 == 0
    ensures INT_MIN <= x <= INT_MAX ==> r == x
  {
    (x - INT_MIN) % 0x1_0000_0000 + INT_MIN
  }

  /** The exceptions that the change-log code raises, rethrows or swallows. */
  datatype Exception =
    | NullPointerException(message: Option<string>)
    | XmlPullParserException
    | IllegalStateException(cause: Exception)
    | UnsupportedOperationException

  // ---------------------------------------------------------------------
  // Integer.parseInt(String) in radix 10
  // ---------------------------------------------------------------------

  predicate IsDigit(c: char) {
    '0' <= c <= '9'
  }

  predicate AllDigits(s: string) {
    forall i :: 0 <= i < |s| ==> IsDigit(s[i])
  }

  /** The value of a string of decimal digits, most significant first. */
  function DigitsValue(s: string): (v: nat)
    requires AllDigits(s)
  {
    if s == [] then 0 else DigitsValue(s[..|s| - 1]) * 10 + (s[|s| - 1] as int - '0' as int)
  }

  /**
   * Integer.parseInt: an optional '+' or '-', then at least one digit, and a value
   * that fits in an int. `None` stands for a NumberFormatException, which is also
   * what a null argument raises.
   */
  function ParseInt(s: Option<string>): (r: Option<Int32>)
    ensures r.Some? ==> s.Some? && |s.value| > 0
  {
    match s
    case None => None
    case Some(t) =>
      if |t| == 0 then None
      else
        var digits := if t[0] == '-' || t[0] == '+' then t[1..] else t;
        if |digits| == 0 || !AllDigits(digits) then None
        else
          var v: int := if t[0] == '-' then 0 - DigitsValue(digits) as int else DigitsValue(digits);
          if INT_MIN <= v <= INT_MAX then Some(v) else None
  }

  /** Decimal digits of a natural number (Integer.toString without the sign). */
  function NatDigits(n: nat): (s: string)
    ensures |s| > 0 && AllDigits(s)
  {
    var d := ['0' + (n % 10) as char];
    if n < 10 then d else NatDigits(n / 10) + d
  }

  /** Integer.toString(n). */
  function IntToString(n: int): string {
    if n < 0 then "-" + NatDigits(-n) else NatDigits(n)
  }

  lemma {:induction false} NatDigitsValue(n: nat)
    ensures DigitsValue(NatDigits(n)) == n
  {
    var s := NatDigits(n);
    if n >= 10 {
      NatDigitsValue(n / 10);
      assert s[..|s| - 1] == NatDigits(n / 10);
    }
  }

  /** parseInt reads back every int that Integer.toString writes. */
  lemma ParseIntRoundTrip(n: Int32)
    ensures ParseInt(Some(IntToString(n))) == Some(n)
  {
    var m: int := n;
    NatDigitsValue(if m < 0 then -m else m);
    if m < 0 {
      assert IntToString(n)[1..] == NatDigits(-m);
    } else {
      assert NatDigits(n)[0] != '-' && NatDigits(n)[0] != '+';
    }
  }

  // ---------------------------------------------------------------------
  // java.util lists of strings
  // ---------------------------------------------------------------------

  /** A java.util.ArrayList<String>: a mutable list object that can be shared. */
  class StringList {
    var elems: seq<string>

    constructor FromSeq(s: seq<string>)
      ensures elems == s
    {
      elems := s;
    }

    /** `new ArrayList<>(other)`: a fresh list with the same elements. */
    constructor Copy(other: StringList)
      ensures elems == other.elems
    {
      elems := other.elems;
    }

    method Add(x: string)
      modifies this
      ensures elems == old(elems) + [x]
    {
      elems := elems + [x];
    }
  }

  /** Collections.unmodifiableList(list): a read-only view that still shows later writes to `backing`. */
  class UnmodifiableList {
    const backing: StringList

    constructor (backing: StringList)
      ensures this.backing == backing
    {
      this.backing := backing;
    }

    function Elems(): seq<string>
      reads backing
    {
      backing.elems
    }

    /** Every write through the view throws, and neither the view nor its backing list changes. */
    method Add(x: string) returns (thrown: Exception)
      ensures thrown == UnsupportedOperationException
    {
      thrown := UnsupportedOperationException;
    }
  }
}
