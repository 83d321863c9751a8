/** String helpers shared by the search, the label parser and the alert messages:
    character-wise lower-casing, substring containment (Python's `in` on strings)
    and decimal rendering of counts (Python's `str` on a non-negative int). */
module Text {

  /** The capitals `str.lower` maps in this model: ASCII A-Z and the Latin-1
      capitals U+00C0..U+00DE except the multiplication sign U+00D7. */
  predicate CoveredCapital(c: char)
  {
    'A' <= c <= 'Z' || ('\U{00C0}' <= c <= '\U{00DE}' && c != '\U{00D7}')
  }

  /** Lower-case mapping of one character: each covered capital moves to the
      letter 32 code points up; every other character is left as it is. */
  function LowerChar(c: char): (r: char)
    ensures !CoveredCapital(r)
    ensures !CoveredCapital(c) ==> r == c
    ensures 'A' <= c <= 'Z' ==> 'a' <= r <= 'z'
  {
    if CoveredCapital(c) then (c as int + 32) as char else c
  }

  /** Lower-casing a character twice is lower-casing it once. */
  lemma LowerCharIdempotent(c: char)
    ensures LowerChar(LowerChar(c)) == LowerChar(c)
  {
  }

  /** The capitals of Spanish names and words map to their lower-case letters:
      Á É Í Ó Ú Ñ Ü to á é í ó ú ñ ü, and the ASCII capitals to their small letters. */
  lemma SpanishCapitals()
    ensures LowerChar('\U{00C1}') == '\U{00E1}' && LowerChar('\U{00C9}') == '\U{00E9}'
    ensures LowerChar('\U{00CD}') == '\U{00ED}' && LowerChar('\U{00D3}') == '\U{00F3}'
    ensures LowerChar('\U{00DA}') == '\U{00FA}' && LowerChar('\U{00D1}') == '\U{00F1}'
    ensures LowerChar('\U{00DC}') == '\U{00FC}'
    ensures LowerChar('A') == 'a' && LowerChar('N') == 'n' && LowerChar('Z') == 'z'
  {
  }

  /** `s.lower()`, character by character: same length, no covered capital left,
      and every other character kept in place. */
  function Lower(s: string): (r: string)
    ensures |r| == |s|
    ensures forall i :: 0 <= i < |r| ==> !CoveredCapital(r[i])
    ensures forall i :: 0 <= i < |s| && !CoveredCapital(s[i]) ==> r[i] == s[i]
  {
    seq(|s|, i requires 0 <= i < |s| => LowerChar(s[i]))
  }

  /** Lower-casing twice is lower-casing once. */
  lemma LowerIdempotent(s: string)
    ensures Lower(Lower(s)) == Lower(s)
  {
  }

  /** `q` occurs in `s` starting at index `i`. */
  predicate OccursAt(s: string, q: string, i: int)
  {
    0 <= i && i + |q| <= |s| && s[i..i + |q|] == q
  }

  /** Python's `q in s`: some suffix of `s` starts with `q`. The empty string
      occurs in every string. */
  function Contains(s: string, q: string): (b: bool)
    ensures q == [] ==> b
    ensures b ==> |q| <= |s|
    decreases |s|
  {
    (|q| <= |s| && s[..|q|] == q) || (|s| > 0 && Contains(s[1..], q))
  }

  /** A successful scan has found an occurrence. */
  lemma {:induction false} OccurrenceFound(s: string, q: string) returns (i: nat)
    requires Contains(s, q)
    ensures OccursAt(s, q, i)
    decreases |s|
  {
    if |q| <= |s| && s[..|q|] == q {
      i := 0;
    } else {
      var k := OccurrenceFound(s[1..], q);
      assert s[1..][k..k + |q|] == s[k + 1..k + 1 + |q|];
      i := k + 1;
    }
  }

  /** The scan finds every occurrence. */
  lemma {:induction false} OccurrenceContained(s: string, q: string, i: nat)
    requires OccursAt(s, q, i)
    ensures Contains(s, q)
    decreases i
  {
    if i > 0 {
      assert s[1..][i - 1..i - 1 + |q|] == s[i..i + |q|];
      OccurrenceContained(s[1..], q, i - 1);
    }
  }

  /** The recursive scan agrees with the positional definition of an occurrence. */
  lemma ContainsIff(s: string, q: string)
    ensures Contains(s, q) <==> exists i :: OccursAt(s, q, i)
  {
    if Contains(s, q) {
      var i := OccurrenceFound(s, q);
    }
    forall i | OccursAt(s, q, i)
      ensures Contains(s, q)
    {
      OccurrenceContained(s, q, i);
    }
  }

  /** The character for a decimal digit. */
  function DigitChar(d: nat): (c: char)
    requires d < 10
    ensures '0' <= c <= '9'
    ensures c as int - '0' as int == d
  {
    ('0' as int + d) as char
  }

  predicate AllDigits(s: string)
  {
    forall i :: 0 <= i < |s| ==> '0' <= s[i] <= '9'
  }

  /** The number a string of decimal digits denotes (most significant digit first). */
  function DecimalValue(s: string): nat
    requires AllDigits(s)
  {
    if s == [] then 0
    else DecimalValue(s[..|s| - 1]) * 10 + (s[|s| - 1] as int - '0' as int)
  }

  /** `str(n)` for a non-negative integer: its decimal digits without leading zeros. */
  function NatToString(n: nat): (s: string)
    ensures |s| >= 1 && AllDigits(s)
    ensures |s| > 1 ==> s[0] != '0'
    decreases n
  {
    if n < 10 then [DigitChar(n)] else NatToString(n / 10) + [DigitChar(n % 10)]
  }

  /** Reading the rendered digits back gives the number. */
  lemma {:induction false} NatToStringRoundTrip(n: nat)
    ensures DecimalValue(NatToString(n)) == n
    decreases n
  {
    if n >= 10 {
      NatToStringRoundTrip(n / 10);
      var s := NatToString(n);
      assert s[..|s| - 1] == NatToString(n / 10);
    }
  }

  /** Two digit strings, each followed by text that opens with a space, are read
      apart unambiguously: the digits end where the space begins. */
  lemma DigitsBeforeSpace(d1: string, d2: string, t1: string, t2: string)
    requires AllDigits(d1) && AllDigits(d2)
    requires t1 != [] && t2 != [] && t1[0] == ' ' && t2[0] == ' '
    requires d1 + t1 == d2 + t2
    ensures d1 == d2 && t1 == t2
  {
    assert d1 == (d1 + t1)[..|d1|];
    assert d2 == (d2 + t2)[..|d2|];
  }

  function Pow10(k: nat): (p: nat)
    ensures p >= 1
  {
    if k == 0 then 1 else 10 * Pow10(k - 1)
  }

  /** `n` written with exactly `width` decimal digits, zero-padded on the left
      (the `%Y`, `%m` and `%d` fields of `strftime`). */
  function PaddedDigits(n: nat, width: nat): (s: string)
    requires n < Pow10(width)
    ensures |s| == width && AllDigits(s)
  {
    if width == 0 then "" else PaddedDigits(n / 10, width - 1) + [DigitChar(n % 10)]
  }

  /** Zero padding does not change the value the digits denote. */
  lemma {:induction false} PaddedDigitsRoundTrip(n: nat, width: nat)
    requires n < Pow10(width)
    ensures DecimalValue(PaddedDigits(n, width)) == n
    decreases width
  {
    if width > 0 {
      PaddedDigitsRoundTrip(n / 10, width - 1);
      var s := PaddedDigits(n, width);
      assert s[..|s| - 1] == PaddedDigits(n / 10, width - 1);
    }
  }
}
