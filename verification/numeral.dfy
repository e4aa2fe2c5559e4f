/**
  The index encoders. Every script renders its running counter with Python's
  `str(n)`, either as it is (Arabic digits) or mapped digit by digit through the
  ten-letter table `༠༡༢༣༤༥༦༧༨༩`, sometimes followed by the closing bracket `༽`.
 */
module Numeral {
  import opened Wrappers
  import opened Text

  /** The source's digit table, index d holding the Tibetan digit for d. */
  const TibetanDigits: string := "༠༡༢༣༤༥༦༧༨༩"
  const AsciiDigits: string := "0123456789"
  /** The closing bracket written after every index. */
  const CloseBracket: string := "༽"

  /** The regex class `[༠-༩]`: U+0F20 to U+0F29. */
  predicate IsTibetanDigit(c: char) {
    '\U{0F20}' <= c <= '\U{0F29}'
  }

  /** A match of `^[༠-༩]` (and so of `^[༠-༩]+`) at the start of `s`. */
  predicate StartsWithTibetanDigit(s: string) {
    |s| > 0 && IsTibetanDigit(s[0])
  }

  /** `re.sub("^[༠-༩]+", "", s)`: the leading run of Tibetan digits removed. */
  function DropLeadingDigits(s: string): (r: string)
    ensures |r| <= |s| && r == s[|s| - |r|..]
    ensures forall i | 0 <= i < |s| - |r| :: IsTibetanDigit(s[i])
    ensures |r| == 0 || !IsTibetanDigit(r[0])
  {
    if |s| > 0 && IsTibetanDigit(s[0]) then DropLeadingDigits(s[1..]) else s
  }

  /** Where the run of Tibetan digits starting at index `i` ends. */
  function DigitEnd(s: string, i: nat): (j: nat)
    requires i <= |s|
    ensures i <= j <= |s|
    decreases |s| - i
  {
    if i < |s| && IsTibetanDigit(s[i]) then DigitEnd(s, i + 1) else i
  }

  /** The run is digits, and all of them. */
  lemma {:induction false} DigitEndIff(s: string, i: nat, j: nat)
    requires i <= j <= |s|
    ensures DigitEnd(s, i) == j <==> (forall k | i <= k < j :: IsTibetanDigit(s[k])) && (j == |s| || !IsTibetanDigit(s[j]))
    decreases |s| - i
  {
    if i < |s| && IsTibetanDigit(s[i]) && i < j {
      DigitEndIff(s, i + 1, j);
    }
  }

  lemma {:induction false} DropDigitRun(digits: string, rest: string)
    requires forall i | 0 <= i < |digits| :: IsTibetanDigit(digits[i])
    requires |rest| == 0 || !IsTibetanDigit(rest[0])
    ensures DropLeadingDigits(digits + rest) == rest
    decreases |digits|
  {
    if |digits| == 0 {
      assert digits + rest == rest;
    } else {
      assert (digits + rest)[1..] == digits[1..] + rest;
      DropDigitRun(digits[1..], rest);
    }
  }

  predicate IsDigitSeq(ds: seq<nat>) {
    forall i | 0 <= i < |ds| :: ds[i] < 10
  }

  /** What `str(n)` writes: at least one digit, no leading zero. */
  predicate Canonical(ds: seq<nat>) {
    1 <= |ds| && IsDigitSeq(ds) && (|ds| > 1 ==> ds[0] != 0)
  }

  /** The decimal digits of `n`, most significant first, as `str(n)` has them. */
  function Digits(n: nat): (ds: seq<nat>)
    ensures Canonical(ds)
  {
    if n < 10 then [n] else Digits(n / 10) + [n % 10]
  }

  /** The number a digit sequence denotes in base ten. */
  function Value(ds: seq<nat>): nat
  {
    if |ds| == 0 then 0 else Value(ds[..|ds| - 1]) * 10 + ds[|ds| - 1]
  }

  function Pow10(k: nat): nat
  {
    if k == 0 then 1 else 10 * Pow10(k - 1)
  }

  lemma {:induction false} ValueOfDigits(n: nat)
    ensures Value(Digits(n)) == n
  {
    if n >= 10 {
      var ds := Digits(n / 10) + [n % 10];
      assert ds[..|ds| - 1] == Digits(n / 10);
      ValueOfDigits(n / 10);
    }
  }

  lemma {:induction false} ValueAtLeastOne(ds: seq<nat>)
    requires 1 <= |ds| && ds[0] != 0
    ensures Value(ds) >= 1
    decreases |ds|
  {
    if |ds| > 1 {
      ValueAtLeastOne(ds[..|ds| - 1]);
    }
  }

  /** `str` is a bijection between numbers and canonical digit strings. */
  lemma {:induction false} DigitsOfValue(ds: seq<nat>)
    requires Canonical(ds)
    ensures Digits(Value(ds)) == ds
    decreases |ds|
  {
    if |ds| > 1 {
      var init := ds[..|ds| - 1];
      assert init[0] == ds[0];
      ValueAtLeastOne(init);
      DigitsOfValue(init);
      assert ds == init + [ds[|ds| - 1]];
    }
  }

  /** One digit per decimal place: `n` has exactly `|Digits(n)|` digits. */
  lemma {:induction false} DigitCount(n: nat)
    ensures n < Pow10(|Digits(n)|)
    ensures n >= 1 ==> Pow10(|Digits(n)| - 1) <= n
  {
    if n >= 10 {
      DigitCount(n / 10);
    }
  }

  /** Map each digit through a ten-letter alphabet. */
  function Spell(ds: seq<nat>, alphabet: string): (s: string)
    requires IsDigitSeq(ds) && |alphabet| == 10
    ensures |s| == |ds|
  {
    seq(|ds|, i requires 0 <= i < |ds| => alphabet[ds[i]])
  }

  predicate Distinct(alphabet: string) {
    forall i, j | 0 <= i < j < |alphabet| :: alphabet[i] != alphabet[j]
  }

  /** The position of `c` in the alphabet, if it is one of its letters. */
  function DigitOf(c: char, alphabet: string): (r: Option<nat>)
    ensures r.Some? ==> r.value < |alphabet| && alphabet[r.value] == c
    ensures r.None? ==> forall i | 0 <= i < |alphabet| :: alphabet[i] != c
  {
    if |alphabet| == 0 then None
    else if alphabet[|alphabet| - 1] == c then Some(|alphabet| - 1)
    else DigitOf(c, alphabet[..|alphabet| - 1])
  }

  /** Read a digit string back into digit values; None on a foreign letter. */
  function Unspell(s: string, alphabet: string): (r: Option<seq<nat>>)
    ensures r.Some? ==> |r.value| == |s|
  {
    if |s| == 0 then Some([])
    else match (Unspell(s[..|s| - 1], alphabet), DigitOf(s[|s| - 1], alphabet))
      case (Some(init), Some(d)) => Some(init + [d])
      case _ => None
  }

  lemma {:induction false} UnspellSpell(ds: seq<nat>, alphabet: string)
    requires IsDigitSeq(ds) && |alphabet| == 10 && Distinct(alphabet)
    ensures Unspell(Spell(ds, alphabet), alphabet) == Some(ds)
    decreases |ds|
  {
    if |ds| > 0 {
      var s := Spell(ds, alphabet);
      var init := ds[..|ds| - 1];
      assert s[..|s| - 1] == Spell(init, alphabet);
      UnspellSpell(init, alphabet);
      var d := DigitOf(s[|s| - 1], alphabet);
      assert d == Some(ds[|ds| - 1]);
      assert ds == init + [ds[|ds| - 1]];
    }
  }

  lemma {:induction false} SpellUnspell(s: string, alphabet: string)
    requires |alphabet| == 10 && Unspell(s, alphabet).Some?
    ensures IsDigitSeq(Unspell(s, alphabet).value)
    ensures Spell(Unspell(s, alphabet).value, alphabet) == s
    decreases |s|
  {
    if |s| > 0 {
      SpellUnspell(s[..|s| - 1], alphabet);
      assert s == s[..|s| - 1] + [s[|s| - 1]];
    }
  }

  lemma TibetanTable()
    ensures |TibetanDigits| == 10 && Distinct(TibetanDigits)
    ensures forall d | 0 <= d < 10 :: TibetanDigits[d] as int == 0x0F20 + d
  {
  }

  lemma AsciiTable()
    ensures |AsciiDigits| == 10 && Distinct(AsciiDigits)
    ensures forall d | 0 <= d < 10 :: AsciiDigits[d] as int == '0' as int + d
  {
  }

  /** `int_to_tibetan_numeral(n)`: `str(n)` mapped through the Tibetan table. */
  function Tibetan(n: nat): string
  {
    TibetanTable();
    Spell(Digits(n), TibetanDigits)
  }

  /** `str(n)`, the Arabic index some scripts write instead. */
  function Decimal(n: nat): string
  {
    AsciiTable();
    Spell(Digits(n), AsciiDigits)
  }

  /** Read a number written in Tibetan digits (None for the empty string or a
      foreign letter). */
  function DecodeTibetan(s: string): Option<nat>
  {
    if |s| == 0 then None
    else match Unspell(s, TibetanDigits)
      case Some(ds) => Some(Value(ds))
      case None => None
  }

  function DecodeDecimal(s: string): Option<nat>
  {
    if |s| == 0 then None
    else match Unspell(s, AsciiDigits)
      case Some(ds) => Some(Value(ds))
      case None => None
  }

  /** The Tibetan encoding has one letter per decimal digit, each a Tibetan
      digit, with no superfluous leading zero. */
  lemma TibetanShape(n: nat)
    ensures |Tibetan(n)| == |Digits(n)| == |Decimal(n)|
    ensures forall i | 0 <= i < |Tibetan(n)| :: IsTibetanDigit(Tibetan(n)[i])
    ensures forall i | 0 <= i < |Tibetan(n)| :: Tibetan(n)[i] as int - 0x0F20 == Decimal(n)[i] as int - '0' as int
    ensures n < Pow10(|Tibetan(n)|)
    ensures n >= 1 ==> Pow10(|Tibetan(n)| - 1) <= n
    ensures |Tibetan(n)| > 1 ==> Tibetan(n)[0] != '\U{0F20}'
  {
    TibetanTable();
    AsciiTable();
    DigitCount(n);
  }

  /** Decoding inverts the encoder. */
  lemma TibetanRoundTrip(n: nat)
    ensures DecodeTibetan(Tibetan(n)) == Some(n)
  {
    TibetanTable();
    UnspellSpell(Digits(n), TibetanDigits);
    ValueOfDigits(n);
  }

  /** ...and the encoder inverts decoding on every canonical numeral. */
  lemma TibetanOfDecoded(s: string)
    requires DecodeTibetan(s).Some?
    requires |s| == 1 || s[0] != '\U{0F20}'
    ensures Tibetan(DecodeTibetan(s).value) == s
  {
    TibetanTable();
    var ds := Unspell(s, TibetanDigits).value;
    SpellUnspell(s, TibetanDigits);
    assert Spell(ds, TibetanDigits)[0] == TibetanDigits[ds[0]];
    assert |ds| > 1 ==> ds[0] != 0;
    DigitsOfValue(ds);
  }

  lemma DecimalRoundTrip(n: nat)
    ensures DecodeDecimal(Decimal(n)) == Some(n)
  {
    AsciiTable();
    UnspellSpell(Digits(n), AsciiDigits);
    ValueOfDigits(n);
  }

  /** Different counters get different numerals. */
  lemma TibetanInjective(m: nat, n: nat)
    requires Tibetan(m) == Tibetan(n)
    ensures m == n
  {
    TibetanRoundTrip(m);
    TibetanRoundTrip(n);
  }

  /** `f"{tib}༽ "`: the index prefix of the Tibetan-numbered scripts. */
  function Header(n: nat): string
  {
    Tibetan(n) + CloseBracket + " "
  }

  /** `f"{n}༽ "`: the index prefix of the Arabic-numbered scripts. */
  function ArabicHeader(n: nat): string
  {
    Decimal(n) + CloseBracket + " "
  }

  /** `convert_to_tibetan_number` / `get_tibetan_number`: digits then `༽`. */
  function Bracketed(n: nat): string
  {
    Tibetan(n) + CloseBracket
  }

  /** The bracketed index is the Tibetan numeral followed by exactly one `༽`:
      the bracket occurs only at the end, and what precedes it decodes back to
      the counter. */
  lemma BracketedReadsBack(n: nat)
    ensures var b := Bracketed(n);
            && |b| == |Digits(n)| + 1
            && b[|b| - 1] == '༽'
            && (forall i | 0 <= i < |b| - 1 :: IsTibetanDigit(b[i]) && b[i] != '༽')
            && DecodeTibetan(b[..|b| - 1]) == Some(n)
  {
    var b := Bracketed(n);
    TibetanShape(n);
    assert b[..|b| - 1] == Tibetan(n);
    TibetanRoundTrip(n);
  }

  /** No index token contains a space, so splitting an entry at its first
      space drops exactly the index. */
  lemma IndexTokensHaveNoSpace(n: nat)
    ensures forall i | 0 <= i < |Bracketed(n)| :: Bracketed(n)[i] != ' '
    ensures forall i | 0 <= i < |Decimal(n) + CloseBracket| :: (Decimal(n) + CloseBracket)[i] != ' '
    ensures Header(n) == Bracketed(n) + " "
  {
    TibetanShape(n);
    AsciiTable();
  }
}
