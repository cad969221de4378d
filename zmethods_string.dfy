/**
  The string helpers of Runtime/ZMethodsString.cs: Roman numerals, replacement of
  integers (maximal runs of ASCII digits, the regular expression \d+), expansion of
  escape sequences typed into the inspector, the size tag, dropping the first word
  and counting characters.
*/
module ZMethodsString {
  import opened Wrappers
  import opened Decimal

  // ---------------------------------------------------------------- Roman numerals

  /** The greedy table: value and numeral, values strictly decreasing down to 1. */
  const RomanTable: seq<(nat, string)> := [
    (1000, "M"), (900, "CM"), (500, "D"), (400, "CD"),
    (100, "C"), (90, "XC"), (50, "L"), (40, "XL"),
    (10, "X"), (9, "IX"), (5, "V"), (4, "IV"), (1, "I")]

  lemma RomanTableDecreasing()
    ensures |RomanTable| == 13 && RomanTable[12].0 == 1
    ensures forall i, j :: 0 <= i < j < |RomanTable| ==> RomanTable[i].0 > RomanTable[j].0
  {
  }

  lemma RomanValuePositive(k: nat)
    requires k < |RomanTable|
    ensures RomanTable[k].0 >= 1
  {
  }

  /** The table entries the greedy loop appends for the remaining value n, starting at entry k. */
  function GreedyPicks(n: nat, k: nat): (picks: seq<nat>)
    requires k <= |RomanTable|
    ensures PicksFrom(picks, k)
    decreases n, |RomanTable| - k
  {
    if k == |RomanTable| then []
    else if n >= RomanTable[k].0 && RomanTable[k].0 > 0 then [k] + GreedyPicks(n - RomanTable[k].0, k)
    else GreedyPicks(n, k + 1)
  }

  /** The numerals of the picked entries, concatenated. */
  function Numerals(picks: seq<nat>): string
    requires ValidPicks(picks)
  {
    if picks == [] then "" else Numerals(picks[..|picks| - 1]) + RomanTable[picks[|picks| - 1]].1
  }

  /** The sum of the values of the picked entries. */
  function ValueSum(picks: seq<nat>): nat
    requires ValidPicks(picks)
  {
    if picks == [] then 0 else RomanTable[picks[0]].0 + ValueSum(picks[1..])
  }

  /** What IntToRomanNumeralString returns: the plain decimal string outside [1, 3999],
      the greedy numeral inside. */
  function RomanNumeral(number: int): string {
    if number < 1 || number > 3999 then IntToString(number) else Numerals(GreedyPicks(number, 0))
  }

  /** Every pick is an entry of the table. */
  predicate ValidPicks(picks: seq<nat>) {
    forall i :: 0 <= i < |picks| ==> picks[i] < |RomanTable|
  }

  /** Every pick is an entry of the table at or after entry k. */
  predicate PicksFrom(picks: seq<nat>, k: nat) {
    forall i :: 0 <= i < |picks| ==> k <= picks[i] < |RomanTable|
  }

  /** IntToRomanNumeralString: for each table entry, appends its numeral while the
      remainder is at least its value. */
  method IntToRomanNumeralString(number: int) returns (s: string)
    ensures s == RomanNumeral(number)
  {
    if number < 1 || number > 3999 {
      return IntToString(number);
    }
    s := AppendAllEntries(number);
  }

  /** The loop over the table: the numeral of the greedy picks of number. */
  method AppendAllEntries(number: nat) returns (s: string)
    ensures s == Numerals(GreedyPicks(number, 0))
  {
    var remaining: nat := number;
    s := "";
    ghost var picks: seq<nat> := [];
    ghost var target := GreedyPicks(number, 0);
    for k := 0 to |RomanTable|
      invariant ValidPicks(picks) && picks + GreedyPicks(remaining, k) == target
      invariant s == Numerals(picks)
    {
      s, remaining, picks := AppendWhileAtLeast(s, remaining, k, picks);
    }
    GreedyPicksEnd(picks, remaining);
  }

  lemma GreedyPicksEnd(picks: seq<nat>, n: nat)
    ensures picks + GreedyPicks(n, |RomanTable|) == picks
  {
    assert picks + [] == picks;
  }

  /** The inner loop: appends entry k's numeral while the remainder is at least its value. */
  method AppendWhileAtLeast(s0: string, remaining0: nat, k: nat, ghost picks0: seq<nat>)
    returns (s: string, remaining: nat, ghost picks: seq<nat>)
    requires k < |RomanTable| && ValidPicks(picks0) && s0 == Numerals(picks0)
    ensures ValidPicks(picks) && s == Numerals(picks)
    ensures picks + GreedyPicks(remaining, k + 1) == picks0 + GreedyPicks(remaining0, k)
  {
    var (value, numeral) := RomanTable[k];
    RomanValuePositive(k);
    s, remaining, picks := s0, remaining0, picks0;
    while remaining >= value
      invariant ValidPicks(picks) && s == Numerals(picks)
      invariant picks + GreedyPicks(remaining, k) == picks0 + GreedyPicks(remaining0, k)
      decreases remaining
    {
      NumeralsSnoc(picks, k);
      GreedyPickStep(picks, remaining, k);
      s := s + numeral;
      remaining := remaining - value;
      picks := picks + [k];
    }
  }

  /** Appending entry k appends its numeral. */
  lemma NumeralsSnoc(picks: seq<nat>, k: nat)
    requires ValidPicks(picks) && k < |RomanTable|
    ensures ValidPicks(picks + [k]) && Numerals(picks + [k]) == Numerals(picks) + RomanTable[k].1
  {
    assert (picks + [k])[..|picks|] == picks;
  }

  /** Moving one pick of entry k from the greedy remainder to the picks made so far. */
  lemma GreedyPickStep(picks: seq<nat>, remaining: nat, k: nat)
    requires k < |RomanTable| && remaining >= RomanTable[k].0
    ensures (picks + [k]) + GreedyPicks(remaining - RomanTable[k].0, k) == picks + GreedyPicks(remaining, k)
  {
    RomanValuePositive(k);
    AppendAssociative(picks, [k], GreedyPicks(remaining - RomanTable[k].0, k));
  }

  lemma {:induction false} GreedyPicksSum(n: nat, k: nat)
    requires k < |RomanTable|
    ensures ValueSum(GreedyPicks(n, k)) == n
    decreases n, |RomanTable| - k
  {
    var value := RomanTable[k].0;
    RomanValuePositive(k);
    if n >= value {
      var rest := GreedyPicks(n - value, k);
      GreedyPicksSum(n - value, k);
      assert GreedyPicks(n, k) == [k] + rest;
      assert ([k] + rest)[1..] == rest;
    } else if k + 1 < |RomanTable| {
      GreedyPicksSum(n, k + 1);
    } else {
      assert RomanTable[12].0 == 1;
    }
  }

  lemma {:induction false} GreedyPicksSorted(n: nat, k: nat)
    requires k <= |RomanTable|
    ensures forall i, j :: 0 <= i < j < |GreedyPicks(n, k)| ==> GreedyPicks(n, k)[i] <= GreedyPicks(n, k)[j]
    decreases n, |RomanTable| - k
  {
    if k < |RomanTable| {
      RomanTableDecreasing();
      if n >= RomanTable[k].0 {
        GreedyPicksSorted(n - RomanTable[k].0, k);
      } else {
        GreedyPicksSorted(n, k + 1);
      }
    }
  }

  /** Inside [1, 3999] the numeral is a concatenation of table numerals in non-increasing
      order of value whose values add up to the number. */
  lemma RomanNumeralMeaning(number: int)
    requires 1 <= number <= 3999
    ensures var picks := GreedyPicks(number, 0);
      RomanNumeral(number) == Numerals(picks) && ValueSum(picks) == number &&
      forall i, j :: 0 <= i < j < |picks| ==> RomanTable[picks[i]].0 >= RomanTable[picks[j]].0
  {
    var picks := GreedyPicks(number, 0);
    GreedyPicksSum(number, 0);
    GreedyPicksSorted(number, 0);
    RomanTableDecreasing();
    forall i, j | 0 <= i < j < |picks| ensures RomanTable[picks[i]].0 >= RomanTable[picks[j]].0 {
      assert picks[i] <= picks[j];
    }
  }

  /** Entries the remainder is below are skipped. */
  lemma {:induction false} GreedyPicksSkip(n: nat, k: nat, m: nat)
    requires k <= m <= |RomanTable|
    requires forall j :: k <= j < m ==> n < RomanTable[j].0
    ensures GreedyPicks(n, k) == GreedyPicks(n, m)
    decreases m - k
  {
    if k < m {
      GreedyPicksSkip(n, k + 1, m);
    }
  }

  /** The greedy picks of 1994: M, CM, XC, IV. */
  lemma GreedyPicks1994()
    ensures GreedyPicks(1994, 0) == [0, 1, 5, 11]
  {
    assert GreedyPicks(0, 11) == [];
    assert GreedyPicks(4, 11) == [11] + GreedyPicks(0, 11);
    GreedyPicksSkip(4, 5, 11);
    assert GreedyPicks(94, 5) == [5] + GreedyPicks(4, 5);
    GreedyPicksSkip(94, 1, 5);
    assert GreedyPicks(994, 1) == [1] + GreedyPicks(94, 1);
    assert GreedyPicks(994, 0) == GreedyPicks(994, 1);
    assert GreedyPicks(1994, 0) == [0] + GreedyPicks(994, 0);
  }

  /** 1994 is written MCMXCIV. */
  lemma RomanNumeralExample()
    ensures RomanNumeral(1994) == "MCMXCIV"
  {
    GreedyPicks1994();
    assert [0, 1, 5, 11][..3] == [0, 1, 5];
    assert [0, 1, 5][..2] == [0, 1];
    assert [0, 1][..1] == [0];
    assert [0][..0] == [];
  }

  /** q copies of table entry k. */
  function RepeatPick(k: nat, q: nat): (picks: seq<nat>)
    ensures |picks| == q && forall i :: 0 <= i < q ==> picks[i] == k
  {
    seq(q, _ => k)
  }

  lemma AppendAssociative<T>(a: seq<T>, b: seq<T>, c: seq<T>)
    ensures a + (b + c) == (a + b) + c
  {
  }

  /** q copies of the character c. */
  function RepeatChar(c: char, q: nat): (s: string)
    ensures |s| == q && forall i :: 0 <= i < q ==> s[i] == c
  {
    seq(q, _ => c)
  }

  /** The numeral of one decimal digit d, written with the numerals for one, five and ten
      of its decade: the positional rule (I, II, III, IV, V, VI, VII, VIII, IX). */
  function DigitNumeral(d: nat, one: char, five: char, ten: char): string
    requires d < 10
  {
    if d == 9 then [one, ten]
    else if d >= 5 then [five] + RepeatChar(one, d - 5)
    else if d == 4 then [one, five]
    else RepeatChar(one, d)
  }

  /** The positional reference for 1..3999: the thousands as repeated M, then the hundreds,
      tens and units digits each by the positional rule. */
  function PositionalNumeral(n: nat): string
    requires n < 4000
  {
    RepeatChar('M', n / 1000) + HundredsNumeral(n % 1000)
  }

  /** The positional numeral of n < 1000. */
  function HundredsNumeral(n: nat): string
    requires n < 1000
  {
    DigitNumeral(n / 100, 'C', 'D', 'M') + TensNumeral(n % 100)
  }

  /** The positional numeral of n < 100. */
  function TensNumeral(n: nat): string
    requires n < 100
  {
    DigitNumeral(n / 10, 'X', 'L', 'C') + DigitNumeral(n % 10, 'I', 'V', 'X')
  }

  /** The greedy loop writes every number of [1, 3999] in canonical form: the numeral is
      the positional one, so no numeral repeats four times and no subtractive pair is
      followed by its own letters. */
  lemma RomanNumeralPositional(number: int)
    requires 1 <= number <= 3999
    ensures RomanNumeral(number) == PositionalNumeral(number)
  {
    GreedyThousands(number / 1000, number % 1000);
  }

  /** The greedy picks of m thousands (m < 4) and a remainder r < 1000 spell m letters M
      followed by the positional numeral of r. */
  lemma GreedyThousands(m: nat, r: nat)
    requires m < 4 && r < 1000
    ensures Numerals(GreedyPicks(m * 1000 + r, 0)) == RepeatChar('M', m) + HundredsNumeral(r)
  {
    ThousandsPicks(m, r);
    ThousandsNumerals(m, GreedyPicks(r, 1));
    GreedyHundreds(r);
  }

  lemma ThousandsPicks(m: nat, r: nat)
    requires r < 1000
    ensures GreedyPicks(m * 1000 + r, 0) == RepeatPick(0, m) + GreedyPicks(r, 1)
  {
    GreedyRepeat(r, 0, m);
    GreedyPicksSkip(r, 0, 1);
  }

  lemma ThousandsNumerals(m: nat, rest: seq<nat>)
    requires ValidPicks(rest)
    ensures ValidPicks(RepeatPick(0, m) + rest)
    ensures Numerals(RepeatPick(0, m) + rest) == RepeatChar('M', m) + Numerals(rest)
  {
    NumeralsAppend(RepeatPick(0, m), rest);
    NumeralsRepeat(0, m);
  }

  /** From entry CM on, the greedy picks of n < 1000 spell its positional numeral. */
  lemma GreedyHundreds(n: nat)
    requires n < 1000
    ensures Numerals(GreedyPicks(n, 1)) == HundredsNumeral(n)
  {
    var h, r := n / 100, n % 100;
    GreedyDecade(1, 100, h, r);
    NumeralsAppend(DecadePicks(1, h), GreedyPicks(r, 5));
    DecadeNumerals(1, h, 'C', 'D', 'M');
    GreedyTens(r);
  }

  /** From entry XC on, the greedy picks of n < 100 spell its positional numeral. */
  lemma GreedyTens(n: nat)
    requires n < 100
    ensures Numerals(GreedyPicks(n, 5)) == TensNumeral(n)
  {
    var t, o := n / 10, n % 10;
    GreedyDecade(5, 10, t, o);
    GreedyUnits(o);
    NumeralsAppend(DecadePicks(5, t), DecadePicks(9, o));
    DecadeNumerals(5, t, 'X', 'L', 'C');
    DecadeNumerals(9, o, 'I', 'V', 'X');
  }

  /** From entry IX on, the greedy picks of a digit are its positional ones. */
  lemma GreedyUnits(o: nat)
    requires o < 10
    ensures GreedyPicks(o, 9) == DecadePicks(9, o)
  {
    GreedyDecade(9, 1, o, 0);
    assert GreedyPicks(0, 13) == [];
    assert DecadePicks(9, o) + [] == DecadePicks(9, o);
  }

  /** The table entries of decade b (entries b..b+3: nine, five, four and one times its
      unit) that the positional rule picks for the digit d. */
  function DecadePicks(b: nat, d: nat): (picks: seq<nat>)
    requires b <= 9 && d < 10
    ensures ValidPicks(picks)
  {
    if d == 9 then [b]
    else if d >= 5 then [b + 1] + RepeatPick(b + 3, d - 5)
    else if d == 4 then [b + 2]
    else RepeatPick(b + 3, d)
  }

  /** Entry k is picked q times while the remainder allows it. */
  lemma {:induction false} GreedyRepeat(m: nat, k: nat, q: nat)
    requires k < |RomanTable|
    ensures GreedyPicks(m + q * RomanTable[k].0, k) == RepeatPick(k, q) + GreedyPicks(m, k)
  {
    ProductIsRepeatedSum(q, RomanTable[k].0);
    GreedyRepeatSum(m, k, q);
  }

  /** q times v, as q repeated additions of v. */
  function RepeatedSum(q: nat, v: nat): nat {
    if q == 0 then 0 else v + RepeatedSum(q - 1, v)
  }

  lemma {:induction false} ProductIsRepeatedSum(q: nat, v: nat)
    ensures RepeatedSum(q, v) == q * v
  {
    if q > 0 {
      ProductIsRepeatedSum(q - 1, v);
    }
  }

  lemma {:induction false} GreedyRepeatSum(m: nat, k: nat, q: nat)
    requires k < |RomanTable|
    ensures GreedyPicks(m + RepeatedSum(q, RomanTable[k].0), k) == RepeatPick(k, q) + GreedyPicks(m, k)
  {
    if q == 0 {
      RepeatPickNone(k, GreedyPicks(m, k));
    } else {
      GreedyRepeatSum(m, k, q - 1);
      GreedyStep(m + RepeatedSum(q - 1, RomanTable[k].0), k);
      RepeatPickFront(k, q);
      AppendAssociative([k], RepeatPick(k, q - 1), GreedyPicks(m, k));
    }
  }

  lemma RepeatPickNone(k: nat, rest: seq<nat>)
    ensures RepeatPick(k, 0) + rest == rest
  {
    assert RepeatPick(k, 0) == [];
  }

  lemma RepeatPickFront(k: nat, q: nat)
    requires q > 0
    ensures RepeatPick(k, q) == [k] + RepeatPick(k, q - 1)
  {
  }

  /** m + q * v is m' + v for m' = m + (q - 1) * v. */
  lemma ProductStep(m: nat, q: nat, v: nat) returns (m': nat)
    requires q > 0
    ensures m' == m + (q - 1) * v && m + q * v == m' + v
  {
    m' := m + (q - 1) * v;
  }

  /** A remainder of at least entry k's value picks entry k. */
  lemma GreedyStep(n: nat, k: nat)
    requires k < |RomanTable|
    ensures GreedyPicks(n + RomanTable[k].0, k) == [k] + GreedyPicks(n, k)
  {
    RomanValuePositive(k);
  }

  /** The unit, five and nine entries of decade b, which starts at table entry b. */
  predicate IsDecade(b: nat, u: nat) {
    (b == 1 && u == 100) || (b == 5 && u == 10) || (b == 9 && u == 1)
  }

  lemma DecadeValues(b: nat, u: nat)
    requires IsDecade(b, u)
    ensures b + 4 <= |RomanTable| && u >= 1
    ensures RomanTable[b].0 == 9 * u && RomanTable[b + 1].0 == 5 * u
    ensures RomanTable[b + 2].0 == 4 * u && RomanTable[b + 3].0 == u
  {
  }

  /** Within decade b with unit u, the greedy picks of d * u + r (d < 10, r < u) are the
      positional ones for the digit d, followed by the picks of r from the next decade on. */
  lemma GreedyDecade(b: nat, u: nat, d: nat, r: nat)
    requires IsDecade(b, u) && d < 10 && r < u
    ensures GreedyPicks(d * u + r, b) == DecadePicks(b, d) + GreedyPicks(r, b + 4)
  {
    if d == 9 {
      GreedyDecadeNine(b, u, d, r);
    } else if d >= 5 {
      GreedyDecadeHigh(b, u, d, r);
    } else if d == 4 {
      GreedyDecadeFour(b, u, d, r);
    } else {
      GreedyDecadeLow(b, u, d, r);
    }
  }

  lemma GreedyDecadeNine(b: nat, u: nat, d: nat, r: nat)
    requires IsDecade(b, u) && d == 9 && r < u
    ensures GreedyPicks(d * u + r, b) == DecadePicks(b, d) + GreedyPicks(r, b + 4)
  {
    DecadeNine(b, u, r);
  }

  lemma GreedyDecadeFour(b: nat, u: nat, d: nat, r: nat)
    requires IsDecade(b, u) && d == 4 && r < u
    ensures GreedyPicks(d * u + r, b) == DecadePicks(b, d) + GreedyPicks(r, b + 4)
  {
    DecadeFour(b, u, r);
  }

  lemma GreedyDecadeLow(b: nat, u: nat, d: nat, r: nat)
    requires IsDecade(b, u) && d < 4 && r < u
    ensures GreedyPicks(d * u + r, b) == DecadePicks(b, d) + GreedyPicks(r, b + 4)
  {
    DecadeOnes(b, u, d, r);
    DecadeBelowFour(b, u, d * u + r);
  }

  lemma GreedyDecadeHigh(b: nat, u: nat, d: nat, r: nat)
    requires IsDecade(b, u) && 5 <= d < 9 && r < u
    ensures GreedyPicks(d * u + r, b) == DecadePicks(b, d) + GreedyPicks(r, b + 4)
  {
    var e := d - 5;
    var n := FiveUnitsOff(d, u, r);
    DecadeOnes(b, u, e, r);
    DecadeFivePlus(b, u, n);
    var ones, rest := RepeatPick(b + 3, e), GreedyPicks(r, b + 4);
    AppendAssociative([b + 1], ones, rest);
  }

  /** d * u + r is five units plus (d - 5) * u + r. */
  lemma FiveUnitsOff(d: nat, u: nat, r: nat) returns (n: nat)
    requires 5 <= d
    ensures n == (d - 5) * u + r && d * u + r == 5 * u + n
  {
    n := (d - 5) * u + r;
  }

  lemma DecadeNine(b: nat, u: nat, r: nat)
    requires IsDecade(b, u) && r < u
    ensures GreedyPicks(9 * u + r, b) == [b] + GreedyPicks(r, b + 4)
  {
    DecadeValues(b, u);
    GreedyStep(r, b);
    GreedyPicksSkip(r, b, b + 4);
  }

  lemma DecadeFivePlus(b: nat, u: nat, n: nat)
    requires IsDecade(b, u) && n < 4 * u
    ensures GreedyPicks(5 * u + n, b) == [b + 1] + GreedyPicks(n, b + 3)
  {
    DecadeValues(b, u);
    GreedyPicksSkip(5 * u + n, b, b + 1);
    GreedyStep(n, b + 1);
    GreedyPicksSkip(n, b + 1, b + 3);
  }

  lemma DecadeFour(b: nat, u: nat, r: nat)
    requires IsDecade(b, u) && r < u
    ensures GreedyPicks(4 * u + r, b) == [b + 2] + GreedyPicks(r, b + 4)
  {
    DecadeValues(b, u);
    GreedyPicksSkip(4 * u + r, b, b + 2);
    DecadeFourPick(b, u, r);
  }

  lemma DecadeFourPick(b: nat, u: nat, r: nat)
    requires IsDecade(b, u) && r < u
    ensures GreedyPicks(4 * u + r, b + 2) == [b + 2] + GreedyPicks(r, b + 4)
  {
    DecadeValues(b, u);
    GreedyStep(r, b + 2);
    GreedyPicksSkip(r, b + 2, b + 4);
  }

  lemma DecadeBelowFour(b: nat, u: nat, n: nat)
    requires IsDecade(b, u) && n < 4 * u
    ensures GreedyPicks(n, b) == GreedyPicks(n, b + 3)
  {
    DecadeValues(b, u);
    GreedyPicksSkip(n, b, b + 3);
  }

  /** d < 4 units and a remainder r below the unit pick the unit entry d times. */
  lemma DecadeOnes(b: nat, u: nat, d: nat, r: nat)
    requires IsDecade(b, u) && d < 4 && r < u
    ensures d * u + r < 4 * u
    ensures GreedyPicks(d * u + r, b + 3) == RepeatPick(b + 3, d) + GreedyPicks(r, b + 4)
  {
    DecadeValues(b, u);
    assert d * u + r < 4 * u by {
      assert d == 0 || d == 1 || d == 2 || d == 3;
    }
    GreedyRepeat(r, b + 3, d);
    GreedyPicksSkip(r, b + 3, b + 4);
  }

  lemma {:induction false} NumeralsAppend(a: seq<nat>, b: seq<nat>)
    requires ValidPicks(a) && ValidPicks(b)
    ensures ValidPicks(a + b) && Numerals(a + b) == Numerals(a) + Numerals(b)
    decreases |b|
  {
    if b != [] {
      var b' := b[..|b| - 1];
      NumeralsAppend(a, b');
      assert (a + b)[..|a + b| - 1] == a + b';
      assert (a + b)[|a + b| - 1] == b[|b| - 1];
    } else {
      assert a + b == a;
    }
  }

  /** q copies of a one-letter entry spell that letter q times. */
  lemma {:induction false} NumeralsRepeat(k: nat, q: nat)
    requires k < |RomanTable| && |RomanTable[k].1| == 1
    ensures Numerals(RepeatPick(k, q)) == RepeatChar(RomanTable[k].1[0], q)
  {
    if q > 0 {
      NumeralsRepeat(k, q - 1);
      assert RepeatPick(k, q)[..q - 1] == RepeatPick(k, q - 1);
      assert RepeatChar(RomanTable[k].1[0], q) == RepeatChar(RomanTable[k].1[0], q - 1) + RomanTable[k].1;
    }
  }

  /** The numerals of a decade's picks are the positional numeral of its digit. */
  lemma DecadeNumerals(b: nat, d: nat, one: char, five: char, ten: char)
    requires (b == 1 && one == 'C' && five == 'D' && ten == 'M') ||
             (b == 5 && one == 'X' && five == 'L' && ten == 'C') ||
             (b == 9 && one == 'I' && five == 'V' && ten == 'X')
    requires d < 10
    ensures Numerals(DecadePicks(b, d)) == DigitNumeral(d, one, five, ten)
  {
    DecadeLetters(b, one, five, ten);
    if d >= 5 && d != 9 {
      DecadeNumeralsHigh(b, d, one, five, ten);
    } else {
      DecadeNumeralsOther(b, d, one, five, ten);
    }
  }

  /** The numerals of the decade table entries, b being the nine entry. */
  ghost predicate DecadeSpelling(b: nat, one: char, five: char, ten: char) {
    b + 4 <= |RomanTable| &&
    RomanTable[b].1 == [one, ten] && RomanTable[b + 1].1 == [five] &&
    RomanTable[b + 2].1 == [one, five] && RomanTable[b + 3].1 == [one]
  }

  lemma DecadeNumeralsHigh(b: nat, d: nat, one: char, five: char, ten: char)
    requires DecadeSpelling(b, one, five, ten) && 5 <= d < 9
    ensures Numerals(DecadePicks(b, d)) == DigitNumeral(d, one, five, ten)
  {
    NumeralsRepeat(b + 3, d - 5);
    NumeralsAppend([b + 1], RepeatPick(b + 3, d - 5));
    NumeralsSingle(b + 1);
  }

  lemma NumeralsSingle(k: nat)
    requires k < |RomanTable|
    ensures Numerals([k]) == RomanTable[k].1
  {
    assert [k][..0] == [];
  }

  lemma DecadeNumeralsOther(b: nat, d: nat, one: char, five: char, ten: char)
    requires DecadeSpelling(b, one, five, ten) && (d < 5 || d == 9)
    ensures Numerals(DecadePicks(b, d)) == DigitNumeral(d, one, five, ten)
  {
    if d == 9 {
      NumeralsSingle(b);
    } else if d == 4 {
      NumeralsSingle(b + 2);
    } else {
      NumeralsRepeat(b + 3, d);
    }
  }

  lemma DecadeLetters(b: nat, one: char, five: char, ten: char)
    requires (b == 1 && one == 'C' && five == 'D' && ten == 'M') ||
             (b == 5 && one == 'X' && five == 'L' && ten == 'C') ||
             (b == 9 && one == 'I' && five == 'V' && ten == 'X')
    ensures DecadeSpelling(b, one, five, ten)
  {
  }

  /** Outside [1, 3999] the decimal string is returned, and it parses back to the number. */
  lemma RomanNumeralOutOfRange(number: int)
    requires number < 1 || number > 3999
    ensures RomanNumeral(number) == IntToString(number)
    ensures ParseInt(RomanNumeral(number)) == number
  {
    IntToStringRoundTrip(number);
  }

  // ---------------------------------------------------------------- digit runs

  /** The length of the leading run of digits. */
  function DigitPrefixLength(s: string): (n: nat)
    ensures n <= |s| && AllDigits(s[..n]) && (n == |s| || !IsDigit(s[n]))
  {
    if s == [] || !IsDigit(s[0]) then 0
    else
      var n := 1 + DigitPrefixLength(s[1..]);
      assert s[..n] == [s[0]] + s[1..][..n - 1];
      n
  }

  /** Every maximal run of digits replaced by replacement (Regex.Replace with \d+). */
  function ReplaceDigitRuns(s: string, replacement: string): string
    decreases |s|
  {
    if s == [] then []
    else if IsDigit(s[0]) then replacement + ReplaceDigitRuns(s[DigitPrefixLength(s)..], replacement)
    else [s[0]] + ReplaceDigitRuns(s[1..], replacement)
  }

  /** ReplaceIntegersInString. */
  function ReplaceIntegersInString(input: string, newNumber: int): (r: string)
    ensures !HasDigit(input) ==> r == input
    ensures 0 <= newNumber ==> NonDigits(r) == NonDigits(input)
  {
    ReplaceDigitRunsKeeps(input, IntToString(newNumber));
    ReplaceDigitRuns(input, IntToString(newNumber))
  }

  /** Text without digits passes unchanged, and a replacement made of digits keeps the
      non-digit characters. */
  lemma ReplaceDigitRunsKeeps(s: string, replacement: string)
    ensures !HasDigit(s) ==> ReplaceDigitRuns(s, replacement) == s
    ensures AllDigits(replacement) ==> NonDigits(ReplaceDigitRuns(s, replacement)) == NonDigits(s)
  {
    if !HasDigit(s) {
      ReplaceWithoutDigits(s, replacement);
    }
    if AllDigits(replacement) {
      ReplaceKeepsNonDigits(s, replacement);
    }
  }

  predicate HasDigit(s: string) {
    exists i :: 0 <= i < |s| && IsDigit(s[i])
  }

  /** The non-digit characters of s, in order. */
  function NonDigits(s: string): (r: string)
    ensures !HasDigit(r)
  {
    if s == [] then [] else if IsDigit(s[0]) then NonDigits(s[1..]) else [s[0]] + NonDigits(s[1..])
  }

  lemma {:induction false} NonDigitsOfDigits(s: string)
    requires AllDigits(s)
    ensures NonDigits(s) == []
  {
    if s != [] {
      NonDigitsOfDigits(s[1..]);
    }
  }

  lemma {:induction false} NonDigitsAppend(a: string, b: string)
    ensures NonDigits(a + b) == NonDigits(a) + NonDigits(b)
  {
    if a != [] {
      NonDigitsAppend(a[1..], b);
      assert (a + b)[0] == a[0] && (a + b)[1..] == a[1..] + b;
    } else {
      assert a + b == b;
    }
  }

  lemma {:induction false} NonDigitsSkipsPrefix(s: string, n: nat)
    requires n <= |s| && AllDigits(s[..n])
    ensures NonDigits(s) == NonDigits(s[n..])
  {
    assert s == s[..n] + s[n..];
    NonDigitsAppend(s[..n], s[n..]);
    NonDigitsOfDigits(s[..n]);
  }

  /** With a replacement made of digits (a non-negative number), the non-digit characters
      are kept, in order. */
  lemma {:induction false} ReplaceKeepsNonDigits(s: string, replacement: string)
    requires AllDigits(replacement)
    ensures NonDigits(ReplaceDigitRuns(s, replacement)) == NonDigits(s)
    decreases |s|
  {
    if s != [] {
      if IsDigit(s[0]) {
        var n := DigitPrefixLength(s);
        ReplaceKeepsNonDigits(s[n..], replacement);
        NonDigitsAppend(replacement, ReplaceDigitRuns(s[n..], replacement));
        NonDigitsOfDigits(replacement);
        NonDigitsSkipsPrefix(s, n);
      } else {
        ReplaceKeepsNonDigits(s[1..], replacement);
        NonDigitsAppend([s[0]], ReplaceDigitRuns(s[1..], replacement));
      }
    }
  }

  /** A string without digits is returned unchanged. */
  lemma {:induction false} ReplaceWithoutDigits(s: string, replacement: string)
    requires !HasDigit(s)
    ensures ReplaceDigitRuns(s, replacement) == s
    decreases |s|
  {
    if s != [] {
      assert !IsDigit(s[0]);
      assert !HasDigit(s[1..]) by {
        forall i | 0 <= i < |s[1..]| ensures !IsDigit(s[1..][i]) {
          assert s[1..][i] == s[i + 1];
        }
      }
      ReplaceWithoutDigits(s[1..], replacement);
    }
  }

  /** A replaced string never starts with a digit when the original started with a non-digit. */
  lemma ReplaceKeepsFirstNonDigit(s: string, replacement: string)
    requires s != [] && !IsDigit(s[0])
    ensures ReplaceDigitRuns(s, replacement) != [] && ReplaceDigitRuns(s, replacement)[0] == s[0]
  {
  }

  /** A non-empty run of digits followed by nothing or a non-digit is the whole digit prefix. */
  lemma {:induction false} DigitPrefixOfRun(d: string, t: string)
    requires d != [] && AllDigits(d) && (t == [] || !IsDigit(t[0]))
    ensures DigitPrefixLength(d + t) == |d|
    decreases |d|
  {
    assert (d + t)[0] == d[0] && (d + t)[1..] == d[1..] + t;
    if |d| == 1 {
      assert d[1..] + t == t;
    } else {
      DigitPrefixOfRun(d[1..], t);
    }
  }

  /** Replacing again with the same run of digits changes nothing: each inserted run is
      maximal and is replaced by itself. */
  lemma {:induction false} ReplaceIdempotent(s: string, replacement: string)
    requires replacement != [] && AllDigits(replacement)
    ensures ReplaceDigitRuns(ReplaceDigitRuns(s, replacement), replacement) == ReplaceDigitRuns(s, replacement)
    decreases |s|
  {
    if s != [] {
      if IsDigit(s[0]) {
        var t := s[DigitPrefixLength(s)..];
        var rt := ReplaceDigitRuns(t, replacement);
        ReplaceIdempotent(t, replacement);
        if t != [] {
          ReplaceKeepsFirstNonDigit(t, replacement);
        }
        DigitPrefixOfRun(replacement, rt);
        assert (replacement + rt)[|replacement|..] == rt;
      } else {
        ReplaceIdempotent(s[1..], replacement);
        assert ([s[0]] + ReplaceDigitRuns(s[1..], replacement))[1..] == ReplaceDigitRuns(s[1..], replacement);
      }
    }
  }

  /** Text without digits is copied unchanged before what follows. */
  lemma {:induction false} ReplaceAfterNonDigits(p: string, w: string, replacement: string)
    requires !HasDigit(p)
    ensures ReplaceDigitRuns(p + w, replacement) == p + ReplaceDigitRuns(w, replacement)
    decreases |p|
  {
    if p != [] {
      assert !IsDigit(p[0]);
      assert (p + w)[0] == p[0] && (p + w)[1..] == p[1..] + w;
      assert p == [p[0]] + p[1..];
      assert !HasDigit(p[1..]) by {
        forall i | 0 <= i < |p[1..]| ensures !IsDigit(p[1..][i]) {
          assert p[1..][i] == p[i + 1];
        }
      }
      ReplaceAfterNonDigits(p[1..], w, replacement);
    } else {
      assert p + w == w;
    }
  }

  // ---------------------------------------------------------------- last digit run

  /** One past the last digit of s. */
  function LastDigitEnd(s: string): (e: nat)
    requires HasDigit(s)
    ensures 1 <= e <= |s| && IsDigit(s[e - 1]) && !HasDigit(s[e..])
  {
    if IsDigit(s[|s| - 1]) then |s|
    else
      assert HasDigit(s[..|s| - 1]) by {
        var i :| 0 <= i < |s| && IsDigit(s[i]);
        assert s[..|s| - 1][i] == s[i];
      }
      var e := LastDigitEnd(s[..|s| - 1]);
      assert !HasDigit(s[e..]) by {
        forall i | 0 <= i < |s[e..]| ensures !IsDigit(s[e..][i]) {
          if e + i < |s| - 1 {
            assert s[e..][i] == s[..|s| - 1][e..][i];
          }
        }
      }
      e
  }

  /** The start of the run of digits that ends just before e. */
  function RunStart(s: string, e: nat): (b: nat)
    requires 1 <= e <= |s| && IsDigit(s[e - 1])
    ensures b < e && AllDigits(s[b..e]) && (b == 0 || !IsDigit(s[b - 1]))
  {
    if e == 1 || !IsDigit(s[e - 2]) then e - 1
    else
      var b := RunStart(s, e - 1);
      assert s[b..e] == s[b..e - 1] + [s[e - 1]];
      b
  }

  /** ReplaceLastIntegerInString: only the last maximal run of digits is replaced. */
  function ReplaceLastIntegerInString(input: string, newNumber: int): (r: string)
    ensures !HasDigit(input) ==> r == input
    ensures 0 <= newNumber ==> NonDigits(r) == NonDigits(input)
  {
    if !HasDigit(input) then input
    else
      var e := LastDigitEnd(input);
      var b := RunStart(input, e);
      SpliceKeepsNonDigits(input, b, e, IntToString(newNumber));
      input[..b] + IntToString(newNumber) + input[e..]
  }

  /** Putting a run of digits in place of another keeps the non-digit characters. */
  lemma SpliceKeepsNonDigits(s: string, b: nat, e: nat, d: string)
    requires b <= e <= |s| && AllDigits(s[b..e])
    ensures AllDigits(d) ==> NonDigits(s[..b] + d + s[e..]) == NonDigits(s)
  {
    if AllDigits(d) {
      assert s == s[..b] + s[b..e] + s[e..];
      NonDigitsAppend(s[..b] + d, s[e..]);
      NonDigitsAppend(s[..b], d);
      NonDigitsAppend(s[..b] + s[b..e], s[e..]);
      NonDigitsAppend(s[..b], s[b..e]);
      NonDigitsOfDigits(d);
      NonDigitsOfDigits(s[b..e]);
    }
  }

  /** Without digits the input is returned unchanged; otherwise the result is the input with
      exactly one maximal run of digits, the one after which no digit follows, replaced by the
      number, and everything before that run (earlier runs included) kept. */
  lemma ReplaceLastMeaning(input: string, newNumber: int)
    ensures !HasDigit(input) ==> ReplaceLastIntegerInString(input, newNumber) == input
    ensures HasDigit(input) ==> exists b, e ::
      0 <= b < e <= |input| && AllDigits(input[b..e]) && (b == 0 || !IsDigit(input[b - 1])) &&
      !HasDigit(input[e..]) &&
      ReplaceLastIntegerInString(input, newNumber) == input[..b] + IntToString(newNumber) + input[e..]
  {
    if HasDigit(input) {
      var e := LastDigitEnd(input);
      var b := RunStart(input, e);
    }
  }

  /** A run of digits followed by text without digits becomes the replacement followed by that text. */
  lemma ReplaceRunBeforeNonDigits(d: string, t: string, replacement: string)
    requires d != [] && AllDigits(d) && !HasDigit(t)
    ensures ReplaceDigitRuns(d + t, replacement) == replacement + t
  {
    assert t == [] || !IsDigit(t[0]);
    DigitPrefixOfRun(d, t);
    assert (d + t)[0] == d[0];
    assert (d + t)[|d|..] == t;
    ReplaceWithoutDigits(t, replacement);
  }

  /** Text without digits, one run of digits, text without digits: the run is replaced. */
  lemma ReplaceSingleRun(p: string, d: string, t: string, replacement: string)
    requires !HasDigit(p) && d != [] && AllDigits(d) && !HasDigit(t)
    ensures ReplaceDigitRuns(p + d + t, replacement) == p + replacement + t
  {
    assert p + d + t == p + (d + t);
    ReplaceAfterNonDigits(p, d + t, replacement);
    ReplaceRunBeforeNonDigits(d, t, replacement);
    assert p + (replacement + t) == p + replacement + t;
  }

  /** A maximal run of digits at the front becomes the replacement, and the replacement
      goes on in the rest, whatever digits the rest holds. */
  lemma ReplaceRunStep(d: string, t: string, replacement: string)
    requires d != [] && AllDigits(d) && (t == [] || !IsDigit(t[0]))
    ensures ReplaceDigitRuns(d + t, replacement) == replacement + ReplaceDigitRuns(t, replacement)
  {
    DigitPrefixOfRun(d, t);
    assert (d + t)[0] == d[0];
    assert (d + t)[|d|..] == t;
  }

  /** Where no run of digits straddles the cut, the two sides are replaced on their own. */
  lemma {:induction false} ReplaceDigitRunsSplit(p: string, x: string, replacement: string)
    requires p == [] || x == [] || !IsDigit(p[|p| - 1]) || !IsDigit(x[0])
    ensures ReplaceDigitRuns(p + x, replacement) == ReplaceDigitRuns(p, replacement) + ReplaceDigitRuns(x, replacement)
    decreases |p|, 1
  {
    if p == [] {
      assert p + x == x;
    } else if !IsDigit(p[0]) {
      ReplaceSplitNonDigit(p, x, replacement);
    } else if DigitPrefixLength(p) < |p| {
      ReplaceSplitRun(p, x, replacement);
    } else {
      ReplaceRunStep(p, x, replacement);
    }
  }

  /** A non-digit at the front of p stays in front, and the rest of p is split from x. */
  lemma {:induction false} ReplaceSplitNonDigit(p: string, x: string, replacement: string)
    requires p != [] && !IsDigit(p[0])
    requires x == [] || !IsDigit(p[|p| - 1]) || !IsDigit(x[0])
    ensures ReplaceDigitRuns(p + x, replacement) == ReplaceDigitRuns(p, replacement) + ReplaceDigitRuns(x, replacement)
    decreases |p|, 0
  {
    var c, y := [p[0]], p[1..];
    assert y == [] || y[|y| - 1] == p[|p| - 1];
    ReplaceDigitRunsSplit(y, x, replacement);
    assert !HasDigit(c);
    assert p == c + y;
    AppendAssociative(c, y, x);
    ReplaceAfterNonDigits(c, y + x, replacement);
    ReplaceAfterNonDigits(c, y, replacement);
    AppendAssociative(c, ReplaceDigitRuns(y, replacement), ReplaceDigitRuns(x, replacement));
  }

  /** A run of digits that ends inside p is replaced, and what follows it in p is split from x. */
  lemma {:induction false} ReplaceSplitRun(p: string, x: string, replacement: string)
    requires p != [] && IsDigit(p[0]) && DigitPrefixLength(p) < |p|
    requires x == [] || !IsDigit(p[|p| - 1]) || !IsDigit(x[0])
    ensures ReplaceDigitRuns(p + x, replacement) == ReplaceDigitRuns(p, replacement) + ReplaceDigitRuns(x, replacement)
    decreases |p|, 0
  {
    var n := DigitPrefixLength(p);
    var y := p[n..];
    assert y[|y| - 1] == p[|p| - 1];
    ReplaceDigitRunsSplit(y, x, replacement);
    assert ReplaceDigitRuns(p + x, replacement) == replacement + ReplaceDigitRuns(y + x, replacement) by {
      assert p[..n] + (y + x) == p + x;
      DigitPrefixOfRun(p[..n], y + x);
      assert (p + x)[0] == p[0];
      assert (p + x)[n..] == y + x;
    }
    AppendAssociative(replacement, ReplaceDigitRuns(y, replacement), ReplaceDigitRuns(x, replacement));
  }

  /** Every maximal run of digits is replaced, wherever it stands: text ending in a non-digit
      (or nothing), a run, then text starting with a non-digit (or nothing) become the
      replaced text, the replacement and the replaced rest. */
  lemma ReplaceEveryRun(p: string, d: string, t: string, replacement: string)
    requires p == [] || !IsDigit(p[|p| - 1])
    requires d != [] && AllDigits(d) && (t == [] || !IsDigit(t[0]))
    ensures ReplaceDigitRuns(p + d + t, replacement) ==
      ReplaceDigitRuns(p, replacement) + replacement + ReplaceDigitRuns(t, replacement)
  {
    var rp, rt := ReplaceDigitRuns(p, replacement), ReplaceDigitRuns(t, replacement);
    assert ReplaceDigitRuns(p + (d + t), replacement) == rp + (replacement + rt) by {
      ReplaceDigitRunsSplit(p, d + t, replacement);
      ReplaceRunStep(d, t, replacement);
    }
    AppendAssociative(p, d, t);
    AppendAssociative(rp, replacement, rt);
  }

  /** ReplaceIntegersInString replaces every maximal run of digits by the number and keeps
      the text around it: the text before the run and the text after it are replaced on
      their own, whatever runs they hold. */
  lemma ReplaceIntegersEveryRun(p: string, d: string, t: string, newNumber: int)
    requires p == [] || !IsDigit(p[|p| - 1])
    requires d != [] && AllDigits(d) && (t == [] || !IsDigit(t[0]))
    ensures ReplaceIntegersInString(p + d + t, newNumber) ==
      ReplaceIntegersInString(p, newNumber) + IntToString(newNumber) + ReplaceIntegersInString(t, newNumber)
  {
    ReplaceEveryRun(p, d, t, IntToString(newNumber));
  }

  /** Both runs of "a1b22" are replaced. */
  lemma ReplaceIntegersExample()
    ensures ReplaceIntegersInString("a1b22", 7) == "a7b7"
  {
    var seven := IntToString(7);
    assert seven == "7";
    assert ReplaceDigitRuns("a1b", seven) == "a7b" by {
      ReplaceWithoutDigits("a", seven);
      ReplaceWithoutDigits("b", seven);
      ReplaceEveryRun("a", "1", "b", seven);
      assert "a" + "1" + "b" == "a1b";
    }
    assert ReplaceDigitRuns("a1b22", seven) == "a7b7" by {
      ReplaceWithoutDigits("", seven);
      ReplaceEveryRun("a1b", "22", "", seven);
      assert "a1b" + "22" + "" == "a1b22";
    }
  }

  /** Replacing only the last run of "a1b22" keeps the first. */
  lemma ReplaceLastExample()
    ensures ReplaceLastIntegerInString("a1b22", 7) == "a1b7"
  {
    assert IntToString(7) == "7";
    assert HasDigit("a1b22") by { assert IsDigit("a1b22"[4]); }
    assert LastDigitEnd("a1b22") == 5;
    assert RunStart("a1b22", 5) == 3;
    assert "a1b22"[..3] + "7" + "a1b22"[5..] == "a1b7";
  }

  /** With a single run of digits, replacing the last run is replacing every run. */
  lemma ReplaceLastOfSingleRun(input: string, newNumber: int)
    requires HasDigit(input)
    requires !HasDigit(input[..RunStart(input, LastDigitEnd(input))])
    ensures ReplaceLastIntegerInString(input, newNumber) == ReplaceIntegersInString(input, newNumber)
  {
    var e := LastDigitEnd(input);
    var b := RunStart(input, e);
    var rep := IntToString(newNumber);
    assert ReplaceDigitRuns(input, rep) == input[..b] + rep + input[e..] by {
      ThreeParts(input, b, e);
      ReplaceSingleRun(input[..b], input[b..e], input[e..], rep);
    }
    assert ReplaceLastIntegerInString(input, newNumber) == input[..b] + rep + input[e..];
  }

  lemma ThreeParts(s: string, b: nat, e: nat)
    requires b <= e <= |s|
    ensures s[..b] + s[b..e] + s[e..] == s
  {
  }

  // ---------------------------------------------------------------- escape sequences

  /** String.Replace(oldValue, newValue): occurrences found left to right, without overlap. */
  function ReplaceLiteral(s: string, oldValue: string, newValue: string): string
    requires oldValue != []
    decreases |s|
  {
    if |s| < |oldValue| then s
    else if s[..|oldValue|] == oldValue then newValue + ReplaceLiteral(s[|oldValue|..], oldValue, newValue)
    else [s[0]] + ReplaceLiteral(s[1..], oldValue, newValue)
  }

  /** A string in which the first character of oldValue does not occur is unchanged. */
  lemma {:induction false} ReplaceLiteralAbsent(s: string, oldValue: string, newValue: string)
    requires oldValue != [] && oldValue[0] !in s
    ensures ReplaceLiteral(s, oldValue, newValue) == s
    decreases |s|
  {
    if |s| >= |oldValue| {
      assert s[..|oldValue|][0] == s[0];
      assert s[1..] == s[1..] && oldValue[0] !in s[1..];
      ReplaceLiteralAbsent(s[1..], oldValue, newValue);
    }
  }

  /** A replacement no longer than what it replaces never makes the string longer. */
  lemma {:induction false} ReplaceLiteralShrinks(s: string, oldValue: string, newValue: string)
    requires oldValue != [] && |newValue| <= |oldValue|
    ensures |ReplaceLiteral(s, oldValue, newValue)| <= |s|
    decreases |s|
  {
    if |s| >= |oldValue| {
      if s[..|oldValue|] == oldValue {
        ReplaceLiteralShrinks(s[|oldValue|..], oldValue, newValue);
      } else {
        ReplaceLiteralShrinks(s[1..], oldValue, newValue);
      }
    }
  }

  const Backslash: char := '\\'
  const VerticalTab: char := 11 as char
  const NarrowNoBreakSpace: char := 0x202F as char
  const ThinSpace: char := 0x2009 as char

  /** The escapes of FormattedInspectorString, in the order they are replaced: the name
      typed after a backslash and the character it stands for. */
  function Escape(k: nat): (e: (string, char))
    requires k < 5
    ensures e.0 != [] && Backslash !in e.0 && e.1 != Backslash
  {
    [("n", '\n'), ("t", '\t'), ("v", VerticalTab), ("u202F", NarrowNoBreakSpace), ("u2009", ThinSpace)][k]
  }

  /** FormattedInspectorString: the typed sequences backslash-n, backslash-t, backslash-v,
      backslash-u202F and backslash-u2009 become the characters they name, replaced one
      after the other in that order. */
  function FormattedInspectorString(stringToConvert: string): (r: string)
    ensures Backslash !in stringToConvert ==> r == stringToConvert
    ensures |r| <= |stringToConvert|
  {
    ReplaceEscapesFromMeaning(stringToConvert, 0);
    ReplaceEscapesFrom(stringToConvert, 0)
  }

  /** The replacements of escapes k, k+1, ..., 4, in that order. */
  function ReplaceEscapesFrom(s: string, k: nat): string
    requires k <= 5
    decreases 5 - k
  {
    if k == 5 then s
    else ReplaceEscapesFrom(ReplaceLiteral(s, [Backslash] + Escape(k).0, [Escape(k).1]), k + 1)
  }

  lemma {:induction false} ReplaceEscapesFromMeaning(s: string, k: nat)
    requires k <= 5
    ensures Backslash !in s ==> ReplaceEscapesFrom(s, k) == s
    ensures |ReplaceEscapesFrom(s, k)| <= |s|
    decreases 5 - k
  {
    if k < 5 {
      var pattern, replacement := [Backslash] + Escape(k).0, [Escape(k).1];
      var s' := ReplaceLiteral(s, pattern, replacement);
      ReplaceLiteralShrinks(s, pattern, replacement);
      ReplaceEscapesFromMeaning(s', k + 1);
      if Backslash !in s {
        ReplaceLiteralAbsent(s, pattern, replacement);
      }
    }
  }

  /** Text free of the first character of oldValue passes through a replacement unchanged. */
  lemma {:induction false} ReplaceLiteralKeepsPrefix(p: string, t: string, oldValue: string, newValue: string)
    requires oldValue != [] && oldValue[0] !in p
    ensures ReplaceLiteral(p + t, oldValue, newValue) == p + ReplaceLiteral(t, oldValue, newValue)
    decreases |p|
  {
    if p != [] {
      var s := p + t;
      if |s| >= |oldValue| {
        assert s[..|oldValue|][0] == p[0];
        assert s[1..] == p[1..] + t;
        ReplaceLiteralKeepsPrefix(p[1..], t, oldValue, newValue);
      } else {
        assert ReplaceLiteral(t, oldValue, newValue) == t;
      }
    } else {
      assert p + t == t;
    }
  }

  /** Two different escapes differ at position i of their names. */
  lemma EscapesDiffer(j: nat, k: nat) returns (i: nat)
    requires j < k < 5
    ensures i < |Escape(j).0| && i < |Escape(k).0| && Escape(j).0[i] != Escape(k).0[i]
  {
    i := if j == 3 then 3 else 0;
  }

  /** A replacement pass whose pattern (a backslash, then a name) differs from the typed
      escape e at position i of the name keeps the backslash and e. */
  lemma PassSkipsEscape(a: string, e: string, b: string, pattern: string, replacement: string, i: nat)
    requires Backslash !in a && Backslash !in e && |pattern| >= 2 && pattern[0] == Backslash
    requires i < |e| && i + 1 < |pattern| && e[i] != pattern[i + 1]
    ensures ReplaceLiteral(a + [Backslash] + e + b, pattern, replacement) ==
      a + [Backslash] + e + ReplaceLiteral(b, pattern, replacement)
  {
    var k := [Backslash] + e;
    AppendAssociative(a, [Backslash], e);
    AppendAssociative(a, k, b);
    AppendAssociative(a, k, ReplaceLiteral(b, pattern, replacement));
    ReplaceLiteralKeepsPrefix(a, k + b, pattern, replacement);
    MismatchKeepsEscape(e, b, pattern, replacement, i);
  }

  /** The step of PassSkipsEscape at the backslash itself. */
  lemma MismatchKeepsEscape(e: string, b: string, pattern: string, replacement: string, i: nat)
    requires Backslash !in e && |pattern| >= 2 && pattern[0] == Backslash
    requires i < |e| && i + 1 < |pattern| && e[i] != pattern[i + 1]
    ensures ReplaceLiteral([Backslash] + e + b, pattern, replacement) ==
      [Backslash] + e + ReplaceLiteral(b, pattern, replacement)
  {
    var s := [Backslash] + e + b;
    ReplaceLiteralKeepsPrefix(e, b, pattern, replacement);
    if |s| >= |pattern| {
      assert s[..|pattern|][i + 1] == e[i];
      assert s[1..] == e + b;
    } else {
      assert ReplaceLiteral(b, pattern, replacement) == b;
    }
  }

  /** The pass of a typed sequence replaces it. */
  lemma PassReplacesEscape(a: string, e: string, b: string, replacement: string)
    requires Backslash !in a
    ensures ReplaceLiteral(a + [Backslash] + e + b, [Backslash] + e, replacement) ==
      a + replacement + ReplaceLiteral(b, [Backslash] + e, replacement)
  {
    var pattern := [Backslash] + e;
    var s := pattern + b;
    assert a + [Backslash] + e + b == a + s;
    ReplaceLiteralKeepsPrefix(a, s, pattern, replacement);
    assert s[..|pattern|] == pattern && s[|pattern|..] == b;
  }

  lemma {:induction false} EscapeThroughPasses(a: string, k: nat, b: string, j: nat)
    requires Backslash !in a && j <= k < 5
    ensures ReplaceEscapesFrom(a + [Backslash] + Escape(k).0 + b, j) ==
      a + [Escape(k).1] + ReplaceEscapesFrom(b, j)
    decreases 5 - j
  {
    var pattern, replacement := [Backslash] + Escape(j).0, [Escape(j).1];
    var b' := ReplaceLiteral(b, pattern, replacement);
    if j < k {
      var i := EscapesDiffer(j, k);
      PassSkipsEscape(a, Escape(k).0, b, pattern, replacement, i);
      EscapeThroughPasses(a, k, b', j + 1);
    } else {
      PassReplacesEscape(a, Escape(k).0, b, replacement);
      KeepsPrefixThroughPasses(a + replacement, b', j + 1);
    }
  }

  lemma {:induction false} KeepsPrefixThroughPasses(p: string, t: string, j: nat)
    requires Backslash !in p && j <= 5
    ensures ReplaceEscapesFrom(p + t, j) == p + ReplaceEscapesFrom(t, j)
    decreases 5 - j
  {
    if j < 5 {
      var pattern, replacement := [Backslash] + Escape(j).0, [Escape(j).1];
      ReplaceLiteralKeepsPrefix(p, t, pattern, replacement);
      KeepsPrefixThroughPasses(p, ReplaceLiteral(t, pattern, replacement), j + 1);
    }
  }

  /** Every typed escape becomes the character it names: after backslash-free text a,
      the escape is replaced and the rest of the string is formatted on its own. */
  lemma FormattedInspectorStringEscape(a: string, k: nat, b: string)
    requires Backslash !in a && k < 5
    ensures FormattedInspectorString(a + [Backslash] + Escape(k).0 + b) ==
      a + [Escape(k).1] + FormattedInspectorString(b)
  {
    EscapeThroughPasses(a, k, b, 0);
  }

  /** A typed \n between two letters becomes a line break. */
  lemma FormattedInspectorStringExample()
    ensures FormattedInspectorString(['a', Backslash, 'n', 'b']) == "a\nb"
  {
    FormattedInspectorStringEscape("a", 0, "b");
    assert "a" + [Backslash] + Escape(0).0 + "b" == ['a', Backslash, 'n', 'b'];
  }

  // ---------------------------------------------------------------- size tag, first word, counting

  /** ResizeString: the text wrapped in a rich-text size tag. */
  function ResizeString(text: string, fontSize: int): (r: string)
    ensures |r| == 6 + |IntToString(fontSize)| + 1 + |text| + 7
    ensures r[..6] == "<size=" && r[|r| - 7..] == "</size>"
    ensures r[7 + |IntToString(fontSize)|..|r| - 7] == text
    ensures r[6..6 + |IntToString(fontSize)|] == IntToString(fontSize)
    ensures ParseInt(r[6..6 + |IntToString(fontSize)|]) == fontSize
  {
    var digits := IntToString(fontSize);
    IntToStringRoundTrip(fontSize);
    var r := "<size=" + digits + ">" + text + "</size>";
    assert r[6..6 + |digits|] == digits;
    assert r[7 + |digits|..|r| - 7] == text;
    r
  }

  /** char.IsUpper, restricted to ASCII. */
  predicate IsUpper(c: char) {
    'A' <= c <= 'Z'
  }

  /**
    DropFirstWord: the suffix from the first upper-case letter after the first character
    on; without one, only the last character. The empty string makes input[1..] throw.
  */
  method DropFirstWord(input: string) returns (r: Option<string>)
    ensures input == [] <==> r.None?
    ensures r.Some? ==> 1 <= |r.value| <= |input| && r.value == input[|input| - |r.value|..]
    ensures r.Some? ==> forall k :: 1 <= k < |input| - |r.value| ==> !IsUpper(input[k])
    ensures r.Some? ==> |r.value| == 1 || (|r.value| < |input| && IsUpper(r.value[0]))
  {
    if input == [] {
      return None;
    }
    var indexSecondWord := 0;
    var rest := input[1..];
    var i := 0;
    while i < |rest|
      invariant 0 <= i <= |rest| && indexSecondWord == i
      invariant forall k :: 1 <= k <= indexSecondWord ==> !IsUpper(input[k])
    {
      indexSecondWord := indexSecondWord + 1;
      if IsUpper(rest[i]) {
        break;
      }
      i := i + 1;
    }
    return Some(input[indexSecondWord..]);
  }

  /** The number of positions of s holding one of characters. */
  function CountIn(s: string, characters: seq<char>): (n: nat)
    ensures n <= |s|
  {
    if s == [] then 0 else CountIn(s[..|s| - 1], characters) + (if s[|s| - 1] in characters then 1 else 0)
  }

  /** CountOccurenceOfSpecificCharacters; null input (None) counts 0. */
  function CountOccurenceOfSpecificCharacters(input: Option<string>, characters: seq<char>): (n: nat)
    ensures input.None? || input.value == [] ==> n == 0
    ensures input.Some? ==> n <= |input.value|
  {
    if input.None? || input.value == [] then 0 else CountIn(input.value, characters)
  }

  lemma {:induction false} CountInAppend(a: string, b: string, characters: seq<char>)
    ensures CountIn(a + b, characters) == CountIn(a, characters) + CountIn(b, characters)
    decreases |b|
  {
    if b != [] {
      CountInAppend(a, b[..|b| - 1], characters);
      assert (a + b)[..|a + b| - 1] == a + b[..|b| - 1];
      assert (a + b)[|a + b| - 1] == b[|b| - 1];
    } else {
      assert a + b == a;
    }
  }

  /** The count is the length exactly when every character is listed, and 0 exactly when none is. */
  lemma {:induction false} CountInExtremes(s: string, characters: seq<char>)
    ensures CountIn(s, characters) == |s| <==> forall i :: 0 <= i < |s| ==> s[i] in characters
    ensures CountIn(s, characters) == 0 <==> forall i :: 0 <= i < |s| ==> s[i] !in characters
  {
    if s != [] {
      var front := s[..|s| - 1];
      CountInExtremes(front, characters);
      assert forall i :: 0 <= i < |front| ==> front[i] == s[i];
    }
  }
}
