/** The names of terminals: tty0 to tty1023. */
module Terminals {

  const TTYS := 1024

  const DIGITS: string := "0123456789"

  function Decimal(n: nat): string {
    (if n < 10 then "" else Decimal(n / 10)) + [DIGITS[n % 10]]
  }

  function Tty(n: nat): string {
    "tty" + Decimal(n)
  }

  /** What a string of digits counts. */
  function ValueOf(s: string): int {
    if s == "" then 0 else 10 * ValueOf(s[..|s| - 1]) + (s[|s| - 1] as int - '0' as int)
  }

  lemma DigitCounts(d: nat)
    requires d < 10
    ensures '0' <= DIGITS[d] <= '9' && DIGITS[d] as int - '0' as int == d
  {
    assert DIGITS[0] == '0' && DIGITS[1] == '1' && DIGITS[2] == '2' && DIGITS[3] == '3' && DIGITS[4] == '4';
    assert DIGITS[5] == '5' && DIGITS[6] == '6' && DIGITS[7] == '7' && DIGITS[8] == '8' && DIGITS[9] == '9';
  }

  predicate AllDigits(s: string) {
    forall i :: 0 <= i < |s| ==> '0' <= s[i] <= '9'
  }

  lemma OneMoreDigit(head: string, d: nat)
    requires AllDigits(head) && d < 10
    ensures var s := head + [DIGITS[d]];
      && AllDigits(s) && ValueOf(s) == 10 * ValueOf(head) + d
      && s[0] == if head == "" then DIGITS[d] else head[0]
  {
    DigitCounts(d);
    assert (head + [DIGITS[d]])[..|head|] == head;
  }

  lemma DecimalNext(n: nat)
    ensures Decimal(n) == (if n < 10 then "" else Decimal(n / 10)) + [DIGITS[n % 10]]
  {
  }

  /** The decimal form consists of digits that count `n`, without a leading zero. */
  lemma {:induction false} DecimalReadsBack(n: nat)
    ensures Decimal(n) != "" && AllDigits(Decimal(n)) && ValueOf(Decimal(n)) == n
    ensures n > 0 ==> Decimal(n)[0] != '0'
  {
    DecimalNext(n);
    DigitCounts(n % 10);
    if n < 10 {
      OneMoreDigit("", n);
    } else {
      DecimalReadsBack(n / 10);
      OneMoreDigit(Decimal(n / 10), n % 10);
    }
  }

  /** So the first terminal is tty0, and no two numbers share a name. */
  lemma TtysAreNumbered(m: nat, n: nat)
    ensures Tty(0) == "tty" + "0"
    ensures "tty" <= Tty(n) && ValueOf(Tty(n)[3..]) == n
    ensures Tty(m) == Tty(n) <==> m == n
  {
    assert "" + ['0'] == "0";
    DigitCounts(0);
    assert Tty(m)[3..] == Decimal(m) && Tty(n)[3..] == Decimal(n);
    DecimalReadsBack(m);
    DecimalReadsBack(n);
  }
}
