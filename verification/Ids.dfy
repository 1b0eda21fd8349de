/**
 Generated identifiers: a tag, the wall clock in decimal, a dash, and a process-wide
 sequence number in decimal (src/client.cpp next_action_id, src/confirmation_gate.cpp
 store_request).
 */
module Ids {
  /** Where a std::atomic<uint64_t> sequence number wraps. */
  const COUNTER_LIMIT := 0x1_0000_0000_0000_0000

  function Digit(d: nat): char
    requires d < 10
  {
    '0' + d as char
  }

  /** std::to_string of an unsigned number. */
  function Decimal(n: nat): string {
    if n < 10 then [Digit(n)] else Decimal(n / 10) + [Digit(n % 10)]
  }

  function Identifier(tag: string, millis: nat, sequence: nat): string {
    tag + Decimal(millis) + "-" + Decimal(sequence)
  }

  ghost predicate Digits(s: string) {
    forall i :: 0 <= i < |s| ==> '0' <= s[i] <= '9'
  }

  function Value(s: string): int {
    if s == [] then 0 else 10 * Value(s[..|s| - 1]) + (s[|s| - 1] as int - '0' as int)
  }

  lemma {:induction false} DecimalRoundTrip(n: nat)
    ensures Digits(Decimal(n)) && Value(Decimal(n)) == n
  {
    if n >= 10 {
      DecimalRoundTrip(n / 10);
      assert Decimal(n)[..|Decimal(n)| - 1] == Decimal(n / 10);
    } else {
      assert Decimal(n)[..0] == [];
    }
  }

  lemma DecimalIsInjective(m: nat, n: nat)
    requires Decimal(m) == Decimal(n)
    ensures m == n
  {
    DecimalRoundTrip(m);
    DecimalRoundTrip(n);
  }

  /** The first dash separates the two numbers. */
  lemma DashSeparates(a: string, b: string, c: string, d: string)
    requires Digits(a) && Digits(c) && a + "-" + b == c + "-" + d
    ensures a == c && b == d
  {
    var s := a + "-" + b;
    assert s[|a|] == '-' && s[|c|] == '-';
    assert s[..|a|] == a && s[..|c|] == c;
    assert s[|a| + 1..] == b && s[|c| + 1..] == d;
  }

  /** Identifiers with the same tag are equal only if both numbers are. */
  lemma IdentifierIsInjective(tag: string, m: nat, i: nat, n: nat, j: nat)
    requires Identifier(tag, m, i) == Identifier(tag, n, j)
    ensures m == n && i == j
  {
    hide Decimal;
    DecimalRoundTrip(m);
    DecimalRoundTrip(n);
    var x, y := Decimal(m) + "-" + Decimal(i), Decimal(n) + "-" + Decimal(j);
    assert Identifier(tag, m, i) == tag + x && Identifier(tag, n, j) == tag + y;
    assert (tag + x)[|tag|..] == x && (tag + y)[|tag|..] == y;
    DashSeparates(Decimal(m), Decimal(i), Decimal(n), Decimal(j));
    DecimalIsInjective(m, n);
    DecimalIsInjective(i, j);
  }

  /** No leading zeros: the text is the number's only one. */
  lemma {:induction false} DecimalIsCanonical(n: nat)
    ensures |Decimal(n)| > 0 && (n > 0 ==> Decimal(n)[0] != '0') && (n == 0 ==> Decimal(n) == "0")
  {
    if n >= 10 { DecimalIsCanonical(n / 10); }
  }

  /** Tag, then the time, then a dash and the sequence number. */
  lemma IdentifierReads(tag: string, millis: nat, sequence: nat) returns (time: string, number: string)
    ensures Identifier(tag, millis, sequence) == tag + time + "-" + number
    ensures Digits(time) && Digits(number) && Value(time) == millis && Value(number) == sequence
  {
    hide Decimal;
    DecimalRoundTrip(millis);
    DecimalRoundTrip(sequence);
    time, number := Decimal(millis), Decimal(sequence);
  }
}
