/** The entity tag of a stream's message: its run id and sequence number in decimal. */
module Etag {

  function Digit(d: nat): (c: char)
    requires d < 10
    ensures '0' <= c <= '9'
  {
    ('0' as int + d) as char
  }

  /** A number in decimal, without leading zeros. */
  function Decimal(n: nat): (s: string)
    ensures |s| > 0 && forall i | 0 <= i < |s| :: '0' <= s[i] <= '9'
  {
    if n < 10 then [Digit(n)] else Decimal(n / 10) + [Digit(n % 10)]
  }

  /** The number a string of digits stands for. */
  function Value(s: string): nat
    requires forall i | 0 <= i < |s| :: '0' <= s[i] <= '9'
  {
    if |s| == 0 then 0 else Value(s[..|s| - 1]) * 10 + (s[|s| - 1] as int - '0' as int)
  }

  /** Reading back a written number gives the number. */
  lemma {:induction false} DecimalRoundTrip(n: nat)
    ensures Value(Decimal(n)) == n
  {
    if n < 10 {
      assert Decimal(n)[..0] == [];
    } else {
      DecimalRoundTrip(n / 10);
      assert Decimal(n)[..|Decimal(n)| - 1] == Decimal(n / 10);
    }
  }

  /** The tag of message `seq` of run `runId`, in quotes. */
  function Tag(runId: nat, seq_: nat): string {
    "\"" + Decimal(runId) + "-" + Decimal(seq_) + "\""
  }

  /** A tag is the two numbers, in quotes and with a dash between them. */
  lemma TagReadsBack(runId: nat, seq_: nat)
    ensures var t, dash := Tag(runId, seq_), |Decimal(runId)| + 1;
            && 0 < dash < |t| - 1 && t[0] == '"' && t[dash] == '-' && t[|t| - 1] == '"'
            && (forall i | 0 < i < |t| - 1 && i != dash :: '0' <= t[i] <= '9')
            && Value(t[1..dash]) == runId && Value(t[dash + 1..|t| - 1]) == seq_
  {
    hide Decimal;
    var t, dash := Tag(runId, seq_), |Decimal(runId)| + 1;
    assert t[1..dash] == Decimal(runId);
    assert t[dash + 1..|t| - 1] == Decimal(seq_);
    DecimalRoundTrip(runId);
    DecimalRoundTrip(seq_);
  }

  /** Different messages have different tags. */
  lemma TagInjective(run1: nat, seq1: nat, run2: nat, seq2: nat)
    requires Tag(run1, seq1) == Tag(run2, seq2)
    ensures run1 == run2 && seq1 == seq2
  {
    var a, b, c, d := Decimal(run1), Decimal(seq1), Decimal(run2), Decimal(seq2);
    var t := Tag(run1, seq1);
    assert forall i | 0 <= i < |a| :: t[i + 1] == a[i];
    assert forall i | 0 <= i < |c| :: t[i + 1] == c[i];
    assert t[|a| + 1] == '-' && t[|c| + 1] == '-';
    assert |a| == |c| && |b| == |d|;
    assert a == c;
    assert forall i | 0 <= i < |b| :: t[|a| + 2 + i] == b[i];
    assert forall i | 0 <= i < |d| :: t[|c| + 2 + i] == d[i];
    assert b == d;
    DecimalRoundTrip(run1);
    DecimalRoundTrip(run2);
    DecimalRoundTrip(seq1);
    DecimalRoundTrip(seq2);
  }
}
