/** The status line both encoder supervisors publish from the encoder's
    periodic statistics. The statistics pattern captures, in order, the frame
    count, frames per second, output size in kB, the elapsed time as hours,
    minutes, seconds and a fraction, the bitrate and the speed; the line is
    the state word followed by frame, fps, size, whole seconds, bitrate and
    speed, joined with commas. */
module Telemetry {
  import opened Params

  /** The captures of the first match of the statistics pattern. Digit
      groups are kept as the numbers `parseFloat` gives for them; `fps`,
      `bitrate` and `speed` (captured as `\S+`) are kept as the text the
      number `parseFloat` gives for them prints as. */
  datatype FrameMatch = FrameMatch(
    frame: nat, fps: string, size: nat,
    hours: nat, minutes: nat, seconds: nat, fraction: nat,
    bitrate: string, speed: string)

  predicate IsDigit(c: char)
  {
    '0' <= c <= '9'
  }

  predicate IsDigits(s: string)
  {
    forall i :: 0 <= i < |s| ==> IsDigit(s[i])
  }

  function Digit(d: nat): (c: char)
    requires d < 10
    ensures IsDigit(c) && c as int - '0' as int == d
  {
    ('0' as int + d) as char
  }

  /** How a non-negative integer prints: its decimal digits, with no
      leading zero except for zero itself. */
  function NatToString(n: nat): (r: string)
    ensures |r| >= 1 && IsDigits(r)
    ensures (r[0] == '0') == (n == 0)
    decreases n
  {
    if n < 10 then [Digit(n)] else NatToString(n / 10) + [Digit(n % 10)]
  }

  /** The value of a string of decimal digits. */
  function ParseNat(s: string): nat
    requires IsDigits(s)
    decreases |s|
  {
    if s == [] then 0 else 10 * ParseNat(s[..|s| - 1]) + (s[|s| - 1] as int - '0' as int)
  }

  /** Reading a printed number gives the number back. */
  lemma {:induction false} NatRoundTrip(n: nat)
    ensures ParseNat(NatToString(n)) == n
    decreases n
  {
    var s := NatToString(n);
    if n < 10 {
      assert s[..0] == [];
    } else {
      NatRoundTrip(n / 10);
      assert s[..|s| - 1] == NatToString(n / 10);
    }
  }

  /** `join(sep)` of a non-empty list of texts. */
  function Join(ts: seq<string>, sep: char): (r: string)
    requires |ts| >= 1
    decreases |ts|
  {
    if |ts| == 1 then ts[0] else ts[0] + [sep] + Join(ts[1..], sep)
  }

  /** Splitting text that starts with a separator-free prefix extends the
      first piece by that prefix. */
  lemma {:induction false} SplitPrefix(a: string, b: string, sep: char)
    requires Avoids(a, sep)
    ensures Split(a + b, sep) == [a + Split(b, sep)[0]] + Split(b, sep)[1..]
    decreases |a|
  {
    var rest := Split(b, sep);
    if a == [] {
      assert a + b == b && a + rest[0] == rest[0];
    } else {
      assert (a + b)[0] == a[0] && (a + b)[1..] == a[1..] + b;
      SplitPrefix(a[1..], b, sep);
      assert [a[0]] + (a[1..] + rest[0]) == a + rest[0];
    }
  }

  /** Splitting a joined list at the separator gives the list back when no
      element holds the separator. */
  lemma {:induction false} SplitJoin(ts: seq<string>, sep: char)
    requires |ts| >= 1
    requires forall k :: 0 <= k < |ts| ==> Avoids(ts[k], sep)
    ensures Split(Join(ts, sep), sep) == ts
    decreases |ts|
  {
    if |ts| == 1 {
      SplitPrefix(ts[0], [], sep);
      assert ts[0] + [] == ts[0];
    } else {
      var j := Join(ts[1..], sep);
      assert Join(ts, sep) == ts[0] + ([sep] + j);
      SplitPrefix(ts[0], [sep] + j, sep);
      assert ([sep] + j)[0] == sep && ([sep] + j)[1..] == j;
      SplitJoin(ts[1..], sep);
      assert ts[0] + [] == ts[0];
    }
  }

  /** The elapsed time in whole seconds; the fraction group is not used. */
  function Seconds(m: FrameMatch): nat
  {
    m.hours * 3600 + m.minutes * 60 + m.seconds
  }

  /** The fields of the status line, in order. */
  function StatusFields(head: string, m: FrameMatch): (r: seq<string>)
    ensures |r| == 7
  {
    [head, NatToString(m.frame), m.fps, NatToString(m.size), NatToString(Seconds(m)), m.bitrate, m.speed]
  }

  /** `out.join(',')` over the status fields. */
  function StatusLine(head: string, m: FrameMatch): string
  {
    Join(StatusFields(head, m), ',')
  }

  lemma DigitsAvoidComma(s: string)
    requires IsDigits(s)
    ensures Avoids(s, ',')
  {
  }

  /** A status line reads back field by field: the state word, the frame
      count, fps, size, the elapsed whole seconds, bitrate and speed, as
      long as the state word and the three printed numbers hold no comma. */
  lemma StatusRoundTrip(head: string, m: FrameMatch)
    requires Avoids(head, ',') && Avoids(m.fps, ',') && Avoids(m.bitrate, ',') && Avoids(m.speed, ',')
    ensures var f := Split(StatusLine(head, m), ',');
      |f| == 7 && f[0] == head && f[2] == m.fps && f[5] == m.bitrate && f[6] == m.speed &&
      IsDigits(f[1]) && IsDigits(f[3]) && IsDigits(f[4]) &&
      ParseNat(f[1]) == m.frame && ParseNat(f[3]) == m.size &&
      ParseNat(f[4]) == m.hours * 3600 + m.minutes * 60 + m.seconds
  {
    var fs := StatusFields(head, m);
    DigitsAvoidComma(fs[1]);
    DigitsAvoidComma(fs[3]);
    DigitsAvoidComma(fs[4]);
    SplitJoin(fs, ',');
    NatRoundTrip(m.frame);
    NatRoundTrip(m.size);
    NatRoundTrip(Seconds(m));
  }
}
