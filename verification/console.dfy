/**
  What the scan writes to the serial console. Each `uart_puts` call is one
  string in an append-only list; the console shows their concatenation.
 */
module Console {
  import Hex

  const LineBreak: string := "\r\n"

  /**
    The `uart_puts` calls that report a list of addresses: a line break,
    then the address in base 16, for each address in order.
   */
  function ReportLines(addrs: seq<nat>): (lines: seq<string>)
    ensures |lines| == 2 * |addrs|
    ensures forall i :: 0 <= i < |addrs| ==> lines[2 * i] == LineBreak && lines[2 * i + 1] == Hex.Format(addrs[i])
  {
    if |addrs| == 0 then []
    else ReportLines(addrs[..|addrs| - 1]) + [LineBreak, Hex.Format(addrs[|addrs| - 1])]
  }

  /** Reporting one more address appends its two strings and changes nothing before them. */
  lemma ReportLinesSnoc(addrs: seq<nat>, a: nat)
    ensures ReportLines(addrs + [a]) == ReportLines(addrs) + [LineBreak, Hex.Format(a)]
  {
    assert (addrs + [a])[..|addrs|] == addrs;
  }

  /** The characters the console receives for a list of `uart_puts` calls. */
  function Text(lines: seq<string>): string {
    if |lines| == 0 then [] else Text(lines[..|lines| - 1]) + lines[|lines| - 1]
  }

  lemma TextSnoc2(lines: seq<string>, a: string, b: string)
    ensures Text(lines + [a, b]) == Text(lines) + a + b
  {
    assert (lines + [a, b])[..|lines| + 1] == lines + [a];
    assert (lines + [a])[..|lines|] == lines;
  }

  /** Reporting one more address extends the console text by a line break and that address. */
  lemma ReportTextSnoc(addrs: seq<nat>, a: nat)
    ensures Text(ReportLines(addrs + [a])) == Text(ReportLines(addrs)) + LineBreak + Hex.Format(a)
  {
    ReportLinesSnoc(addrs, a);
    TextSnoc2(ReportLines(addrs), LineBreak, Hex.Format(a));
  }

  /** The position of the last carriage return in `t[..n]`, or -1 when there is none. */
  function LastCr(t: string, n: nat): (j: int)
    requires n <= |t|
    ensures -1 <= j < n
    ensures j >= 0 ==> t[j] == '\r'
    ensures forall k :: j < k < n ==> t[k] != '\r'
  {
    if n == 0 then -1 else if t[n - 1] == '\r' then n - 1 else LastCr(t, n - 1)
  }

  /**
    Reads console text back into the list of reported addresses, line by
    line from the end. Of text that is not a well-formed report, only the
    well-formed lines that end it are read.
   */
  function Parse(t: string): seq<nat>
    decreases |t|
  {
    var j := LastCr(t, |t|);
    if j < 0 || j + 2 > |t| || t[j + 1] != '\n' || !Hex.AllDigits(t[j + 2..]) then []
    else Parse(t[..j]) + [Hex.Parse(t[j + 2..])]
  }

  /** One more well-formed line at the end of the text adds one more address at the end. */
  lemma ParseLine(prefix: string, h: string)
    requires Hex.AllDigits(h)
    ensures Parse(prefix + LineBreak + h) == Parse(prefix) + [Hex.Parse(h)]
  {
    var t := prefix + LineBreak + h;
    var j := |prefix|;
    assert t[j] == '\r' && t[j + 1] == '\n';
    forall k | j < k < |t|
      ensures t[k] != '\r'
    {
      if k > j + 1 {
        assert t[k] == h[k - j - 2];
      }
    }
    assert LastCr(t, |t|) == j;
    assert t[j + 2..] == h;
    assert t[..j] == prefix;
  }

  /** The console text of a report names exactly the reported addresses, in order. */
  lemma {:induction false} ParseReport(addrs: seq<nat>)
    ensures Parse(Text(ReportLines(addrs))) == addrs
  {
    if |addrs| > 0 {
      var xs, x := addrs[..|addrs| - 1], addrs[|addrs| - 1];
      assert addrs == xs + [x];
      TextSnoc2(ReportLines(xs), LineBreak, Hex.Format(x));
      ParseLine(Text(ReportLines(xs)), Hex.Format(x));
      Hex.ParseFormat(x);
      ParseReport(xs);
    }
  }

  /** Different address lists never produce the same console text. */
  lemma ReportTextInjective(xs: seq<nat>, ys: seq<nat>)
    ensures Text(ReportLines(xs)) == Text(ReportLines(ys)) <==> xs == ys
  {
    ParseReport(xs);
    ParseReport(ys);
  }
}
