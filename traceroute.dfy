/** The post-processing of `traceroute(ip)` in ping-to-us.py: keep, for
    every hop line after the header, its first two tokens (hop number and
    address). */
module Traceroute {
  import opened Text
  import opened Command

  /** The entry kept for one line: its first two tokens joined by a space. */
  function HopEntry(line: string): string
    requires |Words(line)| >= 2
  {
    Words(line)[0] + " " + Words(line)[1]
  }

  /** The entries kept for `lines`, in order: one per line that has at least
      two tokens, none for any other line. */
  function HopLines(lines: seq<string>): (r: seq<string>)
    ensures |r| <= |lines|
  {
    if lines == [] then []
    else
      var rest := HopLines(lines[1..]);
      if |Words(lines[0])| >= 2 then [HopEntry(lines[0])] + rest else rest
  }

  /** The lines of the captured text, header included: the stripped output
      split on '\n'. */
  function OutputLines(output: string): (lines: seq<string>)
    ensures |lines| >= 1
  {
    Split(Strip(output), '\n')
  }

  /** What `traceroute(ip)` returns for a completed run. */
  function HopText(output: string): string {
    Join(HopLines(OutputLines(output)[1..]), '\n')
  }

  /** Processing distributes over concatenation of the line list, so the
      entries come out in the order of their lines. */
  lemma {:induction false} HopLinesAppend(a: seq<string>, b: seq<string>)
    ensures HopLines(a + b) == HopLines(a) + HopLines(b)
  {
    if a != [] {
      assert (a + b)[0] == a[0];
      assert (a + b)[1..] == a[1..] + b;
      HopLinesAppend(a[1..], b);
    } else {
      assert a + b == b;
    }
  }

  /** `entry` is the entry of line `j`: the line has at least two tokens, and
      `entry` is its first two tokens joined by a space, which split back into
      exactly those two tokens. */
  predicate EntryOf(lines: seq<string>, j: int, entry: string) {
    0 <= j < |lines| && |Words(lines[j])| >= 2
    && entry == HopEntry(lines[j])
    && Words(entry) == Words(lines[j])[..2]
  }

  /** One more line after the header extends the entries by that line's
      entry, if it has one. */
  lemma {:induction false} HopLinesExtend(lines: seq<string>, i: int)
    requires 1 <= i < |lines|
    ensures HopLines(lines[1..i + 1]) == HopLines(lines[1..i])
      + (if |Words(lines[i])| >= 2 then [HopEntry(lines[i])] else [])
  {
    assert lines[1..i + 1] == lines[1..i] + [lines[i]];
    HopLinesAppend(lines[1..i], [lines[i]]);
  }

  /** Every entry is exactly the first two tokens of some input line with at
      least two tokens, separated by one space; it therefore splits back into
      those two tokens and holds no line break. */
  lemma {:induction false} HopLinesEntries(lines: seq<string>, k: int)
    requires 0 <= k < |HopLines(lines)|
    ensures exists j :: EntryOf(lines, j, HopLines(lines)[k])
    ensures '\n' !in HopLines(lines)[k]
  {
    var rest := HopLines(lines[1..]);
    if |Words(lines[0])| >= 2 && k == 0 {
      var ws := Words(lines[0]);
      assert Join([ws[0], ws[1]], ' ') == HopEntry(lines[0]);
      WordsOfJoin([ws[0], ws[1]]);
      assert ws[..2] == [ws[0], ws[1]];
      NoBreakInEntry(ws[0], ws[1]);
      assert EntryOf(lines, 0, HopLines(lines)[k]);
    } else {
      var k' := if |Words(lines[0])| >= 2 then k - 1 else k;
      assert HopLines(lines)[k] == rest[k'];
      HopLinesEntries(lines[1..], k');
      var j :| EntryOf(lines[1..], j, rest[k']);
      assert lines[1..][j] == lines[j + 1];
      assert EntryOf(lines, j + 1, HopLines(lines)[k]);
    }
  }

  /** Two whitespace-free tokens joined by a space hold no '\n'. */
  lemma NoBreakInEntry(a: string, b: string)
    requires IsWord(a) && IsWord(b)
    ensures '\n' !in a + " " + b
  {
  }

  /** The returned text holds exactly the entries: splitting it on '\n' gives
      them back whenever there is at least one. */
  lemma {:induction false} HopTextSplitsIntoEntries(output: string)
    requires |HopLines(OutputLines(output)[1..])| >= 1
    ensures Split(HopText(output), '\n') == HopLines(OutputLines(output)[1..])
  {
    var entries := HopLines(OutputLines(output)[1..]);
    forall k | 0 <= k < |entries| ensures '\n' !in entries[k] {
      HopLinesEntries(OutputLines(output)[1..], k);
    }
    SplitJoin(entries, '\n');
  }

  /** The header line never yields an entry: a capture whose stripped text
      is a single line gives the empty string, and there are at most as many
      entries as lines after the header. */
  lemma {:induction false} HeaderIsDropped(output: string)
    ensures |HopLines(OutputLines(output)[1..])| <= |OutputLines(output)| - 1
    ensures '\n' !in Strip(output) ==> HopText(output) == ""
  {
    var s := Strip(output);
    if '\n' !in s {
      SplitPrefix(s, [], '\n');
      assert s + [] == s;
      assert OutputLines(output) == [s];
    }
  }

  /** `traceroute(ip)` after its subprocess has run: the raw text of a failed
      run, or the hop entries of a completed one joined by line breaks. */
  method ProcessTraceroute(result: CommandResult) returns (text: string)
    ensures result.CalledProcessError? ==> text == result.output
    ensures result.Completed? ==> text == HopText(result.output)
  {
    match result {
      case CalledProcessError(output) =>
        text := output;
      case Completed(output) =>
        var lines := OutputLines(output);
        var processed: seq<string> := [];
        for i := 1 to |lines|
          invariant processed == HopLines(lines[1..i])
        {
          var parts := Words(lines[i]);
          HopLinesExtend(lines, i);
          if |parts| >= 2 {
            var hop := parts[0];
            var ipAddress := parts[1];
            processed := processed + [hop + " " + ipAddress];
          }
        }
        assert lines[1..|lines|] == lines[1..];
        text := Join(processed, '\n');
    }
  }
}
