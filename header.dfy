/**
 * `extract_header`: the run metadata that `darshan-parser` prints before the
 * first line mentioning "log file regions".
 */
module Header {
  import opened PyStr

  const RegionsSentinel := "log file regions"

  /** How many leading lines belong to the header: up to, not including, the first line holding the sentinel. */
  function HeaderLength(lines: seq<string>): (k: nat)
    ensures k <= |lines|
    ensures forall i | 0 <= i < k :: !Contains(lines[i], RegionsSentinel)
    ensures k < |lines| ==> Contains(lines[k], RegionsSentinel)
  {
    if lines == [] || Contains(lines[0], RegionsSentinel) then 0
    else 1 + HeaderLength(lines[1..])
  }

  /** The lines, each followed by "\n", as `header_text += line + "\n"` builds them. */
  function Terminated(lines: seq<string>): string {
    if lines == [] then "" else lines[0] + "\n" + Terminated(lines[1..])
  }

  /** The header text of a whole log. */
  function HeaderText(logData: string): string {
    var lines := SplitLines(logData);
    Terminated(lines[..HeaderLength(lines)])
  }

  /** Extends `Terminated` by one line at the end, as one loop iteration does. */
  lemma {:induction false} TerminatedSnoc(lines: seq<string>, line: string)
    ensures Terminated(lines + [line]) == Terminated(lines) + line + "\n"
    decreases |lines|
  {
    if lines == [] {
      assert lines + [line] == [line];
    } else {
      assert (lines + [line])[1..] == lines[1..] + [line];
      TerminatedSnoc(lines[1..], line);
    }
  }

  method ExtractHeader(logData: string) returns (headerText: string)
    ensures headerText == HeaderText(logData)
  {
    var lines := SplitLines(logData);
    headerText := "";
    var i := 0;
    while i < |lines|
      invariant i <= HeaderLength(lines)
      invariant headerText == Terminated(lines[..i])
    {
      if Contains(lines[i], RegionsSentinel) {
        break;
      }
      TerminatedSnoc(lines[..i], lines[i]);
      assert lines[..i + 1] == lines[..i] + [lines[i]];
      headerText := headerText + lines[i] + "\n";
      i := i + 1;
    }
  }

  /** An occurrence of a pattern without newlines cannot straddle a "\n". */
  lemma {:induction false} NoOccurrenceAcrossNewline(a: string, b: string, p: string)
    requires '\n' !in p
    requires !Contains(a, p) && !Contains(b, p)
    ensures !Contains(a + "\n" + b, p)
    decreases |a|
  {
    var s := a + "\n" + b;
    if a == [] {
      assert s == "\n" + b && s[1..] == b;
    } else {
      assert s[1..] == a[1..] + "\n" + b;
      NoOccurrenceAcrossNewline(a[1..], b, p);
      if |p| <= |a| {
        assert s[..|p|] == a[..|p|];
      } else {
        assert s[|a|] == '\n';
      }
    }
  }

  /** No header text ever contains the sentinel, not even across a line break. */
  lemma {:induction false} HeaderLacksSentinel(logData: string)
    ensures !Contains(HeaderText(logData), RegionsSentinel)
  {
    var lines := SplitLines(logData);
    TerminatedLacks(lines[..HeaderLength(lines)]);
  }

  lemma {:induction false} TerminatedLacks(lines: seq<string>)
    requires forall i | 0 <= i < |lines| :: !Contains(lines[i], RegionsSentinel)
    ensures !Contains(Terminated(lines), RegionsSentinel)
    decreases |lines|
  {
    if lines == [] {
      assert !StartsWith("", RegionsSentinel);
    } else {
      TerminatedLacks(lines[1..]);
      NoOccurrenceAcrossNewline(lines[0], Terminated(lines[1..]), RegionsSentinel);
    }
  }

  /** Splitting the header text again gives back exactly the header lines. */
  lemma HeaderRoundTrip(logData: string)
    ensures SplitLines(HeaderText(logData)) == SplitLines(logData)[..HeaderLength(SplitLines(logData))]
  {
    var lines := SplitLines(logData);
    SplitTerminated(lines[..HeaderLength(lines)]);
  }

  /** When no line mentions the sentinel the header is the whole log, line by line. */
  lemma HeaderWithoutSentinel(logData: string)
    requires !Contains(logData, RegionsSentinel)
    ensures SplitLines(HeaderText(logData)) == SplitLines(logData)
  {
    var lines := SplitLines(logData);
    NoSentinelInLines(logData);
    assert lines[..|lines|] == lines;
    HeaderRoundTrip(logData);
  }

  /** A log without the sentinel has no line with the sentinel. */
  lemma {:induction false} NoSentinelInLines(s: string)
    requires !Contains(s, RegionsSentinel)
    ensures HeaderLength(SplitLines(s)) == |SplitLines(s)|
    decreases |s|
  {
    var lines := SplitLines(s);
    if s != [] {
      var k := LineEnd(s);
      if Contains(s[..k], RegionsSentinel) {
        ContainsSlice(s, RegionsSentinel, 0, k);
      }
      if k < |s| {
        var next := if s[k] == '\r' && k + 1 < |s| && s[k + 1] == '\n' then k + 2 else k + 1;
        if Contains(s[next..], RegionsSentinel) {
          assert s[next..|s|] == s[next..];
          ContainsSlice(s, RegionsSentinel, next, |s|);
        }
        NoSentinelInLines(s[next..]);
        assert lines[1..] == SplitLines(s[next..]);
      } else {
        assert s[..k] == s;
      }
    }
  }

  lemma {:induction false} SplitTerminated(lines: seq<string>)
    requires forall i | 0 <= i < |lines| :: NoLineBreak(lines[i])
    ensures SplitLines(Terminated(lines)) == lines
    decreases |lines|
  {
    if lines != [] {
      var l := lines[0];
      var rest := Terminated(lines[1..]);
      var s := Terminated(lines);
      assert s == l + ("\n" + rest);
      LineEndAt(l, "\n" + rest);
      assert s[..|l|] == l;
      assert s[|l| + 1..] == rest;
      SplitTerminated(lines[1..]);
    }
  }

  lemma {:induction false} LineEndAt(l: string, rest: string)
    requires NoLineBreak(l) && rest != [] && IsLineBreak(rest[0])
    ensures LineEnd(l + rest) == |l|
    decreases |l|
  {
    if l == [] {
      assert l + rest == rest;
    } else {
      assert (l + rest)[1..] == l[1..] + rest;
      LineEndAt(l[1..], rest);
    }
  }
}
