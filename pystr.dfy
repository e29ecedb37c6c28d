/**
 * The few operations of Python's `str` that the Darshan parser relies on,
 * written out with Python's semantics: `splitlines()`, `split()` with no
 * argument, emptiness after `strip()`, the `in`, `startswith` and `endswith`
 * tests, `replace`, `join`, and `re.findall(r'<(.*?)>', ...)`.
 */
module PyStr {

  /** The characters `str.isspace()` accepts; `split()` and `strip()` cut on exactly these. */
  predicate IsSpace(c: char) {
    || ('\t' <= c <= '\r')
    || ('\U{1C}' <= c <= ' ')
    || c == '\U{85}' || c == '\U{A0}' || c == '\U{1680}'
    || ('\U{2000}' <= c <= '\U{200A}')
    || c == '\U{2028}' || c == '\U{2029}' || c == '\U{202F}' || c == '\U{205F}' || c == '\U{3000}'
  }

  /** The characters `str.splitlines()` ends a line at ("\r\n" counts as one boundary). */
  predicate IsLineBreak(c: char) {
    || ('\n' <= c <= '\r')
    || ('\U{1C}' <= c <= '\U{1E}')
    || c == '\U{85}' || c == '\U{2028}' || c == '\U{2029}'
  }

  predicate NoLineBreak(s: string) {
    forall i | 0 <= i < |s| :: !IsLineBreak(s[i])
  }

  predicate NoSpace(s: string) {
    forall i | 0 <= i < |s| :: !IsSpace(s[i])
  }

  /** `not s.strip()`: the string is empty or all whitespace. */
  predicate IsBlank(s: string) {
    forall i | 0 <= i < |s| :: IsSpace(s[i])
  }

  predicate StartsWith(s: string, prefix: string) {
    |prefix| <= |s| && s[..|prefix|] == prefix
  }

  predicate EndsWith(s: string, suffix: string) {
    |suffix| <= |s| && s[|s| - |suffix|..] == suffix
  }

  /** `s.startswith(p)` holds exactly when `s` is `p` followed by something. */
  lemma StartsWithAppend(s: string, p: string)
    ensures StartsWith(s, p) <==> exists t :: s == p + t
  {
    if StartsWith(s, p) {
      assert s == p + s[|p|..];
    }
    forall t | s == p + t
      ensures StartsWith(s, p)
    {
      assert s[..|p|] == p;
    }
  }

  /** `s.endswith(q)` holds exactly when `s` is something followed by `q`. */
  lemma EndsWithAppend(s: string, q: string)
    ensures EndsWith(s, q) <==> exists t :: s == t + q
  {
    if EndsWith(s, q) {
      assert s == s[..|s| - |q|] + q;
    }
    forall t | s == t + q
      ensures EndsWith(s, q)
    {
      assert s[|s| - |q|..] == q;
    }
  }

  /** Python's `p in s`. */
  predicate Contains(s: string, p: string)
    decreases |s|
  {
    StartsWith(s, p) || (s != [] && Contains(s[1..], p))
  }

  /** `p` occurs in `s` starting at offset `i`. */
  predicate OccursAt(s: string, p: string, i: int) {
    0 <= i <= |s| - |p| && s[i..i + |p|] == p
  }

  /** `Contains` is the search for an occurrence at some position. */
  lemma {:induction false} ContainsAt(s: string, p: string)
    ensures Contains(s, p) <==> exists i :: OccursAt(s, p, i)
    decreases |s|
  {
    if StartsWith(s, p) {
      assert OccursAt(s, p, 0);
    }
    if s == [] {
      if exists i :: OccursAt(s, p, i) {
        var i :| OccursAt(s, p, i);
        assert StartsWith(s, p);
      }
    } else {
      ContainsAt(s[1..], p);
      if exists i :: OccursAt(s, p, i) {
        var i :| OccursAt(s, p, i);
        if i > 0 {
          assert OccursAt(s[1..], p, i - 1);
        }
      }
      if Contains(s[1..], p) && !StartsWith(s, p) {
        var i :| OccursAt(s[1..], p, i);
        assert OccursAt(s, p, i + 1);
      }
    }
  }

  /** An occurrence inside a slice is an occurrence in the whole string. */
  lemma ContainsSlice(s: string, p: string, i: nat, j: nat)
    requires i <= j <= |s| && Contains(s[i..j], p)
    ensures Contains(s, p)
  {
    ContainsAt(s[i..j], p);
    ContainsAt(s, p);
    var k :| OccursAt(s[i..j], p, k);
    assert s[i + k..i + k + |p|] == p by {
      forall t | 0 <= t < |p| ensures s[i + k..i + k + |p|][t] == p[t] {
        assert p[t] == s[i..j][k..k + |p|][t];
      }
    }
    assert OccursAt(s, p, i + k);
  }

  /** The length of the run of characters before the first line boundary. */
  function LineEnd(s: string): (k: nat)
    ensures k <= |s|
    ensures forall i | 0 <= i < k :: !IsLineBreak(s[i])
    ensures k < |s| ==> IsLineBreak(s[k])
  {
    if s == [] || IsLineBreak(s[0]) then 0 else 1 + LineEnd(s[1..])
  }

  /** `s.splitlines()`: no trailing empty line, "\r\n" is one boundary. */
  function SplitLines(s: string): (lines: seq<string>)
    ensures forall i | 0 <= i < |lines| :: NoLineBreak(lines[i])
    ensures lines == [] <==> s == []
    decreases |s|
  {
    if s == [] then []
    else
      var k := LineEnd(s);
      if k == |s| then [s]
      else
        var next := if s[k] == '\r' && k + 1 < |s| && s[k + 1] == '\n' then k + 2 else k + 1;
        [s[..k]] + SplitLines(s[next..])
  }

  /** The length of the leading run of non-whitespace characters. */
  function TokenEnd(s: string): (k: nat)
    ensures k <= |s|
    ensures forall i | 0 <= i < k :: !IsSpace(s[i])
    ensures k < |s| ==> IsSpace(s[k])
  {
    if s == [] || IsSpace(s[0]) then 0 else 1 + TokenEnd(s[1..])
  }

  /** `s.split()`: the maximal runs of non-whitespace characters, in order. */
  function Split(s: string): (tokens: seq<string>)
    ensures forall i | 0 <= i < |tokens| :: tokens[i] != [] && NoSpace(tokens[i])
    ensures tokens == [] <==> IsBlank(s)
    decreases |s|
  {
    if s == [] then []
    else if IsSpace(s[0]) then
      var rest := Split(s[1..]);
      assert IsBlank(s[1..]) ==> IsBlank(s) by {
        if IsBlank(s[1..]) {
          forall i | 0 <= i < |s| ensures IsSpace(s[i]) {
            if i > 0 { assert s[i] == s[1..][i - 1]; }
          }
        }
      }
      rest
    else
      var k := TokenEnd(s);
      [s[..k]] + Split(s[k..])
  }

  /** The string with every whitespace character removed. */
  function Squeeze(s: string): string {
    if s == [] then [] else (if IsSpace(s[0]) then [] else [s[0]]) + Squeeze(s[1..])
  }

  function Concat(parts: seq<string>): string {
    if parts == [] then [] else parts[0] + Concat(parts[1..])
  }

  lemma {:induction false} SqueezeAppend(a: string, b: string)
    ensures Squeeze(a + b) == Squeeze(a) + Squeeze(b)
    decreases |a|
  {
    if a != [] {
      assert (a + b)[1..] == a[1..] + b;
      SqueezeAppend(a[1..], b);
    } else {
      assert a + b == b;
    }
  }

  lemma {:induction false} SqueezeNoSpace(s: string)
    requires NoSpace(s)
    ensures Squeeze(s) == s
    decreases |s|
  {
    if s != [] {
      SqueezeNoSpace(s[1..]);
      assert s == [s[0]] + s[1..];
    }
  }

  /** `split()` loses nothing but whitespace: its tokens put back together are the input without its whitespace. */
  lemma {:induction false} SplitKeepsNonSpace(s: string)
    ensures Concat(Split(s)) == Squeeze(s)
    decreases |s|
  {
    if s != [] {
      if IsSpace(s[0]) {
        SplitKeepsNonSpace(s[1..]);
      } else {
        var k := TokenEnd(s);
        SplitKeepsNonSpace(s[k..]);
        assert s == s[..k] + s[k..];
        SqueezeAppend(s[..k], s[k..]);
        SqueezeNoSpace(s[..k]);
        assert Split(s) == [s[..k]] + Split(s[k..]);
      }
    }
  }

  /** `sep.join(parts)` spelled as `Join(parts, sep)`. */
  function Join(parts: seq<string>, sep: string): string {
    if parts == [] then ""
    else if |parts| == 1 then parts[0]
    else parts[0] + sep + Join(parts[1..], sep)
  }

  /**
   * `s.replace(pat, rep)` for a non-empty pattern: occurrences are found
   * left to right and do not overlap.
   */
  function Replace(s: string, pat: string, rep: string): string
    requires pat != []
    decreases |s|
  {
    if StartsWith(s, pat) then rep + Replace(s[|pat|..], pat, rep)
    else if s == [] then []
    else [s[0]] + Replace(s[1..], pat, rep)
  }

  /** Replacing a pattern that does not occur changes nothing. */
  lemma {:induction false} ReplaceAbsent(s: string, pat: string, rep: string)
    requires pat != [] && !Contains(s, pat)
    ensures Replace(s, pat, rep) == s
    decreases |s|
  {
    if s != [] {
      ReplaceAbsent(s[1..], pat, rep);
      assert s == [s[0]] + s[1..];
    }
  }

  /** Replacing a single character by a string free of it leaves no occurrence of that character. */
  lemma {:induction false} ReplaceRemovesChar(s: string, c: char, rep: string)
    requires c !in rep
    ensures c !in Replace(s, [c], rep)
    decreases |s|
  {
    if s != [] {
      if StartsWith(s, [c]) {
        ReplaceRemovesChar(s[1..], c, rep);
      } else {
        ReplaceRemovesChar(s[1..], c, rep);
        assert s[0] != c;
      }
    }
  }

  /** The offset of the first '>' or newline, the two characters that end the lazy `<(.*?)>` match. */
  function MatchEnd(s: string): (k: nat)
    ensures k <= |s|
    ensures forall i | 0 <= i < k :: s[i] != '>' && s[i] != '\n'
    ensures k < |s| ==> s[k] == '>' || s[k] == '\n'
  {
    if s == [] || s[0] == '>' || s[0] == '\n' then 0 else 1 + MatchEnd(s[1..])
  }

  /**
   * `re.findall(r'<(.*?)>', s)`: scanning left to right, a '<' starts a match
   * that ends at the next '>' unless a newline comes first ('.' does not match
   * a newline); a '<' that starts no match is passed over.
   */
  function FindBracketed(s: string): (groups: seq<string>)
    ensures forall i | 0 <= i < |groups| :: '>' !in groups[i] && '\n' !in groups[i]
    decreases |s|
  {
    if s == [] then []
    else if s[0] == '<' then
      var j := 1 + MatchEnd(s[1..]);
      if j < |s| && s[j] == '>' then
        assert forall c | c in s[1..j] :: c != '>' && c != '\n';
        [s[1..j]] + FindBracketed(s[j + 1..])
      else FindBracketed(s[1..])
    else FindBracketed(s[1..])
  }

  /** A bracketed group preceded by text without '<' is the next match. */
  lemma BracketedNext(pre: string, g: string, rest: string)
    requires '<' !in pre && '>' !in g && '\n' !in g
    ensures FindBracketed(pre + "<" + g + ">" + rest) == [g] + FindBracketed(rest)
    decreases |pre|
  {
    var s := pre + "<" + g + ">" + rest;
    if pre == [] {
      assert s[0] == '<';
      assert s[1..] == g + (">" + rest);
      MatchEndOf(g, ">" + rest);
      assert s[|g| + 1] == '>';
      assert s[1..|g| + 1] == g;
      assert s[|g| + 2..] == rest;
    } else {
      assert s[1..] == pre[1..] + "<" + g + ">" + rest;
      BracketedNext(pre[1..], g, rest);
    }
  }

  lemma MatchEndOf(g: string, rest: string)
    requires '>' !in g && '\n' !in g && rest != [] && rest[0] == '>'
    ensures MatchEnd(g + rest) == |g|
    decreases |g|
  {
    if g != [] {
      assert (g + rest)[1..] == g[1..] + rest;
      MatchEndOf(g[1..], rest);
    } else {
      assert g + rest == rest;
    }
  }
}
