/**
 * The handful of Python string operations the monitor script relies on,
 * each defined on `string` (a `seq<char>`) with the behaviour of CPython:
 * `str.isspace`, `str.strip()`, `str.split(sep)`, `str.split()`,
 * `sep.join(parts)`, the substring test `sub in s` and `str.lower()`
 * (restricted to ASCII letters).
 */
module Text {

  /** `c.isspace()` in Python 3: the 29 code points of the Unicode
      categories Zs, Zl, Zp and the bidirectional classes WS, B, S. */
  predicate IsSpace(c: char) {
    var n := c as int;
    n == 0x20 || 0x09 <= n <= 0x0D || 0x1C <= n <= 0x1F || n == 0x85 || n == 0xA0
    || n == 0x1680 || 0x2000 <= n <= 0x200A || n == 0x2028 || n == 0x2029
    || n == 0x202F || n == 0x205F || n == 0x3000
  }

  predicate NoSpace(s: string) {
    forall i :: 0 <= i < |s| ==> !IsSpace(s[i])
  }

  /** A token as `str.split()` produces it: non-empty, free of whitespace. */
  predicate IsWord(w: string) {
    |w| > 0 && NoSpace(w)
  }

  // ---------------------------------------------------------------------------
  // str.strip()

  /** Leading whitespace removed: what is left is a suffix of `s`,
      everything dropped was whitespace, and it does not start with any. */
  function LStrip(s: string): (r: string)
    ensures |r| <= |s| && r == s[|s| - |r|..]
    ensures AllSpace(s, 0, |s| - |r|)
    ensures r == [] || !IsSpace(r[0])
  {
    if s != [] && IsSpace(s[0]) then LStrip(s[1..]) else s
  }

  /** Trailing whitespace removed: a prefix of `s`, everything dropped was
      whitespace, and it does not end with any. */
  function RStrip(s: string): (r: string)
    ensures |r| <= |s| && r == s[..|r|]
    ensures AllSpace(s, |r|, |s|)
    ensures r == [] || !IsSpace(r[|r| - 1])
  {
    if s != [] && IsSpace(s[|s| - 1]) then RStrip(s[..|s| - 1]) else s
  }

  /** `r` is `s` with `i` characters of whitespace removed in front and
      only whitespace removed behind. */
  predicate TrimmedAt(s: string, r: string, i: int) {
    0 <= i <= |s| - |r| && r == s[i..i + |r|]
    && AllSpace(s, 0, i) && AllSpace(s, i + |r|, |s|)
  }

  /** Every character of `s` at indices `a .. b - 1` is whitespace. */
  predicate AllSpace(s: string, a: int, b: int) {
    forall k :: a <= k < b && 0 <= k < |s| ==> IsSpace(s[k])
  }

  /** `s.strip()`: a contiguous slice of `s` that neither starts nor ends
      with whitespace, obtained by removing whitespace only. */
  function Strip(s: string): (r: string)
    ensures exists i :: TrimmedAt(s, r, i)
    ensures r == [] || (!IsSpace(r[0]) && !IsSpace(r[|r| - 1]))
  {
    StripTrimmed(s);
    RStrip(LStrip(s))
  }

  /** The two halves of `Strip` remove exactly the whitespace around the
      slice that is left. */
  lemma {:induction false} StripTrimmed(s: string)
    ensures TrimmedAt(s, RStrip(LStrip(s)), |s| - |LStrip(s)|)
  {
    TrimmedOfHalves(s, LStrip(s), RStrip(LStrip(s)));
  }

  /** A whitespace-only front cut `l` of `s` followed by a whitespace-only
      back cut `r` of `l` leaves `r` trimmed out of `s`. */
  lemma {:induction false} TrimmedOfHalves(s: string, l: string, r: string)
    requires |l| <= |s| && l == s[|s| - |l|..] && AllSpace(s, 0, |s| - |l|)
    requires |r| <= |l| && r == l[..|r|] && AllSpace(l, |r|, |l|)
    ensures TrimmedAt(s, r, |s| - |l|)
  {
  }

  // ---------------------------------------------------------------------------
  // str.split(sep) and sep.join(parts)

  /** `s.split(sep)` for a one-character separator: every separator cuts,
      empty pieces are kept, and the empty string gives `[""]`. */
  function Split(s: string, sep: char): (r: seq<string>)
    ensures |r| >= 1
    ensures forall i :: 0 <= i < |r| ==> sep !in r[i]
  {
    if s == [] then [[]]
    else
      var rest := Split(s[1..], sep);
      if s[0] == sep then [[]] + rest else [[s[0]] + rest[0]] + rest[1..]
  }

  /** `sep.join(parts)`. */
  function Join(parts: seq<string>, sep: char): string {
    if |parts| == 0 then []
    else if |parts| == 1 then parts[0]
    else parts[0] + [sep] + Join(parts[1..], sep)
  }

  /** Joining the pieces of a split gives back the original text. */
  lemma {:induction false} JoinSplit(s: string, sep: char)
    ensures Join(Split(s, sep), sep) == s
  {
    if s != [] {
      var rest := Split(s[1..], sep);
      JoinSplit(s[1..], sep);
      if s[0] == sep {
        assert Split(s, sep) == [[]] + rest;
        assert Join([[]] + rest, sep) == [] + [sep] + Join(rest, sep);
      } else {
        var parts := [[s[0]] + rest[0]] + rest[1..];
        assert Split(s, sep) == parts;
        if |rest| == 1 {
          assert Join(parts, sep) == [s[0]] + rest[0];
        } else {
          assert parts[1..] == rest[1..];
          assert Join(rest, sep) == rest[0] + [sep] + Join(rest[1..], sep);
          assert Join(parts, sep) == [s[0]] + rest[0] + [sep] + Join(rest[1..], sep);
        }
      }
    }
  }

  /** Splitting a text that starts with a separator-free piece `x`:
      `x` is glued to the front of the first piece of the rest. */
  lemma {:induction false} SplitPrefix(x: string, y: string, sep: char)
    requires sep !in x
    ensures Split(x + y, sep) == [x + Split(y, sep)[0]] + Split(y, sep)[1..]
  {
    var parts := Split(y, sep);
    if x != [] {
      SplitPrefix(x[1..], y, sep);
      ConsAppend(x, y);
      SplitCons(x[0], x[1..] + y, sep);
      ConsAppend(x, parts[0]);
    } else {
      assert x + y == y;
      assert x + parts[0] == parts[0];
      assert [parts[0]] + parts[1..] == parts;
    }
  }

  /** Re-attaching the head of a non-empty `x` in front of `x[1..] + z`. */
  lemma ConsAppend(x: string, z: string)
    requires x != []
    ensures [x[0]] + (x[1..] + z) == x + z
  {
  }

  /** A character other than the separator joins the first piece. */
  lemma SplitCons(c: char, z: string, sep: char)
    requires c != sep
    ensures Split([c] + z, sep) == [[c] + Split(z, sep)[0]] + Split(z, sep)[1..]
  {
  }

  /** Splitting a joined list of separator-free pieces gives the list back
      (for a non-empty list: the empty list and `[""]` both join to ""). */
  lemma {:induction false} SplitJoin(parts: seq<string>, sep: char)
    requires |parts| >= 1
    requires forall i :: 0 <= i < |parts| ==> sep !in parts[i]
    ensures Split(Join(parts, sep), sep) == parts
  {
    if |parts| == 1 {
      SplitPrefix(parts[0], [], sep);
      assert parts[0] + [] == parts[0];
    } else {
      var tail := Join(parts[1..], sep);
      SplitJoin(parts[1..], sep);
      SplitPrefix(parts[0], [sep] + tail, sep);
      assert parts[0] + [sep] + tail == parts[0] + ([sep] + tail);
      assert ([sep] + tail)[1..] == tail;
      assert Split([sep] + tail, sep) == [[]] + parts[1..];
      assert parts[0] + [] == parts[0];
      assert [parts[0]] + parts[1..] == parts;
    }
  }

  // ---------------------------------------------------------------------------
  // str.split() without arguments

  /** Length of the longest whitespace-free prefix of `s`. */
  function WordEnd(s: string): (n: nat)
    ensures n <= |s|
    ensures NoSpace(s[..n])
    ensures n == |s| || IsSpace(s[n])
  {
    if s == [] || IsSpace(s[0]) then 0 else 1 + WordEnd(s[1..])
  }

  /** `s.split()`: the maximal runs of non-whitespace characters, in order;
      leading, trailing and repeated whitespace produce no empty tokens. */
  function Words(s: string): (r: seq<string>)
    ensures forall i :: 0 <= i < |r| ==> IsWord(r[i])
    decreases |s|
  {
    if s == [] then []
    else if IsSpace(s[0]) then Words(s[1..])
    else
      var n := WordEnd(s);
      [s[..n]] + Words(s[n..])
  }

  /** A whitespace-free word followed by whitespace (or nothing) ends where
      the word ends. */
  lemma {:induction false} WordEndOfWord(w: string, rest: string)
    requires NoSpace(w)
    requires rest == [] || IsSpace(rest[0])
    ensures WordEnd(w + rest) == |w|
  {
    if w != [] {
      assert (w + rest)[1..] == w[1..] + rest;
      WordEndOfWord(w[1..], rest);
    } else {
      assert w + rest == rest;
    }
  }

  /** A single token splits into itself. */
  lemma {:induction false} WordsOfWord(w: string)
    requires IsWord(w)
    ensures Words(w) == [w]
  {
    WordEndOfWord(w, []);
    assert w + [] == w;
    assert w[..|w|] == w;
    assert w[|w|..] == [];
  }

  /** The first token of `s` ends at or before any whitespace character,
      and cutting `s` there does not change where it ends. */
  lemma {:induction false} WordEndBeforeSpace(s: string, i: int)
    requires 0 <= i < |s| && IsSpace(s[i])
    ensures WordEnd(s) <= i && WordEnd(s[..i]) == WordEnd(s)
  {
  }

  /** Any whitespace character is a token boundary: the tokens of `s` are
      those of the text before it followed by those of the text after it.
      With `WordsOfWord` this determines `Words` completely, so the tokens
      are exactly the maximal whitespace-free runs. */
  lemma {:induction false} WordsCutAtSpace(s: string, i: int)
    requires 0 <= i < |s| && IsSpace(s[i])
    ensures Words(s) == Words(s[..i]) + Words(s[i + 1..])
    decreases |s|, 2
  {
    if IsSpace(s[0]) {
      CutAfterLeadingSpace(s, i);
    } else {
      CutAfterFirstWord(s, i);
    }
  }

  /** `WordsCutAtSpace` when `s` starts with whitespace. */
  lemma {:induction false} CutAfterLeadingSpace(s: string, i: int)
    requires 0 <= i < |s| && IsSpace(s[i]) && IsSpace(s[0])
    ensures Words(s) == Words(s[..i]) + Words(s[i + 1..])
    decreases |s|, 0
  {
    if i == 0 {
      assert s[..0] == [];
    } else {
      var t := s[..i];
      WordsCutAtSpace(s[1..], i - 1);
      assert s[1..][..i - 1] == t[1..];
      assert s[1..][i..] == s[i + 1..];
      assert Words(t) == Words(t[1..]);
    }
  }

  /** `WordsCutAtSpace` when `s` starts with a token. */
  lemma {:induction false} CutAfterFirstWord(s: string, i: int)
    requires 0 <= i < |s| && IsSpace(s[i]) && !IsSpace(s[0])
    ensures Words(s) == Words(s[..i]) + Words(s[i + 1..])
    decreases |s|, 1
  {
    var n := WordEnd(s);
    WordEndBeforeSpace(s, i);
    assert s[..i][..n] == s[..n];
    if n == i {
      assert s[..i][n..] == [];
      assert s[n..][1..] == s[i + 1..];
    } else {
      CutPastFirstWord(s, i, n);
    }
  }

  /** `CutAfterFirstWord` when the whitespace lies beyond the first token,
      which ends at `n`. */
  lemma {:induction false} CutPastFirstWord(s: string, i: int, n: int)
    requires 0 < n < i < |s| && IsSpace(s[i]) && !IsSpace(s[0])
    requires n == WordEnd(s) == WordEnd(s[..i])
    ensures Words(s) == Words(s[..i]) + Words(s[i + 1..])
    decreases |s|, 0
  {
    var t := s[..i];
    assert t[..n] == s[..n];
    assert t[n..] == s[n..i];
    WordsCutAtSpace(s[n..], i - n);
    assert s[n..][..i - n] == s[n..i];
    assert s[n..][i - n + 1..] == s[i + 1..];
    assert Words(s[n..]) == Words(t[n..]) + Words(s[i + 1..]);
    assert [s[..n]] + (Words(t[n..]) + Words(s[i + 1..]))
        == ([s[..n]] + Words(t[n..])) + Words(s[i + 1..]);
  }

  /** Words joined by single spaces split back into exactly those words. */
  lemma {:induction false} WordsOfJoin(ws: seq<string>)
    requires forall i :: 0 <= i < |ws| ==> IsWord(ws[i])
    ensures Words(Join(ws, ' ')) == ws
  {
    if |ws| == 1 {
      WordEndOfWord(ws[0], []);
      assert ws[0] + [] == ws[0];
      assert ws[0][|ws[0]|..] == [];
    } else if |ws| > 1 {
      var w := ws[0];
      var tail := Join(ws[1..], ' ');
      var s := w + [' '] + tail;
      assert Join(ws, ' ') == s;
      WordEndOfWord(w, [' '] + tail);
      assert s == w + ([' '] + tail);
      assert s[..|w|] == w;
      assert s[|w|..] == [' '] + tail;
      assert ([' '] + tail)[1..] == tail;
      WordsOfJoin(ws[1..]);
      assert Words(s) == [w] + Words([' '] + tail);
    }
  }

  /** `s` with its whitespace removed. */
  function RemoveSpace(s: string): string {
    if s == [] then []
    else if IsSpace(s[0]) then RemoveSpace(s[1..])
    else [s[0]] + RemoveSpace(s[1..])
  }

  /** Concatenation of a list of strings. */
  function Concat(ws: seq<string>): string {
    if ws == [] then [] else ws[0] + Concat(ws[1..])
  }

  lemma {:induction false} RemoveSpaceAppend(a: string, b: string)
    ensures RemoveSpace(a + b) == RemoveSpace(a) + RemoveSpace(b)
  {
    if a == [] {
      assert a + b == b;
    } else {
      assert (a + b)[1..] == a[1..] + b;
      RemoveSpaceAppend(a[1..], b);
    }
  }

  lemma {:induction false} RemoveSpaceOfNoSpace(w: string)
    requires NoSpace(w)
    ensures RemoveSpace(w) == w
  {
    if w != [] {
      RemoveSpaceOfNoSpace(w[1..]);
    }
  }

  /** `str.split()` loses nothing but whitespace: the tokens, concatenated,
      are the non-whitespace characters of `s` in their original order. */
  lemma {:induction false} WordsKeepEveryNonSpace(s: string)
    ensures Concat(Words(s)) == RemoveSpace(s)
    decreases |s|
  {
    if s != [] {
      if IsSpace(s[0]) {
        WordsKeepEveryNonSpace(s[1..]);
      } else {
        var n := WordEnd(s);
        WordsKeepEveryNonSpace(s[n..]);
        assert s == s[..n] + s[n..];
        RemoveSpaceAppend(s[..n], s[n..]);
        RemoveSpaceOfNoSpace(s[..n]);
        assert ([s[..n]] + Words(s[n..]))[1..] == Words(s[n..]);
      }
    }
  }

  // ---------------------------------------------------------------------------
  // `sub in s`

  /** `sub` occurs in `s` starting at index `i`. */
  predicate OccursAt(s: string, sub: string, i: int) {
    0 <= i <= |s| - |sub| && s[i..i + |sub|] == sub
  }

  /** Python's `sub in s`, searched from the left. */
  predicate Contains(s: string, sub: string)
    decreases |s|
  {
    (|sub| <= |s| && s[..|sub|] == sub) || (s != [] && Contains(s[1..], sub))
  }

  /** The search finds `sub` exactly when it occurs at some index. */
  lemma {:induction false} ContainsIff(s: string, sub: string)
    ensures Contains(s, sub) <==> exists i :: OccursAt(s, sub, i)
    decreases |s|
  {
    if |sub| <= |s| && s[..|sub|] == sub {
      assert OccursAt(s, sub, 0);
    } else if s == [] {
      assert forall i :: !OccursAt(s, sub, i);
    } else {
      ContainsIff(s[1..], sub);
      forall i | OccursAt(s[1..], sub, i) ensures OccursAt(s, sub, i + 1) {
        assert s[1..][i..i + |sub|] == s[i + 1..i + 1 + |sub|];
      }
      forall i | OccursAt(s, sub, i) ensures OccursAt(s[1..], sub, i - 1) {
        assert i != 0;
        assert s[1..][i - 1..i - 1 + |sub|] == s[i..i + |sub|];
      }
    }
  }

  /** Whatever surrounds it, an occurrence of `sub` is found. */
  lemma {:induction false} ContainsInContext(pre: string, sub: string, post: string)
    ensures Contains(pre + sub + post, sub)
  {
    var s := pre + sub + post;
    assert s[|pre|..|pre| + |sub|] == sub;
    assert OccursAt(s, sub, |pre|);
    ContainsIff(s, sub);
  }

  // ---------------------------------------------------------------------------
  // str.lower() on ASCII letters

  function LowerChar(c: char): char {
    if 'A' <= c <= 'Z' then (c as int - 'A' as int + 'a' as int) as char else c
  }

  /** `s.lower()`, mapping 'A'..'Z' to 'a'..'z' and keeping every other
      character. */
  function Lower(s: string): (r: string) {
    seq(|s|, i requires 0 <= i < |s| => LowerChar(s[i]))
  }

  /** Lower-casing commutes with taking a slice. */
  lemma LowerSlice(s: string, i: int, j: int)
    requires 0 <= i <= j <= |s|
    ensures Lower(s)[i..j] == Lower(s[i..j])
  {
  }

  /** Lower-casing twice is lower-casing once. */
  lemma LowerIdempotent(s: string)
    ensures Lower(Lower(s)) == Lower(s)
  {
  }
}
