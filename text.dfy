/** The handful of JavaScript string operations the generated scripts and the
    form handler rely on: `trim`, `startsWith`, `split` on one character and a
    global `replace` of a literal pattern, both with the replacement taken
    literally and as JavaScript reads its `$` patterns. Strings are sequences of code points. */
module Text {
  import opened Wrappers

  /** The characters `String.prototype.trim` removes: ECMAScript WhiteSpace and
      LineTerminator code points. */
  predicate IsWhitespace(c: char) {
    || c == '\t' || c == '\n' || c == '\U{0B}' || c == '\U{0C}' || c == '\r' || c == ' '
    || c == '\U{A0}' || c == '\U{1680}' || ('\U{2000}' <= c <= '\U{200A}')
    || c == '\U{2028}' || c == '\U{2029}' || c == '\U{202F}' || c == '\U{205F}'
    || c == '\U{3000}' || c == '\U{FEFF}'
  }

  predicate StartsWith(s: string, prefix: string) {
    |prefix| <= |s| && s[..|prefix|] == prefix
  }

  predicate EndsWith(s: string, suffix: string) {
    |suffix| <= |s| && s[|s| - |suffix|..] == suffix
  }

  /** Leading whitespace removed, and nothing else. */
  function TrimStart(s: string): (r: string)
    ensures |r| <= |s| && r == s[|s| - |r|..]
    ensures r == [] || !IsWhitespace(r[0])
    ensures forall i :: 0 <= i < |s| - |r| ==> IsWhitespace(s[i])
    decreases |s|
  {
    if |s| > 0 && IsWhitespace(s[0]) then TrimStart(s[1..]) else s
  }

  /** Trailing whitespace removed, and nothing else. */
  function TrimEnd(s: string): (r: string)
    ensures |r| <= |s| && r == s[..|r|]
    ensures r == [] || !IsWhitespace(r[|r| - 1])
    ensures forall i :: |r| <= i < |s| ==> IsWhitespace(s[i])
    decreases |s|
  {
    if |s| > 0 && IsWhitespace(s[|s| - 1]) then TrimEnd(s[..|s| - 1]) else s
  }

  /** `String.prototype.trim`. */
  function Trim(s: string): string {
    TrimEnd(TrimStart(s))
  }

  /** `trim` keeps a contiguous part of its input. */
  lemma TrimKeeps(s: string, c: char)
    requires c in Trim(s)
    ensures c in s
  {
    var t := TrimStart(s);
    var r := TrimEnd(t);
    var i :| 0 <= i < |r| && r[i] == c;
    assert t[i] == c;
    assert s[|s| - |t| + i] == c;
  }

  /** A string that `trim` leaves alone. */
  predicate Trimmed(s: string) {
    s == [] || (!IsWhitespace(s[0]) && !IsWhitespace(s[|s| - 1]))
  }

  lemma TrimResult(s: string)
    ensures Trimmed(Trim(s))
    ensures Trim(s) == [] <==> forall i :: 0 <= i < |s| ==> IsWhitespace(s[i])
  {
  }

  lemma TrimmedFixpoint(s: string)
    requires Trimmed(s)
    ensures Trim(s) == s
  {
  }

  /** Whitespace in front of a trimmed string is all that `trim` takes away:
      how a cookie piece `" name=value"` loses its separator space. */
  lemma {:induction false} TrimAfterWhitespace(w: string, s: string)
    requires forall i :: 0 <= i < |w| ==> IsWhitespace(w[i])
    requires Trimmed(s) && s != []
    ensures Trim(w + s) == s
    decreases |w|
  {
    if w == [] {
      assert w + s == s;
    } else {
      assert (w + s)[1..] == w[1..] + s;
      TrimAfterWhitespace(w[1..], s);
    }
  }

  /** `s.split(sep)` for a one-character separator: the pieces between the
      separators, in order; always at least one piece. */
  function Split(s: string, sep: char): (r: seq<string>)
    ensures |r| >= 1
    ensures forall i :: 0 <= i < |r| ==> sep !in r[i]
    decreases |s|
  {
    if s == [] then [""]
    else
      var rest := Split(s[1..], sep);
      if s[0] == sep then [""] + rest else [[s[0]] + rest[0]] + rest[1..]
  }

  /** `pieces.join(sep)`. */
  function Join(pieces: seq<string>, sep: char): string
    requires |pieces| >= 1
  {
    if |pieces| == 1 then pieces[0] else pieces[0] + [sep] + Join(pieces[1..], sep)
  }

  /** `split` loses nothing: joining the pieces back gives the input. */
  lemma {:induction false} JoinSplit(s: string, sep: char)
    ensures Join(Split(s, sep), sep) == s
    decreases |s|
  {
    if s != [] {
      JoinSplit(s[1..], sep);
      var rest := Split(s[1..], sep);
      if s[0] != sep {
        if |rest| > 1 {
          assert rest == [rest[0]] + rest[1..];
        }
      }
    }
  }

  /** A string holding the separator splits into at least two pieces. */
  lemma SplitAtLeastTwo(s: string, sep: char)
    requires sep in s
    ensures |Split(s, sep)| >= 2
  {
    JoinSplit(s, sep);
  }

  lemma {:induction false} SplitNoSeparator(s: string, sep: char)
    requires sep !in s
    ensures Split(s, sep) == [s]
    decreases |s|
  {
    if s != [] {
      assert s[0] in s;
      SplitNoSeparator(s[1..], sep);
      assert [s[0]] + s[1..] == s;
    }
  }

  /** A separator splits a string into the pieces of either side. */
  lemma {:induction false} SplitAround(a: string, sep: char, b: string)
    ensures Split(a + [sep] + b, sep) == Split(a, sep) + Split(b, sep)
    decreases |a|
  {
    if a == [] {
      assert a + [sep] + b == [sep] + b;
      assert ([sep] + b)[1..] == b;
    } else {
      assert (a + [sep] + b)[1..] == a[1..] + [sep] + b;
      SplitAround(a[1..], sep, b);
    }
  }

  /** `s` cut at its first `sep`: the text before and the text after it. */
  function SplitFirst(s: string, sep: char): (r: Option<(string, string)>)
    ensures r.None? <==> sep !in s
    ensures r.Some? ==> s == r.value.0 + [sep] + r.value.1 && sep !in r.value.0
    decreases |s|
  {
    if s == [] then None
    else if s[0] == sep then (assert s == [] + [sep] + s[1..]; Some(([], s[1..])))
    else
      match SplitFirst(s[1..], sep)
      case None => (assert s == [s[0]] + s[1..]; None)
      case Some((before, after)) =>
        assert s == ([s[0]] + before) + [sep] + after;
        Some(([s[0]] + before, after))
  }

  /** The first piece is the text up to the first separator. */
  lemma {:induction false} SplitHead(s: string, sep: char)
    ensures StartsWith(s, Split(s, sep)[0])
    ensures |Split(s, sep)[0]| == |s| || s[|Split(s, sep)[0]|] == sep
    decreases |s|
  {
    if s != [] && s[0] != sep {
      SplitHead(s[1..], sep);
    }
  }

  /** Splitting after a separator-free head. */
  lemma SplitAfterHead(a: string, sep: char, b: string)
    requires sep !in a
    ensures Split(a + [sep] + b, sep) == [a] + Split(b, sep)
  {
    SplitAround(a, sep, b);
    SplitNoSeparator(a, sep);
  }

  /** The first separator is where a text without one ends. */
  lemma {:induction false} SplitFirstAt(a: string, sep: char, b: string)
    requires sep !in a
    ensures SplitFirst(a + [sep] + b, sep) == Some((a, b))
    decreases |a|
  {
    if a == [] {
      assert a + [sep] + b == [sep] + b;
      assert ([sep] + b)[1..] == b;
    } else {
      assert (a + [sep] + b)[1..] == a[1..] + [sep] + b;
      assert a[0] in a;
      SplitFirstAt(a[1..], sep, b);
      assert [a[0]] + a[1..] == a;
    }
  }

  // ---------------------------------------------------------------------------
  // Global replacement of a literal pattern

  predicate MatchAt(s: string, pat: string, i: nat) {
    i + |pat| <= |s| && s[i..i + |pat|] == pat
  }

  predicate Occurs(s: string, pat: string) {
    exists i: nat :: i <= |s| && MatchAt(s, pat, i)
  }

  /** `s.replace(/pat/g, rep)` for a literal, non-empty `pat`: scanning left to
      right, each match is replaced and the scan resumes after it. */
  function ReplaceAll(s: string, pat: string, rep: string): string
    requires pat != []
    decreases |s|
  {
    if |s| < |pat| then s
    else if s[..|pat|] == pat then rep + ReplaceAll(s[|pat|..], pat, rep)
    else [s[0]] + ReplaceAll(s[1..], pat, rep)
  }

  /** `s` could be the beginning of `pat`, or `pat` the beginning of `s`. */
  predicate Compatible(s: string, pat: string) {
    if |s| < |pat| then s == pat[..|s|] else s[..|pat|] == pat
  }

  /** No position of `s` can start a match of `pat`, whatever follows `s`. */
  predicate Inert(s: string, pat: string)
    decreases |s|
  {
    s == [] || (!Compatible(s, pat) && Inert(s[1..], pat))
  }

  lemma {:induction false} InertConcat(a: string, b: string, pat: string)
    requires Inert(a, pat) && Inert(b, pat)
    ensures Inert(a + b, pat)
    decreases |a|
  {
    if a == [] {
      assert a + b == b;
    } else {
      assert (a + b)[1..] == a[1..] + b;
      InertConcat(a[1..], b, pat);
      if |a + b| < |pat| {
        assert (a + b)[..|a|] == a;
        assert pat[..|a + b|][..|a|] == pat[..|a|];
      } else if |a| < |pat| {
        assert (a + b)[..|pat|][..|a|] == a;
      } else {
        assert (a + b)[..|pat|] == a[..|pat|];
      }
    }
  }

  /** A text is inert as soon as it lacks the pattern's first character. */
  lemma {:induction false} InertWithoutHead(s: string, pat: string)
    requires pat != [] && pat[0] !in s
    ensures Inert(s, pat)
    decreases |s|
  {
    if s != [] {
      assert s[0] in s;
      InertWithoutHead(s[1..], pat);
    }
  }

  /** A text that starts with `head`, which the pattern does not start with,
      and continues without the pattern's first character. */
  lemma InertAfterMismatch(head: string, s: string, pat: string)
    requires pat != [] && head != [] && pat[0] !in head[1..] + s
    requires !Compatible(head, pat)
    ensures Inert(head + s, pat)
  {
    var t := head + s;
    assert t[1..] == head[1..] + s;
    InertWithoutHead(t[1..], pat);
    if |t| < |pat| {
      assert t[..|head|] == head;
      assert pat[..|t|][..|head|] == pat[..|head|];
    } else if |head| < |pat| {
      assert t[..|pat|][..|head|] == head;
    } else {
      assert t[..|pat|] == head[..|pat|];
    }
  }

  lemma {:induction false} InertNoOccurrence(s: string, pat: string)
    requires pat != [] && Inert(s, pat)
    ensures !Occurs(s, pat)
    decreases |s|
  {
    if s != [] {
      InertNoOccurrence(s[1..], pat);
      forall i: nat | i <= |s| && MatchAt(s, pat, i)
        ensures false
      {
        if i > 0 {
          assert s[1..][i - 1..i - 1 + |pat|] == s[i..i + |pat|];
          assert MatchAt(s[1..], pat, i - 1);
        }
      }
    }
  }

  /** Replacing leaves an inert prefix as it is. */
  lemma {:induction false} ReplaceAllInertPrefix(a: string, b: string, pat: string, rep: string)
    requires pat != [] && Inert(a, pat)
    ensures ReplaceAll(a + b, pat, rep) == a + ReplaceAll(b, pat, rep)
    decreases |a|
  {
    if a != [] {
      var s := a + b;
      assert s[1..] == a[1..] + b;
      if |s| < |pat| {
        assert ReplaceAll(b, pat, rep) == b;
      } else {
        assert s[..|pat|] != pat by {
          if |a| < |pat| {
            assert s[..|pat|][..|a|] == a;
          } else {
            assert s[..|pat|] == a[..|pat|];
          }
        }
        assert ReplaceAll(s, pat, rep) == [a[0]] + ReplaceAll(a[1..] + b, pat, rep);
        ReplaceAllInertPrefix(a[1..], b, pat, rep);
        assert [a[0]] + (a[1..] + ReplaceAll(b, pat, rep)) == a + ReplaceAll(b, pat, rep);
      }
    } else {
      assert a + b == b;
    }
  }

  /** A match at the front is replaced, and the scan goes on after it. */
  lemma ReplaceAllMatchPrefix(b: string, pat: string, rep: string)
    requires pat != []
    ensures ReplaceAll(pat + b, pat, rep) == rep + ReplaceAll(b, pat, rep)
  {
    assert (pat + b)[..|pat|] == pat;
    assert (pat + b)[|pat|..] == b;
  }

  lemma ReplaceAllInert(s: string, pat: string, rep: string)
    requires pat != [] && Inert(s, pat)
    ensures ReplaceAll(s, pat, rep) == s
  {
    ReplaceAllInertPrefix(s, [], pat, rep);
    assert s + [] == s;
  }

  // ---------------------------------------------------------------------------
  // The replacement string of JavaScript's `replace`

  /** The text one match is replaced by, as the GetSubstitution operation of
      ECMA-262 reads a replacement string for a pattern without capture
      groups: `$$` is `$`, `$&` the match, `` $` `` the text before the match
      and `$'` the text after it; every other `$` stands for itself. */
  function Substitute(rep: string, matched: string, before: string, after: string): string
    decreases |rep|
  {
    if rep == [] then []
    else if rep[0] == '$' && |rep| >= 2 && rep[1] in "$&`'" then
      (if rep[1] == '$' then "$" else if rep[1] == '&' then matched else if rep[1] == '`' then before else after)
      + Substitute(rep[2..], matched, before, after)
    else [rep[0]] + Substitute(rep[1..], matched, before, after)
  }

  /** `s.replace(/pat/g, rep)` from index `i` on, for a literal, non-empty
      `pat`: each match, left to right, becomes `rep` as `Substitute` reads it
      against the whole of `s`, and the scan resumes after it. */
  function ReplaceFrom(s: string, pat: string, rep: string, i: nat): string
    requires pat != [] && i <= |s|
    decreases |s| - i
  {
    if |s| - i < |pat| then s[i..]
    else if s[i..i + |pat|] == pat then
      Substitute(rep, pat, s[..i], s[i + |pat|..]) + ReplaceFrom(s, pat, rep, i + |pat|)
    else [s[i]] + ReplaceFrom(s, pat, rep, i + 1)
  }

  /** `s.replace(/pat/g, rep)` as JavaScript runs it. */
  function ReplaceGlobal(s: string, pat: string, rep: string): string
    requires pat != []
  {
    ReplaceFrom(s, pat, rep, 0)
  }

  /** A replacement string without `$` is inserted as it is. */
  lemma {:induction false} SubstituteLiteral(rep: string, matched: string, before: string, after: string)
    requires '$' !in rep
    ensures Substitute(rep, matched, before, after) == rep
    decreases |rep|
  {
    if rep != [] {
      assert rep[0] in rep;
      assert forall c :: c in rep[1..] ==> c in rep;
      SubstituteLiteral(rep[1..], matched, before, after);
      assert [rep[0]] + rep[1..] == rep;
    }
  }

  lemma {:induction false} ReplaceFromLiteral(s: string, pat: string, rep: string, i: nat)
    requires pat != [] && i <= |s| && '$' !in rep
    ensures ReplaceFrom(s, pat, rep, i) == ReplaceAll(s[i..], pat, rep)
    decreases |s| - i
  {
    var t := s[i..];
    if |s| - i >= |pat| {
      assert t[..|pat|] == s[i..i + |pat|];
      if s[i..i + |pat|] == pat {
        assert t[|pat|..] == s[i + |pat|..];
        SubstituteLiteral(rep, pat, s[..i], s[i + |pat|..]);
        ReplaceFromLiteral(s, pat, rep, i + |pat|);
      } else {
        assert t[0] == s[i] && t[1..] == s[i + 1..];
        ReplaceFromLiteral(s, pat, rep, i + 1);
      }
    }
  }

  /** For a replacement without `$`, JavaScript's `replace` is the literal
      replacement `ReplaceAll`. */
  lemma ReplaceGlobalLiteral(s: string, pat: string, rep: string)
    requires pat != [] && '$' !in rep
    ensures ReplaceGlobal(s, pat, rep) == ReplaceAll(s, pat, rep)
  {
    ReplaceFromLiteral(s, pat, rep, 0);
    assert s[0..] == s;
  }

  lemma {:induction false} ReplaceFromMatch(s: string, pat: string, i: nat)
    requires pat != [] && i <= |s|
    ensures ReplaceFrom(s, pat, "$&", i) == s[i..]
    decreases |s| - i
  {
    if |s| - i >= |pat| {
      if s[i..i + |pat|] == pat {
        SubstituteMatch(pat, s[..i], s[i + |pat|..]);
        ReplaceFromMatch(s, pat, i + |pat|);
        assert s[i..] == s[i..i + |pat|] + s[i + |pat|..];
      } else {
        ReplaceFromMatch(s, pat, i + 1);
        assert s[i..] == [s[i]] + s[i + 1..];
      }
    }
  }

  /** `$&` alone stands for the match. */
  lemma SubstituteMatch(matched: string, before: string, after: string)
    ensures Substitute("$&", matched, before, after) == matched
  {
    var rep := "$&";
    assert rep[2..] == [];
  }

  /** The replacement `$&` puts every match back: the text is unchanged. */
  lemma ReplaceGlobalMatch(s: string, pat: string)
    requires pat != []
    ensures ReplaceGlobal(s, pat, "$&") == s
  {
    ReplaceFromMatch(s, pat, 0);
    assert s[0..] == s;
  }

  // ---------------------------------------------------------------------------
  // Numbers as text

  predicate IsDigit(c: char) {
    '0' <= c <= '9'
  }

  /** `n.toString()` for a non-negative integer: its decimal digits. */
  function DecimalText(n: nat): (r: string)
    ensures r != [] && forall i :: 0 <= i < |r| ==> IsDigit(r[i])
    ensures n >= 10 <==> |r| >= 2
    decreases n
  {
    var last := ['0' + (n % 10) as char];
    if n < 10 then last else DecimalText(n / 10) + last
  }

  /** Different numbers have different decimal texts. */
  lemma {:induction false} DecimalInjective(m: nat, n: nat)
    requires DecimalText(m) == DecimalText(n)
    ensures m == n
    decreases n
  {
    var a, b := DecimalText(m), DecimalText(n);
    assert a[|a| - 1] == b[|b| - 1];
    if n >= 10 {
      assert m >= 10;
      assert a[..|a| - 1] == DecimalText(m / 10);
      assert b[..|b| - 1] == DecimalText(n / 10);
      DecimalInjective(m / 10, n / 10);
    }
  }
}
