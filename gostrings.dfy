/**
 * The parts of Go's `strings` package that the proxy collector relies on:
 * `strings.TrimSpace`, `strings.Split(s, "\n")`, `strings.Join(ps, "\n")`
 * and `strings.Repeat`. Go strings are byte strings; here a string is a
 * sequence of characters (one character per rune).
 */
module GoStrings {

  /** Go's `unicode.IsSpace`: the Latin-1 spaces and the Unicode White_Space runes. */
  predicate IsSpace(c: char) {
    || c == ' ' || c == '\t' || c == '\n' || c == '\r'
    || c == '\U{000B}' || c == '\U{000C}' || c == '\U{0085}' || c == '\U{00A0}'
    || c == '\U{1680}' || ('\U{2000}' <= c <= '\U{200A}')
    || c == '\U{2028}' || c == '\U{2029}' || c == '\U{202F}' || c == '\U{205F}'
    || c == '\U{3000}'
  }

  predicate AllSpace(s: string) {
    forall i :: 0 <= i < |s| ==> IsSpace(s[i])
  }

  /** The number of white-space characters at the front of `s`. */
  function Leading(s: string): (n: nat)
    ensures n <= |s|
  {
    if s != [] && IsSpace(s[0]) then 1 + Leading(s[1..]) else 0
  }

  /** The number of white-space characters at the back of `s`. */
  function Trailing(s: string): (n: nat)
    ensures n <= |s|
  {
    if s != [] && IsSpace(s[|s| - 1]) then 1 + Trailing(s[..|s| - 1]) else 0
  }

  /** The leading run is all white space and stops before a character that is not. */
  lemma {:induction false} LeadingRun(s: string)
    ensures AllSpace(s[..Leading(s)])
    ensures Leading(s) == |s| || !IsSpace(s[Leading(s)])
  {
    if s != [] && IsSpace(s[0]) {
      LeadingRun(s[1..]);
      forall k | 0 <= k < Leading(s) ensures IsSpace(s[..Leading(s)][k]) {
        if k > 0 {
          assert s[..Leading(s)][k] == s[1..][..Leading(s[1..])][k - 1];
        }
      }
      if Leading(s) < |s| {
        assert s[Leading(s)] == s[1..][Leading(s[1..])];
      }
    }
  }

  /** The trailing run is all white space and stops after a character that is not. */
  lemma {:induction false} TrailingRun(s: string)
    ensures AllSpace(s[|s| - Trailing(s)..])
    ensures Trailing(s) == |s| || !IsSpace(s[|s| - Trailing(s) - 1])
  {
    if s != [] && IsSpace(s[|s| - 1]) {
      var t := s[..|s| - 1];
      TrailingRun(t);
      forall k | |s| - Trailing(s) <= k < |s| ensures IsSpace(s[k]) {
        if k < |s| - 1 {
          assert s[k] == t[k];
          assert t[|t| - Trailing(t)..][k - (|t| - Trailing(t))] == t[k];
        }
      }
      assert s[|s| - Trailing(s)..] == s[|s| - Trailing(s)..|s|];
      if Trailing(s) < |s| {
        assert s[|s| - Trailing(s) - 1] == t[|t| - Trailing(t) - 1];
      }
    }
  }

  /** When `s` is not all white space, its leading and trailing runs do not meet. */
  lemma RunsApart(s: string)
    requires Leading(s) < |s|
    ensures Leading(s) + Trailing(s) < |s|
  {
    LeadingRun(s);
    TrailingRun(s);
  }

  /** `strings.TrimSpace`: `s` without its leading and trailing white space. */
  function TrimSpace(s: string): string {
    if Leading(s) == |s| then [] else RunsApart(s); s[Leading(s)..|s| - Trailing(s)]
  }

  /**
   * What `strings.TrimSpace` does: `s` is some white space, then the result,
   * then some white space, and the result neither starts nor ends with white space.
   */
  lemma TrimSpaceShape(s: string)
    ensures Leading(s) + |TrimSpace(s)| <= |s|
    ensures TrimSpace(s) == s[Leading(s)..Leading(s) + |TrimSpace(s)|]
    ensures AllSpace(s[..Leading(s)]) && AllSpace(s[Leading(s) + |TrimSpace(s)|..])
    ensures TrimSpace(s) == [] || (!IsSpace(TrimSpace(s)[0]) && !IsSpace(TrimSpace(s)[|TrimSpace(s)| - 1]))
  {
    TrimSpaceSlice(s);
    TrimSpaceCuts(s);
    TrimSpaceEnds(s);
  }

  /** The trim of `s` is the slice that starts after the leading white space. */
  lemma TrimSpaceSlice(s: string)
    ensures Leading(s) + |TrimSpace(s)| <= |s|
    ensures TrimSpace(s) == s[Leading(s)..Leading(s) + |TrimSpace(s)|]
  {
    if Leading(s) < |s| {
      RunsApart(s);
    }
  }

  /** What the trim cuts off at either end is white space. */
  lemma TrimSpaceCuts(s: string)
    ensures Leading(s) + |TrimSpace(s)| <= |s|
    ensures AllSpace(s[..Leading(s)]) && AllSpace(s[Leading(s) + |TrimSpace(s)|..])
  {
    LeadingRun(s);
    var i, t := Leading(s), Trailing(s);
    if i < |s| {
      RunsApart(s);
      TrailingRun(s);
      assert i + |TrimSpace(s)| == |s| - t;
    } else {
      assert TrimSpace(s) == [] && s[i..] == [];
    }
  }

  /** The trim neither starts nor ends with white space. */
  lemma TrimSpaceEnds(s: string)
    ensures TrimSpace(s) == [] || (!IsSpace(TrimSpace(s)[0]) && !IsSpace(TrimSpace(s)[|TrimSpace(s)| - 1]))
  {
    var i, t := Leading(s), Trailing(s);
    if i < |s| {
      LeadingRun(s);
      TrailingRun(s);
      RunsApart(s);
      var r := TrimSpace(s);
      assert r[0] == s[i] && r[|r| - 1] == s[|s| - t - 1];
    }
  }

  /** A string that neither starts nor ends with white space is its own trim. */
  lemma TrimSpaceFixed(s: string)
    requires s == [] || (!IsSpace(s[0]) && !IsSpace(s[|s| - 1]))
    ensures TrimSpace(s) == s
  {
  }

  /** Trimming is idempotent. */
  lemma TrimSpaceIdempotent(s: string)
    ensures TrimSpace(TrimSpace(s)) == TrimSpace(s)
  {
    TrimSpaceEnds(s);
    TrimSpaceFixed(TrimSpace(s));
  }

  /** The number of newline characters in `s`. */
  function NewlineCount(s: string): nat {
    if s == [] then 0 else (if s[0] == '\n' then 1 else 0) + NewlineCount(s[1..])
  }

  /**
   * `strings.Split(s, "\n")`: the maximal newline-free pieces between the
   * newlines of `s`. With k newlines there are k + 1 pieces, so the empty
   * string gives one empty piece and a trailing newline a trailing empty piece.
   */
  function Split(s: string): (pieces: seq<string>)
    ensures |pieces| == NewlineCount(s) + 1
    ensures forall i :: 0 <= i < |pieces| ==> '\n' !in pieces[i]
  {
    if s == [] then [[]]
    else if s[0] == '\n' then [[]] + Split(s[1..])
    else
      var rest := Split(s[1..]);
      [[s[0]] + rest[0]] + rest[1..]
  }

  /** `strings.Join(pieces, "\n")`. */
  function Join(pieces: seq<string>): string {
    if pieces == [] then []
    else if |pieces| == 1 then pieces[0]
    else pieces[0] + "\n" + Join(pieces[1..])
  }

  lemma JoinExtendFirst(c: char, pieces: seq<string>)
    requires pieces != []
    ensures Join([[c] + pieces[0]] + pieces[1..]) == [c] + Join(pieces)
  {
    var ps := [[c] + pieces[0]] + pieces[1..];
    if |pieces| > 1 {
      assert ps[1..] == pieces[1..];
    }
  }

  /** Joining the pieces of a split with newlines gives back the original string. */
  lemma {:induction false} JoinSplit(s: string)
    ensures Join(Split(s)) == s
  {
    if s == [] {
    } else if s[0] == '\n' {
      JoinSplit(s[1..]);
      var rest := Split(s[1..]);
      assert Split(s) == [[]] + rest;
      assert ([[]] + rest)[1..] == rest;
      assert s == "\n" + s[1..];
    } else {
      JoinSplit(s[1..]);
      JoinExtendFirst(s[0], Split(s[1..]));
      assert s == [s[0]] + s[1..];
    }
  }

  lemma {:induction false} SplitNoNewline(w: string)
    requires '\n' !in w
    ensures Split(w) == [w]
  {
    if w != [] {
      assert '\n' !in w[1..];
      SplitNoNewline(w[1..]);
      assert [w[0]] + w[1..] == w;
    }
  }

  lemma {:induction false} SplitAtNewline(w: string, s: string)
    requires '\n' !in w
    ensures Split(w + "\n" + s) == [w] + Split(s)
  {
    if w == [] {
      assert w + "\n" + s == "\n" + s;
      assert ("\n" + s)[1..] == s;
    } else {
      var t := w + "\n" + s;
      assert t[0] == w[0] && t[1..] == w[1..] + "\n" + s;
      assert '\n' !in w[1..];
      SplitAtNewline(w[1..], s);
      assert [w[0]] + w[1..] == w;
    }
  }

  /** Splitting a newline-joined list of newline-free pieces gives back the pieces. */
  lemma {:induction false} SplitJoin(pieces: seq<string>)
    requires pieces != []
    requires forall i :: 0 <= i < |pieces| ==> '\n' !in pieces[i]
    ensures Split(Join(pieces)) == pieces
  {
    if |pieces| == 1 {
      SplitNoNewline(pieces[0]);
    } else {
      SplitJoin(pieces[1..]);
      SplitAtNewline(pieces[0], Join(pieces[1..]));
      assert [pieces[0]] + pieces[1..] == pieces;
    }
  }

  /** `strings.Repeat(string(c), n)`. */
  function Repeat(c: char, n: nat): (r: string)
    ensures |r| == n && forall i :: 0 <= i < n ==> r[i] == c
  {
    seq(n, _ => c)
  }
}
