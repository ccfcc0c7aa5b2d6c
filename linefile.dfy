/**
 * The newline-delimited text files the collector writes and the validator
 * reads back: one record written as `p + "\n"`, and records read with a
 * `bufio.Scanner` using the default split function `bufio.ScanLines`.
 */
module LineFile {
  import opened GoStrings

  /** The position of the first newline in `s`, or `|s|` when there is none (`bytes.IndexByte`). */
  function IndexOfNewline(s: string): (i: nat)
    ensures i <= |s|
    ensures '\n' !in s[..i]
    ensures i < |s| ==> s[i] == '\n'
  {
    if s == [] || s[0] == '\n' then 0 else 1 + IndexOfNewline(s[1..])
  }

  predicate EndsInCR(s: string) {
    s != [] && s[|s| - 1] == '\r'
  }

  /** `dropCR` of package bufio: removes one trailing carriage return, if there is one. */
  function DropCR(s: string): (r: string)
    ensures EndsInCR(s) ==> r + "\r" == s
    ensures !EndsInCR(s) ==> r == s
  {
    if EndsInCR(s) then s[..|s| - 1] else s
  }

  /**
   * `bufio.ScanLines` on non-empty data at end of input: the token is the text
   * up to the first newline (or all of the data when there is none) without
   * one trailing carriage return, and `advance` also consumes the newline.
   */
  function ScanLine(data: string): (r: (nat, string))
    requires data != []
    ensures 0 < r.0 <= |data|
    ensures '\n' !in r.1
    ensures r.0 < |data| ==> data[..r.0] == data[..r.0 - 1] + "\n"
  {
    var i := IndexOfNewline(data);
    assert data[..i] <= data;
    if i < |data| then (i + 1, DropCR(data[..i])) else (|data|, DropCR(data))
  }

  /**
   * Which token `bufio.ScanLines` returns: the step stops at the first
   * newline, and the token is what precedes it with one trailing carriage
   * return dropped; with no newline left, the token is all of the data
   * without one trailing carriage return.
   */
  lemma ScanLineToken(data: string)
    requires data != []
    ensures var (advance, token) := ScanLine(data);
      && '\n' !in data[..advance - 1]
      && (advance < |data| || data[|data| - 1] == '\n' ==> data[advance - 1] == '\n' && token == DropCR(data[..advance - 1]))
      && (advance == |data| && data[|data| - 1] != '\n' ==> token == DropCR(data))
  {
    var i := IndexOfNewline(data);
    if i == |data| {
      assert data[..i - 1] == data[..i][..i - 1];
    }
  }

  /** The tokens a `bufio.Scanner` with `bufio.ScanLines` yields for the whole of `data`. */
  function ScanLines(data: string): (lines: seq<string>)
    ensures forall k :: 0 <= k < |lines| ==> '\n' !in lines[k]
    decreases |data|
  {
    if data == [] then []
    else
      var (advance, token) := ScanLine(data);
      [token] + ScanLines(data[advance..])
  }

  /** The lines a reader obtains from `lines`: each with one trailing carriage return removed. */
  function DropCRs(lines: seq<string>): (r: seq<string>)
    ensures |r| == |lines|
    ensures forall k :: 0 <= k < |lines| ==> r[k] == DropCR(lines[k])
  {
    if lines == [] then [] else [DropCR(lines[0])] + DropCRs(lines[1..])
  }

  /** The file content written by `for _, p := range ps { f.WriteString(p + "\n") }`. */
  function Render(ps: seq<string>): string {
    if ps == [] then [] else ps[0] + "\n" + Render(ps[1..])
  }

  /** Writing one more record appends it with its newline. */
  lemma {:induction false} RenderAppend(ps: seq<string>, p: string)
    ensures Render(ps + [p]) == Render(ps) + p + "\n"
  {
    if ps != [] {
      assert (ps + [p])[1..] == ps[1..] + [p];
      RenderAppend(ps[1..], p);
    } else {
      assert [] + [p] == [p];
    }
  }

  lemma {:induction false} IndexOfFirstNewline(s: string, j: nat)
    requires j < |s| && s[j] == '\n' && '\n' !in s[..j]
    ensures IndexOfNewline(s) == j
  {
    if j > 0 {
      assert s[0] == s[..j][0];
      assert s[1..][..j - 1] == s[..j][1..];
      IndexOfFirstNewline(s[1..], j - 1);
    }
  }

  lemma ScanLineRecord(p: string, rest: string)
    requires '\n' !in p
    ensures ScanLine(p + "\n" + rest) == (|p| + 1, DropCR(p))
  {
    var data := p + "\n" + rest;
    assert data[..|p|] == p;
    IndexOfFirstNewline(data, |p|);
  }

  /**
   * Reading back a rendered file: each newline-free record comes back as one
   * line, with at most one trailing carriage return removed, in write order.
   */
  lemma {:induction false} ScanRender(ps: seq<string>)
    requires forall k :: 0 <= k < |ps| ==> '\n' !in ps[k]
    ensures ScanLines(Render(ps)) == DropCRs(ps)
  {
    if ps != [] {
      var data := Render(ps);
      ScanLineRecord(ps[0], Render(ps[1..]));
      assert data[|ps[0]| + 1..] == Render(ps[1..]);
      ScanRender(ps[1..]);
    }
  }

  /**
   * The round trip is exact if and only if no record ends in a carriage
   * return; in every case the reader sees exactly as many lines as were written.
   */
  lemma RoundTrip(ps: seq<string>)
    requires forall k :: 0 <= k < |ps| ==> '\n' !in ps[k]
    ensures |ScanLines(Render(ps))| == |ps|
    ensures ScanLines(Render(ps)) == ps <==> forall k :: 0 <= k < |ps| ==> !EndsInCR(ps[k])
  {
    ScanRender(ps);
    if ScanLines(Render(ps)) == ps {
      forall k | 0 <= k < |ps| ensures !EndsInCR(ps[k]) {
        assert DropCR(ps[k]) == ps[k];
      }
    }
  }

  /**
   * The lines of a text file: the newline-separated pieces of `s`, without
   * the empty piece that follows a final newline (or makes up an empty file).
   */
  function Lines(s: string): seq<string> {
    if s == [] || s[|s| - 1] == '\n' then Split(s)[..|Split(s)| - 1] else Split(s)
  }

  /** A first line `w` ended by a newline comes before the lines of the rest. */
  lemma LinesCons(w: string, rest: string)
    requires '\n' !in w
    ensures Lines(w + "\n" + rest) == [w] + Lines(rest)
  {
    var s := w + "\n" + rest;
    SplitAtNewline(w, rest);
    if rest == [] {
      assert s[|s| - 1] == '\n';
      assert Split(rest) == [[]];
    } else {
      assert s[|s| - 1] == rest[|rest| - 1];
      if rest[|rest| - 1] == '\n' {
        assert ([w] + Split(rest))[..|Split(rest)|] == [w] + Split(rest)[..|Split(rest)| - 1];
      }
    }
  }

  lemma DropCRsCons(x: string, ys: seq<string>)
    ensures DropCRs([x] + ys) == [DropCR(x)] + DropCRs(ys)
  {
    assert ([x] + ys)[1..] == ys;
  }

  /**
   * What a `bufio.Scanner` with `bufio.ScanLines` yields for any file: its
   * lines, in order, each with at most one trailing carriage return removed.
   */
  lemma {:induction false} ScanLinesSplit(s: string)
    ensures ScanLines(s) == DropCRs(Lines(s))
    decreases |s|
  {
    if s != [] {
      var i := IndexOfNewline(s);
      if i < |s| {
        var w, rest := s[..i], s[i + 1..];
        assert s == w + "\n" + rest;
        ScanLinesSplit(rest);
        LinesCons(w, rest);
        DropCRsCons(w, Lines(rest));
      } else {
        SplitNoNewline(s);
        assert s[..|s|] == s;
        assert ScanLines(s) == [DropCR(s)] + ScanLines([]);
      }
    }
  }

  /**
   * The scanner loop of `validateProxies`: append `scanner.Text()` for every
   * token until `Scan` reports the end of the input.
   */
  method ReadLines(data: string) returns (lines: seq<string>)
    ensures lines == ScanLines(data)
  {
    lines := [];
    var rest := data;
    while rest != []
      invariant lines + ScanLines(rest) == ScanLines(data)
      decreases |rest|
    {
      var (advance, token) := ScanLine(rest);
      lines := lines + [token];
      rest := rest[advance..];
    }
  }
}
