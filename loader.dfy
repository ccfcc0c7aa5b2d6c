/** `loadURLs`: reading the list of proxy source URLs from `urls.txt`. */
module Loader {
  import opened Wrappers
  import opened GoStrings
  import opened LineFile
  import opened Storage

  /** The three errors `loadURLs` can return. */
  datatype LoadError = CreateFailed | OpenFailed | NoValidUrls

  predicate Blank(line: string) {
    TrimSpace(line) == []
  }

  /** What one line contributes: nothing when blank, else its trimmed form. */
  function Kept(line: string): seq<string> {
    if Blank(line) then [] else [TrimSpace(line)]
  }

  /** The trimmed form of every non-blank line, in file order. */
  function NonBlank(lines: seq<string>): (urls: seq<string>)
    ensures |urls| <= |lines|
    ensures forall k :: 0 <= k < |urls| ==> urls[k] != []
  {
    if lines == [] then [] else Kept(lines[0]) + NonBlank(lines[1..])
  }

  /** Filtering works line by line, so the order of the file is kept. */
  lemma {:induction false} NonBlankAppend(a: seq<string>, b: seq<string>)
    ensures NonBlank(a + b) == NonBlank(a) + NonBlank(b)
  {
    if a != [] {
      assert (a + b)[0] == a[0] && (a + b)[1..] == a[1..] + b;
      NonBlankAppend(a[1..], b);
      var h := Kept(a[0]);
      assert NonBlank(a + b) == h + (NonBlank(a[1..]) + NonBlank(b));
      assert h + (NonBlank(a[1..]) + NonBlank(b)) == (h + NonBlank(a[1..])) + NonBlank(b);
    } else {
      assert a + b == b;
    }
  }

  /** A URL is loaded exactly when it is the trim of some non-blank line. */
  lemma {:induction false} NonBlankMembers(lines: seq<string>, u: string)
    ensures u in NonBlank(lines) <==> exists k :: 0 <= k < |lines| && !Blank(lines[k]) && TrimSpace(lines[k]) == u
  {
    if lines != [] {
      NonBlankMembers(lines[1..], u);
      if exists k :: 0 <= k < |lines| - 1 && !Blank(lines[1..][k]) && TrimSpace(lines[1..][k]) == u {
        var k :| 0 <= k < |lines| - 1 && !Blank(lines[1..][k]) && TrimSpace(lines[1..][k]) == u;
        assert lines[k + 1] == lines[1..][k];
      }
      if exists k :: 0 <= k < |lines| && !Blank(lines[k]) && TrimSpace(lines[k]) == u {
        var k :| 0 <= k < |lines| && !Blank(lines[k]) && TrimSpace(lines[k]) == u;
        if k > 0 {
          assert lines[1..][k - 1] == lines[k];
        }
      }
    }
  }

  /** Nothing is loaded exactly when every line is blank. */
  lemma {:induction false} NonBlankEmpty(lines: seq<string>)
    ensures NonBlank(lines) == [] <==> forall k :: 0 <= k < |lines| ==> Blank(lines[k])
  {
    if lines != [] {
      var tail := lines[1..];
      NonBlankEmpty(tail);
      assert NonBlank(lines) == Kept(lines[0]) + NonBlank(tail);
      assert NonBlank(lines) == [] <==> Blank(lines[0]) && NonBlank(tail) == [];
      if Blank(lines[0]) && NonBlank(tail) == [] {
        forall k | 1 <= k < |lines| ensures Blank(lines[k]) {
          assert lines[k] == tail[k - 1];
        }
      }
      if forall k :: 0 <= k < |lines| ==> Blank(lines[k]) {
        forall k | 0 <= k < |tail| ensures Blank(tail[k]) {
          assert tail[k] == lines[k + 1];
        }
      }
    }
  }

  /** Every loaded URL is non-empty and already trimmed: it neither starts nor ends with white space. */
  lemma NonBlankTrimmed(lines: seq<string>, u: string)
    requires u in NonBlank(lines)
    ensures u != [] && !IsSpace(u[0]) && !IsSpace(u[|u| - 1])
    ensures TrimSpace(u) == u
  {
    NonBlankMembers(lines, u);
    var k :| 0 <= k < |lines| && !Blank(lines[k]) && TrimSpace(lines[k]) == u;
    TrimSpaceEnds(lines[k]);
    TrimSpaceFixed(u);
  }

  /**
   * What `loadURLs` returns. A missing `urls.txt` gives no URLs and no error
   * when it can be created, `CreateFailed` otherwise; a file that cannot be
   * opened gives `OpenFailed`; otherwise the trimmed non-blank lines in file
   * order, or `NoValidUrls` when there are none.
   */
  function Loaded(disk: Disk): Result<seq<string>, LoadError> {
    match disk.urls
    case Absent => if disk.canCreate then Success([]) else Failure(CreateFailed)
    case Present(content) =>
      if !disk.canOpen then Failure(OpenFailed)
      else
        var urls := NonBlank(ScanLines(content));
        if urls == [] then Failure(NoValidUrls) else Success(urls)
  }

  /** The file system after `loadURLs`: only a missing `urls.txt` is written, and only emptily. */
  function AfterLoad(disk: Disk): Disk {
    if disk.urls.Absent? && disk.canCreate then disk.(urls := Present([])) else disk
  }

  /**
   * An empty URL list without an error happens exactly when `urls.txt` was
   * missing; a non-empty list holds trimmed, non-blank entries only.
   */
  lemma LoadedEmptyIffMissing(disk: Disk)
    requires Loaded(disk).Success?
    ensures Loaded(disk).value == [] <==> disk.urls.Absent?
    ensures forall k :: 0 <= k < |Loaded(disk).value| ==>
      Loaded(disk).value[k] != [] && TrimSpace(Loaded(disk).value[k]) == Loaded(disk).value[k]
  {
    var urls := Loaded(disk).value;
    forall k | 0 <= k < |urls| ensures TrimSpace(urls[k]) == urls[k] {
      NonBlankTrimmed(ScanLines(disk.urls.content), urls[k]);
    }
  }

  /** A readable `urls.txt` is rejected with `NoValidUrls` exactly when every line in it is blank. */
  lemma LoadedNoValidIffBlank(disk: Disk)
    requires disk.urls.Present? && disk.canOpen
    ensures Loaded(disk) == Failure(NoValidUrls) <==>
      forall k :: 0 <= k < |ScanLines(disk.urls.content)| ==> Blank(ScanLines(disk.urls.content)[k])
  {
    NonBlankEmpty(ScanLines(disk.urls.content));
  }

  /** `loadURLs` (the scanner loop appends each trimmed non-empty line). */
  method LoadUrls(disk: Disk) returns (result: Result<seq<string>, LoadError>, after: Disk)
    ensures result == Loaded(disk) && after == AfterLoad(disk)
  {
    after := disk;
    if disk.urls.Absent? {
      if !disk.canCreate {
        return Failure(CreateFailed), after;
      }
      after := disk.(urls := Present([]));
      return Success([]), after;
    }
    if !disk.canOpen {
      return Failure(OpenFailed), after;
    }
    var data := disk.urls.content;
    var urls: seq<string> := [];
    var rest := data;
    while rest != []
      invariant urls + NonBlank(ScanLines(rest)) == NonBlank(ScanLines(data))
      decreases |rest|
    {
      var (advance, token) := ScanLine(rest);
      var url := TrimSpace(token);
      ghost var tail := ScanLines(rest[advance..]);
      assert ScanLines(rest) == [token] + tail;
      assert ([token] + tail)[1..] == tail;
      ghost var rest' := NonBlank(tail);
      if url != [] {
        assert (urls + [url]) + rest' == urls + ([url] + rest');
        urls := urls + [url];
      } else {
        assert [] + rest' == rest';
      }
      rest := rest[advance..];
    }
    assert urls == NonBlank(ScanLines(data));
    if |urls| == 0 {
      return Failure(NoValidUrls), after;
    }
    return Success(urls), after;
  }
}
