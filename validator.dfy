/**
 * `validateProxies`: read `unique_proxies.txt`, check every proxy in its own
 * goroutine, collect the ones that pass under one lock, report progress over
 * a channel, and write the passing ones to `validated_proxies.txt`.
 */
module Validator {
  import opened LineFile
  import opened Storage
  import opened Progress
  import opened GoStrings

  /** The proxies of `ps` that pass `check`, in the order of `ps`. */
  function Filter(check: string -> bool, ps: seq<string>): (passed: seq<string>)
    ensures |passed| <= |ps|
    ensures forall k :: 0 <= k < |passed| ==> check(passed[k]) && passed[k] in ps
  {
    if ps == [] then []
    else (if check(ps[0]) then [ps[0]] else []) + Filter(check, ps[1..])
  }

  lemma {:induction false} FilterAppend(check: string -> bool, a: seq<string>, b: seq<string>)
    ensures Filter(check, a + b) == Filter(check, a) + Filter(check, b)
  {
    if a == [] {
      assert a + b == b;
    } else {
      assert (a + b)[0] == a[0] && (a + b)[1..] == a[1..] + b;
      FilterAppend(check, a[1..], b);
    }
  }

  /** A proxy occurs among the passed ones as often as in `ps` if it passes, and never otherwise. */
  lemma {:induction false} FilterCount(check: string -> bool, ps: seq<string>, p: string)
    ensures multiset(Filter(check, ps))[p] == if check(p) then multiset(ps)[p] else 0
  {
    if ps != [] {
      FilterCount(check, ps[1..], p);
      assert ps == [ps[0]] + ps[1..];
      assert multiset(ps) == multiset{ps[0]} + multiset(ps[1..]);
    }
  }

  /** Checking proxies in another order passes the same proxies, each as often. */
  lemma FilterPermutation(check: string -> bool, a: seq<string>, b: seq<string>)
    requires multiset(a) == multiset(b)
    ensures multiset(Filter(check, a)) == multiset(Filter(check, b))
  {
    forall p ensures multiset(Filter(check, a))[p] == multiset(Filter(check, b))[p] {
      FilterCount(check, a, p);
      FilterCount(check, b, p);
    }
  }

  /**
   * The checking goroutines, serialised by `mu` in the order they finish:
   * `completed` is that order (each input proxy once), a proxy is appended to
   * the valid list when `check` passes, and every goroutine sends one tick.
   */
  method Validate(proxies: seq<string>, check: string -> bool)
    returns (valid: seq<string>, completed: seq<string>, ticks: nat)
    ensures multiset(completed) == multiset(proxies)
    ensures valid == Filter(check, completed)
    ensures multiset(valid) == multiset(Filter(check, proxies))
    ensures ticks == |proxies|
  {
    valid, completed, ticks := [], [], 0;
    var pending := multiset(proxies);
    while pending != multiset{}
      invariant multiset(completed) + pending == multiset(proxies)
      invariant valid == Filter(check, completed)
      invariant ticks == |completed|
      decreases |pending|
    {
      var proxy :| proxy in pending;
      FilterAppend(check, completed, [proxy]);
      if check(proxy) {
        valid := valid + [proxy];
      }
      completed := completed + [proxy];
      ticks := ticks + 1;
      pending := pending - multiset{proxy};
    }
    FilterPermutation(check, completed, proxies);
  }

  /** What `validateProxies` prints at the end: it could not open its input, could not create its output, or the count. */
  datatype ValidateReport = CannotOpen | CannotCreate | Validated(count: nat)

  /**
   * `validateProxies`. `check` stands for `checkProxy`, that is, for the
   * network. The proxies are the lines of `unique_proxies.txt`; the valid
   * ones are those passing `check`, each as often as it occurs, in completion
   * order; the bar is redrawn once per line; the output file is rewritten
   * with the valid proxies, one per line.
   */
  method ValidateProxies(disk: Disk, check: string -> bool)
    returns (after: Disk, report: ValidateReport, valid: seq<string>, bars: seq<string>)
    ensures disk.unique.Absent? || !disk.canOpen ==> after == disk && report == CannotOpen && valid == [] && bars == []
    ensures disk.unique.Present? && disk.canOpen ==>
      var proxies := ScanLines(disk.unique.content);
      && multiset(valid) == multiset(Filter(check, proxies))
      && |bars| == |proxies|
      && (forall k :: 0 <= k < |proxies| ==> bars[k] == Bar(k + 1, |proxies|))
      && if disk.canCreate then
           report == Validated(|valid|) && after == disk.(validated := Present(Render(valid)))
         else
           report == CannotCreate && after == disk
  {
    after, valid, bars := disk, [], [];
    if disk.unique.Absent? || !disk.canOpen {
      return after, CannotOpen, valid, bars;
    }
    var proxies := ReadLines(disk.unique.content);
    var completed, ticks, received;
    valid, completed, ticks := Validate(proxies, check);
    received, bars := Consume(|proxies|);
    if !disk.canCreate {
      return after, CannotCreate, valid, bars;
    }
    after := disk.(validated := Present(Render(valid)));
    report := Validated(|valid|);
  }

  /** Every validated proxy is one of the proxies read, and passed the check. */
  lemma ValidAreChecked(check: string -> bool, proxies: seq<string>, valid: seq<string>)
    requires multiset(valid) == multiset(Filter(check, proxies))
    ensures forall v :: v in valid ==> v in proxies && check(v)
  {
    forall v | v in valid ensures v in proxies && check(v) {
      assert v in multiset(Filter(check, proxies));
    }
  }

  /** A single proxy that fails the check: nothing is valid, and the bar ends full at 1 of 1. */
  lemma SingleFailingProxyExample(check: string -> bool, p: string, valid: seq<string>)
    requires !check(p)
    requires multiset(valid) == multiset(Filter(check, [p]))
    ensures valid == []
    ensures Bar(1, 1) == Repeat('#', BarLength)
  {
    assert Filter(check, [p]) == [];
    BarEnds(1);
  }
}
