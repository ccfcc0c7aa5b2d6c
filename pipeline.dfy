/**
 * `main` without its clocks and messages: the collector stage, then the
 * validator stage, unconditionally.
 */
module Pipeline {
  import opened LineFile
  import opened Storage
  import opened Loader
  import opened Collector
  import opened Validator

  /**
   * The validator's input is the collector's set written and read back: every
   * proxy it passes is a member of that set with at most one trailing
   * carriage return removed, and exactly a member when no member ends in one.
   */
  lemma ValidatedWithinUnique(done: seq<Fetch>, listing: seq<string>, check: string -> bool, valid: seq<string>)
    requires IsListing(listing, UniqueOf(done))
    requires multiset(valid) == multiset(Filter(check, ScanLines(Render(listing))))
    ensures forall v :: v in valid ==> check(v) && exists u :: u in UniqueOf(done) && DropCR(u) == v
    ensures (forall u :: u in UniqueOf(done) ==> !EndsInCR(u)) ==> forall v :: v in valid ==> v in UniqueOf(done)
  {
    var unique := UniqueOf(done);
    var proxies := ScanLines(Render(listing));
    UniqueRoundTrip(done, listing);
    ValidAreChecked(check, proxies, valid);
    forall v | v in valid ensures exists u :: u in unique && DropCR(u) == v {
      var k :| 0 <= k < |proxies| && proxies[k] == v;
      assert listing[k] in unique;
    }
  }

  /**
   * Both stages run one after the other. The validator always runs, even
   * when the collector stopped early, and then works on whatever
   * `unique_proxies.txt` already held; `validated_proxies.txt` is rewritten
   * whenever the validator can open its input and create its output. When
   * the collector saved its set, the valid proxies are exactly those of its
   * listing, read back, that pass the check: each is a member of the set with
   * at most one trailing carriage return removed, and exactly a member when
   * no member ends in one.
   */
  method Run(disk: Disk, fetch: (nat, string) -> Fetch, check: string -> bool)
    returns (after: Disk, collected: CollectReport, validated: ValidateReport, listing: seq<string>, valid: seq<string>)
    ensures after.canCreate == disk.canCreate && after.canOpen == disk.canOpen
    ensures after.urls == AfterLoad(disk).urls
    ensures collected.Saved? ==> Loaded(disk).Success? && disk.canCreate
    ensures collected.Saved? ==> IsListing(listing, UniqueOf(Outcomes(fetch, Loaded(disk).value)))
    ensures after.unique == if collected.Saved? then Present(Render(listing)) else disk.unique
    ensures after.unique.Present? && disk.canOpen ==>
      multiset(valid) == multiset(Filter(check, ScanLines(after.unique.content)))
    ensures after.unique.Present? && disk.canOpen && disk.canCreate ==>
      validated == Validated(|valid|) && after.validated == Present(Render(valid))
    ensures after.unique.Absent? || !disk.canOpen ==> validated == CannotOpen && valid == [] && after.validated == disk.validated
    ensures after.unique.Present? && disk.canOpen && !disk.canCreate ==> validated == CannotCreate && after.validated == disk.validated
    ensures collected.Saved? && disk.canOpen ==> multiset(valid) == multiset(Filter(check, DropCRs(listing)))
    ensures collected.Saved? ==>
      var unique := UniqueOf(Outcomes(fetch, Loaded(disk).value));
      && (forall v :: v in valid ==> check(v) && exists u :: u in unique && DropCR(u) == v)
      && ((forall u :: u in unique ==> !EndsInCR(u)) ==> forall v :: v in valid ==> v in unique)
  {
    var collectedDisk, order;
    collectedDisk, collected, order, listing := FetchAndSave(disk, fetch);
    var bars;
    after, validated, valid, bars := ValidateProxies(collectedDisk, check);
    if collected.Saved? {
      var done := Outcomes(fetch, Loaded(disk).value);
      UniqueRoundTrip(done, listing);
      if disk.canOpen {
        ValidatedWithinUnique(done, listing, check, valid);
      }
    }
  }
}
