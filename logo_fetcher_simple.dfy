/** The simple bank-logo downloader (logo_fetcher_simple.py). Its
    `clean_domain`, `sanitize_filename`, extension choice and spreadsheet
    filter are the same code as logo_fetcher.py's and are modelled once, in
    module LogoFetcher. What differs is `fetch_logo`: only the cleaned
    domain is tried, with no ".com" fallback for ".com.tr" domains. */
module LogoFetcherSimple {
  import opened Text
  import LogoFetcher

  /** Where the simple `fetch_logo` saves the logo: nowhere when the domain
      cleans to None; otherwise under the name the first accepted of the
      three requests for the cleaned domain gives it. */
  function SavedLogo(domain: Option<string>, bankName: string, outputDir: string, http: LogoFetcher.Http): (p: Option<string>)
    ensures LogoFetcher.CleanDomain(domain).None? ==> p.None?
    ensures p.Some? ==> StartsWith(p.value, outputDir + "/" + LogoFetcher.Sanitize(bankName) + ".")
  {
    match LogoFetcher.CleanDomain(domain)
    case None => None
    case Some(d) => LogoFetcher.SaveFirstAccepted(LogoFetcher.RequestsFor(d), LogoFetcher.Sanitize(bankName), outputDir, http)
  }

  /** The simple `fetch_logo`: one loop over the services, stopping at the
      first accepted reply. */
  method FetchLogo(domain: Option<string>, bankName: string, outputDir: string, http: LogoFetcher.Http)
    returns (saved: Option<string>)
    ensures saved == SavedLogo(domain, bankName, outputDir, http)
  {
    var cleaned := LogoFetcher.CleanDomain(domain);
    if cleaned.None? {
      return None;
    }
    var safeName := LogoFetcher.SanitizeFilename(bankName);
    saved := LogoFetcher.TryServices(cleaned.value, safeName, outputDir, http);
  }

  /** The first accepted request of a list is still the first accepted one
      when more requests follow. */
  lemma FirstAcceptedInPrefix(rs: seq<LogoFetcher.Request>, more: seq<LogoFetcher.Request>, http: LogoFetcher.Http)
    requires LogoFetcher.FirstAccepted(rs, http, 0).Some?
    ensures LogoFetcher.FirstAccepted(rs + more, http, 0) == LogoFetcher.FirstAccepted(rs, http, 0)
  {
    var i := LogoFetcher.FirstAccepted(rs, http, 0).value;
    var all := rs + more;
    assert all[i] == rs[i];
    assert forall j :: 0 <= j < i ==> all[j] == rs[j];
    var first := LogoFetcher.FirstAccepted(all, http, 0);
    assert first.Some? && first.value <= i;
    assert first.value == i;
  }

  /** The full downloader asks the same three requests first. */
  lemma FullStartsWithSimple(d: string)
    ensures LogoFetcher.Attempts(LogoFetcher.DomainsToTry(d)) ==
            LogoFetcher.RequestsFor(d) +
            (if LogoFetcher.EndsWith(d, ".com.tr")
             then LogoFetcher.RequestsFor(ReplaceAll(d, ".com.tr", ".com")) else [])
  {
    var ds := LogoFetcher.DomainsToTry(d);
    assert LogoFetcher.Attempts([d]) == LogoFetcher.RequestsFor(d) by {
      assert [d][..0] == [];
    }
    if |ds| == 2 {
      assert ds[..1] == [d];
    }
  }

  /** Without a ".com.tr" domain the two downloaders save the same logo. */
  lemma SameWithoutFallback(domain: Option<string>, bankName: string, outputDir: string, http: LogoFetcher.Http)
    requires LogoFetcher.CleanDomain(domain).Some?
    requires !LogoFetcher.EndsWith(LogoFetcher.CleanDomain(domain).value, ".com.tr")
    ensures SavedLogo(domain, bankName, outputDir, http) == LogoFetcher.SavedLogo(domain, bankName, outputDir, http)
  {
    var d := LogoFetcher.CleanDomain(domain).value;
    FullStartsWithSimple(d);
    assert LogoFetcher.RequestsFor(d) + [] == LogoFetcher.RequestsFor(d);
  }

  /** Whatever the simple downloader saves, the full one saves too, under
      the same name; the full one may in addition succeed through the
      ".com" fallback where the simple one gives up. */
  lemma SimpleSuccessCarriesOver(domain: Option<string>, bankName: string, outputDir: string, http: LogoFetcher.Http)
    requires SavedLogo(domain, bankName, outputDir, http).Some?
    ensures LogoFetcher.SavedLogo(domain, bankName, outputDir, http) == SavedLogo(domain, bankName, outputDir, http)
  {
    var d := LogoFetcher.CleanDomain(domain).value;
    var rs := LogoFetcher.RequestsFor(d);
    FullStartsWithSimple(d);
    var more := if LogoFetcher.EndsWith(d, ".com.tr")
                then LogoFetcher.RequestsFor(ReplaceAll(d, ".com.tr", ".com")) else [];
    FirstAcceptedInPrefix(rs, more, http);
    var i := LogoFetcher.FirstAccepted(rs, http, 0).value;
    assert (rs + more)[i] == rs[i];
  }

  /** The simple `fetch_logo` with its output directory and HTTP client fixed. */
  function SimpleFetcher(outputDir: string, http: LogoFetcher.Http): LogoFetcher.Fetcher
  {
    (domain, name) => SavedLogo(Some(domain), name, outputDir, http)
  }

  /** The download loop of `main`: one simple `fetch_logo` per bank,
      counting the saved ones and collecting the names of the failed ones. */
  method FetchEach(banks: seq<LogoFetcher.Bank>, outputDir: string, http: LogoFetcher.Http)
    returns (successCount: nat, failed: seq<string>)
    ensures successCount == LogoFetcher.SavedCount(banks, SimpleFetcher(outputDir, http))
    ensures failed == LogoFetcher.FailedNames(banks, SimpleFetcher(outputDir, http))
    ensures successCount + |failed| == |banks|
  {
    successCount, failed := 0, [];
    for i := 0 to |banks|
      invariant LogoFetcher.Tallied(banks[..i], successCount, failed, SimpleFetcher(outputDir, http))
    {
      var bank := banks[i];
      var logo := FetchLogo(Some(bank.domain), bank.name, outputDir, http);
      LogoFetcher.OneMoreBank(banks, i, successCount, failed, logo, SimpleFetcher(outputDir, http));
      if logo.Some? {
        successCount := successCount + 1;
      } else {
        failed := failed + [bank.name];
      }
    }
    assert banks[..|banks|] == banks;
    LogoFetcher.SavedOrFailed(banks, SimpleFetcher(outputDir, http));
  }

  /** Over the same bank list the full downloader saves at least as many
      logos as the simple one. */
  lemma {:induction false} FullSavesAtLeastAsMany(banks: seq<LogoFetcher.Bank>, outputDir: string, http: LogoFetcher.Http)
    ensures LogoFetcher.SavedCount(banks, SimpleFetcher(outputDir, http)) <=
            LogoFetcher.SavedCount(banks, LogoFetcher.FullFetcher(outputDir, http))
  {
    if banks != [] {
      var b := banks[|banks| - 1];
      FullSavesAtLeastAsMany(banks[..|banks| - 1], outputDir, http);
      if SavedLogo(Some(b.domain), b.name, outputDir, http).Some? {
        SimpleSuccessCarriesOver(Some(b.domain), b.name, outputDir, http);
      }
    }
  }
}
