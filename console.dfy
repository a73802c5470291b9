/**
 * The console scraper: prompts for a query and a count, runs one search,
 * removes repeated URLs keeping first-seen order, and writes numbered rows
 * to `extracted_urls.csv`.
 */
module ConsoleScraper {

  import opened Text
  import opened Urls
  import opened Csv
  import opened Search
  import opened Request

  const OutputFile := "extracted_urls.csv"

  /** How a console run ends: the message it prints last, with what was written. */
  datatype Status =
    | EmptyQuery
    | SearchFailed
    | Stored(retrieved: nat, urls: seq<Url>, file: CsvFile)

  /**
   * Order-preserving duplicate removal: walks the input once and appends each
   * URL that the list built so far does not yet hold.
   */
  method FilterUrls(urls: seq<Url>) returns (filtered: seq<Url>)
    ensures filtered == Dedup(urls)
    ensures NoDuplicates(filtered)
    ensures forall u :: u in filtered <==> u in urls
  {
    filtered := [];
    for i := 0 to |urls|
      invariant filtered == Dedup(urls[..i])
    {
      assert urls[..i + 1][..i] == urls[..i];
      if urls[i] !in filtered {
        filtered := filtered + [urls[i]];
      }
    }
    assert urls[..|urls|] == urls;
    DedupNoDuplicates(urls);
    DedupElements(urls);
  }

  /** Writes the `No.`, `URL` header and then one row per URL, numbered from 1. */
  method StoreUrls(urls: seq<Url>, filename: string) returns (file: CsvFile)
    ensures file.path == filename
    ensures |file.rows| == |urls| + 1 && file.rows[0] == [Str("No."), Str("URL")]
    ensures forall k :: 1 <= k <= |urls| ==> file.rows[k] == [Int(k), Str(urls[k - 1])]
    ensures file.rows == NumberedRows(urls)
  {
    var rows := [NumberedHeader];
    for k := 1 to |urls| + 1
      invariant |rows| == k && rows[0] == NumberedHeader
      invariant forall j :: 1 <= j < k ==> rows[j] == [Int(j), Str(urls[j - 1])]
    {
      rows := rows + [[Int(k), Str(urls[k - 1])]];
    }
    file := CsvFile(filename, rows);
  }

  /**
   * One run of the console program. `response` is what the search wrapper
   * would answer; `calls` records whether it was asked, and with what.
   * `countWarning` is whether the invalid-count message was printed.
   */
  method RunConsole(rawQuery: string, rawCount: string, response: seq<Url>)
    returns (status: Status, calls: seq<SearchCall>, countWarning: bool)
    ensures status.EmptyQuery? <==> Strip(rawQuery) == []
    ensures status.EmptyQuery? ==> calls == [] && !countWarning
    ensures !status.EmptyQuery? ==>
              calls == [SearchCall(Strip(rawQuery), ResolveCount(rawCount).count)] &&
              countWarning == ResolveCount(rawCount).invalid
    ensures status.SearchFailed? <==> Strip(rawQuery) != [] && response == []
    ensures status.Stored? ==>
              status.retrieved == |response| &&
              status.urls == Dedup(response) && status.urls != [] &&
              status.file == CsvFile(OutputFile, NumberedRows(status.urls))
  {
    var query := Strip(rawQuery);
    if query == [] {
      return EmptyQuery, [], false;
    }
    var choice := ResolveCount(rawCount);
    calls := [SearchCall(query, choice.count)];
    countWarning := choice.invalid;
    var urls := response;
    if urls != [] {
      var filtered := FilterUrls(urls);
      DedupNonEmpty(urls);
      var file := StoreUrls(filtered, OutputFile);
      status := Stored(|urls|, filtered, file);
    } else {
      status := SearchFailed;
    }
  }
}
