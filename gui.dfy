/**
 * The form-based scraper: reads the query, count and filename fields,
 * retries an empty search up to three times, removes repeated URLs through a
 * set (so their order is not kept), and writes a one-column CSV file named
 * after the filename field.
 */
module GuiScraper {

  import opened Text
  import opened Urls
  import opened Csv
  import opened Search
  import opened Request

  const MaxRetries := 3
  const Extension := ".csv"

  /** How a press of the search button ends: the text the result label is left with. */
  datatype Outcome =
    | EmptyQuery
    | EmptyFilename
    | RetrievalFailed
    | NoRelevantUrls
    | Stored(urls: seq<Url>, file: CsvFile)

  /**
   * Duplicate removal through a set: the set of the input's URLs is listed
   * in whatever order iterating it yields, so the result holds each input URL
   * once and any order may come out.
   */
  method FilterUrls(urls: seq<Url>) returns (filtered: seq<Url>)
    ensures NoDuplicates(filtered)
    ensures forall u :: u in filtered <==> u in urls
    ensures multiset(filtered) == multiset(Dedup(urls))
    ensures |filtered| <= |urls|
    ensures urls != [] ==> filtered != []
  {
    var remaining := set u | u in urls;
    filtered := [];
    while remaining != {}
      invariant NoDuplicates(filtered)
      invariant forall u :: u in urls <==> u in filtered || u in remaining
      invariant forall u :: u in filtered ==> u !in remaining
    {
      var u :| u in remaining;
      filtered := filtered + [u];
      remaining := remaining - {u};
    }
    DedupNoDuplicates(urls);
    DedupElements(urls);
    SameElementsPermutation(filtered, Dedup(urls));
    assert |filtered| == |multiset(filtered)| == |Dedup(urls)|;
    DedupLength(urls);
    DedupNonEmpty(urls);
  }

  /** Writes the `URL` header and then one single-cell row per URL, in the order given. */
  method StoreUrls(urls: seq<Url>, filename: string) returns (file: CsvFile)
    ensures file.path == filename
    ensures |file.rows| == |urls| + 1 && file.rows[0] == [Str("URL")]
    ensures forall k :: 0 <= k < |urls| ==> file.rows[k + 1] == [Str(urls[k])]
    ensures file.rows == PlainRows(urls)
  {
    var rows := [PlainHeader];
    for k := 0 to |urls|
      invariant |rows| == k + 1 && rows[0] == PlainHeader
      invariant forall j :: 0 <= j < k ==> rows[j + 1] == [Str(urls[j])]
    {
      rows := rows + [[Str(urls[k])]];
    }
    file := CsvFile(filename, rows);
  }

  /**
   * The retry loop: asks the search wrapper with the same arguments until it
   * answers a non-empty list, at most `MaxRetries` times. The pause between
   * attempts is not modelled.
   */
  method FetchWithRetry(call: SearchCall, responses: seq<seq<Url>>)
    returns (urls: seq<Url>, calls: seq<SearchCall>)
    ensures 1 <= |calls| <= MaxRetries
    ensures forall k :: 0 <= k < |calls| ==> calls[k] == call
    ensures forall k :: 0 <= k < |calls| - 1 ==> Response(responses, k) == []
    ensures urls == Response(responses, |calls| - 1)
    ensures urls == [] ==> |calls| == MaxRetries
    ensures urls == [] <==> forall k :: 0 <= k < MaxRetries ==> Response(responses, k) == []
  {
    var retryCount := 0;
    urls, calls := [], [];
    while retryCount < MaxRetries
      invariant 0 <= retryCount <= MaxRetries && |calls| == retryCount
      invariant forall k :: 0 <= k < retryCount ==> calls[k] == call && Response(responses, k) == []
      invariant urls == [] && (retryCount > 0 ==> urls == Response(responses, retryCount - 1))
    {
      urls := Response(responses, retryCount);
      calls := calls + [call];
      if urls != [] {
        break;
      }
      retryCount := retryCount + 1;
    }
    assert urls != [] ==> Response(responses, |calls| - 1) != [];
  }

  /**
   * A stored outcome holds the answer of the last search made, which is the
   * first non-empty one, deduplicated in some order, and its file is
   * `<filename>.csv` with the `URL` layout.
   */
  predicate StoresFirstAnswer(outcome: Outcome, calls: seq<SearchCall>, responses: seq<seq<Url>>,
                              filename: string)
    requires outcome.Stored?
  {
    |calls| >= 1 &&
    var fetched := Response(responses, |calls| - 1);
    fetched != [] &&
    (forall k :: 0 <= k < |calls| - 1 ==> Response(responses, k) == []) &&
    multiset(outcome.urls) == multiset(Dedup(fetched)) &&
    outcome.file == CsvFile(filename + Extension, PlainRows(outcome.urls))
  }

  /**
   * The search button's handler, with the form fields as parameters. Checks
   * the query, then the filename, resolves the count, fetches with retries,
   * deduplicates and writes `<filename>.csv`.
   */
  method SearchAndStore(rawQuery: string, rawCount: string, rawFilename: string,
                        responses: seq<seq<Url>>)
    returns (outcome: Outcome, calls: seq<SearchCall>)
    ensures outcome.EmptyQuery? <==> Strip(rawQuery) == []
    ensures outcome.EmptyFilename? <==> Strip(rawQuery) != [] && Strip(rawFilename) == []
    ensures outcome.EmptyQuery? || outcome.EmptyFilename? ==> calls == []
    ensures Strip(rawQuery) != [] && Strip(rawFilename) != [] ==>
              1 <= |calls| <= MaxRetries &&
              forall k :: 0 <= k < |calls| ==> calls[k] == SearchCall(Strip(rawQuery), ResolveCount(rawCount).count)
    ensures outcome.RetrievalFailed? <==>
              Strip(rawQuery) != [] && Strip(rawFilename) != [] &&
              forall k :: 0 <= k < MaxRetries ==> Response(responses, k) == []
    ensures !outcome.NoRelevantUrls?
    ensures outcome.Stored? ==> StoresFirstAnswer(outcome, calls, responses, Strip(rawFilename))
  {
    var query := Strip(rawQuery);
    var filename := Strip(rawFilename);
    if query == [] {
      return EmptyQuery, [];
    }
    if filename == [] {
      return EmptyFilename, [];
    }
    var count := ResolveCount(rawCount).count;
    outcome, calls := FetchAndStore(SearchCall(query, count), filename, responses);
  }

  /**
   * The handler once both fields are known to be non-empty: fetch with
   * retries, then deduplicate what the search found and write
   * `<filename>.csv`.
   */
  method FetchAndStore(call: SearchCall, filename: string, responses: seq<seq<Url>>)
    returns (outcome: Outcome, calls: seq<SearchCall>)
    ensures outcome.RetrievalFailed? || outcome.Stored?
    ensures 1 <= |calls| <= MaxRetries && forall k :: 0 <= k < |calls| ==> calls[k] == call
    ensures outcome.RetrievalFailed? <==> forall k :: 0 <= k < MaxRetries ==> Response(responses, k) == []
    ensures outcome.Stored? ==> StoresFirstAnswer(outcome, calls, responses, filename)
  {
    var urls;
    urls, calls := FetchWithRetry(call, responses);
    if urls == [] {
      return RetrievalFailed, calls;
    }
    var filtered := FilterUrls(urls);
    if filtered != [] {
      var file := StoreUrls(filtered, filename + Extension);
      outcome := Stored(filtered, file);
    } else {
      outcome := NoRelevantUrls;
    }
  }

  /**
   * The filename field after the browse dialog returns `chosen`: the last
   * four characters are cut off (all of it when shorter), and a cancelled
   * dialog (empty answer) leaves the field as it was.
   */
  function BrowseFile(chosen: string, entry: string): (field: string)
    ensures chosen == [] ==> field == entry
    ensures chosen != [] ==> |field| == if |chosen| >= 4 then |chosen| - 4 else 0
    ensures chosen != [] ==> field == chosen[..|field|]
  {
    if chosen == [] then entry
    else if |chosen| >= 4 then chosen[..|chosen| - 4]
    else []
  }

  predicate EndsWithCsv(path: string) {
    |path| >= 4 && path[|path| - 4..] == Extension
  }

  /**
   * The export strips the field and appends `.csv`. After browsing to a path
   * ending in `.csv`, it writes to that same path exactly when the field left
   * by the browse step neither starts nor ends with whitespace.
   */
  lemma BrowseThenExport(chosen: string, entry: string)
    requires EndsWithCsv(chosen)
    ensures var field := BrowseFile(chosen, entry);
            Strip(field) + Extension == chosen <==> Trimmed(field)
  {
    var field := BrowseFile(chosen, entry);
    assert chosen == field + Extension;
    StripFixedIffTrimmed(field);
    if Strip(field) + Extension == chosen {
      AppendCancel(Strip(field), field, Extension);
    }
  }

  lemma AppendCancel(a: string, b: string, e: string)
    requires a + e == b + e
    ensures a == b
  {
    assert |a| == |b|;
    assert a == (a + e)[..|a|];
    assert b == (b + e)[..|b|];
  }

  /** Whitespace before the extension of the chosen path is lost on export. */
  lemma BrowseDropsSpace()
    ensures Strip(BrowseFile("report .csv", "")) + Extension == "report.csv"
  {
    var field := BrowseFile("report .csv", "");
    assert field == "report " by {
      assert "report .csv"[..7] == "report ";
    }
    assert "report" + " " == field;
    StripOneTrailingSpace("report");
    assert "report" + Extension == "report.csv";
  }

  lemma StripOneTrailingSpace(t: string)
    requires Trimmed(t)
    ensures Strip(t + " ") == t
  {
    assert AllSpace(" ");
    StripPadded([], t, " ");
    assert [] + t + " " == t + " ";
  }

  /** A chosen path whose extension is not three letters long is mangled on export. */
  lemma BrowseMangles()
    ensures Strip(BrowseFile("report.json", "")) + Extension == "report..csv"
  {
    var field := BrowseFile("report.json", "");
    assert field == "report." by {
      assert "report.json"[..7] == "report.";
    }
    assert Trimmed("report.") by {
      assert "report."[0] == 'r' && "report."[6] == '.';
    }
    StripOfTrimmed("report.");
    assert "report." + Extension == "report..csv";
  }

  lemma StripOfTrimmed(t: string)
    requires Trimmed(t)
    ensures Strip(t) == t
  {
    StripFixedIffTrimmed(t);
  }

  /** The browse step as its comment describes it: only a `.csv` suffix is removed. */
  function BrowseFileCorrected(chosen: string, entry: string): (field: string)
    ensures chosen == [] ==> field == entry
    ensures chosen != [] && EndsWithCsv(chosen) ==> field + Extension == chosen
    ensures chosen != [] && !EndsWithCsv(chosen) ==> field == chosen
  {
    if chosen == [] then entry
    else if EndsWithCsv(chosen) then chosen[..|chosen| - 4]
    else chosen
  }

  /**
   * With the corrected browse step, the export goes to the chosen path, or to
   * the chosen path with `.csv` added, exactly when the field it leaves
   * neither starts nor ends with whitespace.
   */
  lemma BrowseCorrectedKeepsName(chosen: string, entry: string)
    requires chosen != []
    ensures var field := BrowseFileCorrected(chosen, entry);
            var path := Strip(field) + Extension;
            path == chosen || path == chosen + Extension <==> Trimmed(field)
  {
    var field := BrowseFileCorrected(chosen, entry);
    var path := Strip(field) + Extension;
    StripFixedIffTrimmed(field);
    if EndsWithCsv(chosen) {
      assert |path| < |chosen + Extension|;
      if path == chosen {
        AppendCancel(Strip(field), field, Extension);
      }
    } else {
      assert path[|path| - 4..] == Extension;
      if path == chosen + Extension {
        AppendCancel(Strip(field), field, Extension);
      }
    }
  }
}
