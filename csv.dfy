/**
 * The rows both scrapers hand to `csv.writer`, one list of cells per
 * `writerow` call. Quoting, escaping and the file write itself are not part
 * of the model; reading a row sequence back is, so that each layout has an
 * inverse to be checked against.
 */
module Csv {

  import opened Text

  datatype Cell = Int(n: int) | Str(s: string)

  type Row = seq<Cell>

  /** A written file: the path it was opened at and the rows written, in order. */
  datatype CsvFile = CsvFile(path: string, rows: seq<Row>)

  const PlainHeader: Row := [Str("URL")]
  const NumberedHeader: Row := [Str("No."), Str("URL")]

  /** The GUI layout: a `URL` header, then one single-cell row per URL. */
  function PlainRows(urls: seq<string>): seq<Row> {
    [PlainHeader] + seq(|urls|, i requires 0 <= i < |urls| => [Str(urls[i])])
  }

  /** The console layout: a `No.`, `URL` header, then `[k, url]` rows numbered from 1. */
  function NumberedRows(urls: seq<string>): seq<Row> {
    [NumberedHeader] + seq(|urls|, i requires 0 <= i < |urls| => [Int(i + 1), Str(urls[i])])
  }

  /** The URLs in a file of the plain layout, or `None` if the rows are not of that layout. */
  function ReadPlain(rows: seq<Row>): Option<seq<string>> {
    if |rows| >= 1 && rows[0] == PlainHeader &&
       forall k :: 1 <= k < |rows| ==> |rows[k]| == 1 && rows[k][0].Str?
    then
      Some(seq(|rows| - 1, i requires 0 <= i < |rows| - 1 => rows[i + 1][0].s))
    else
      None
  }

  /** The URLs in a file of the numbered layout, or `None` if the rows are not of that layout. */
  function ReadNumbered(rows: seq<Row>): Option<seq<string>> {
    if |rows| >= 1 && rows[0] == NumberedHeader &&
       forall k :: 1 <= k < |rows| ==> |rows[k]| == 2 && rows[k][0] == Int(k) && rows[k][1].Str?
    then
      Some(seq(|rows| - 1, i requires 0 <= i < |rows| - 1 => rows[i + 1][1].s))
    else
      None
  }

  /** Reading the plain layout back gives the URLs that were written, in order. */
  lemma PlainRoundTrip(urls: seq<string>)
    ensures ReadPlain(PlainRows(urls)) == Some(urls)
  {
    var rows := PlainRows(urls);
    assert forall k :: 1 <= k < |rows| ==> rows[k] == [Str(urls[k - 1])];
    assert ReadPlain(rows).value == urls;
  }

  /** Reading the numbered layout back gives the URLs that were written, in order. */
  lemma NumberedRoundTrip(urls: seq<string>)
    ensures ReadNumbered(NumberedRows(urls)) == Some(urls)
  {
    var rows := NumberedRows(urls);
    assert forall k :: 1 <= k < |rows| ==> rows[k] == [Int(k), Str(urls[k - 1])];
    assert ReadNumbered(rows).value == urls;
  }
}
