/** What a strategy is given and what it produces: a document (its raw text and
    its parsed tree), the Python exceptions the strategies can raise, the
    outcome of one extraction, and the CSV writer they hand finished rows to. */
module Rows {
  import opened Strings
  import opened Html

  /** One input file: the text read from disk and the tree the HTML parser
      builds from it (the parser itself is not modelled). */
  datatype Document = Document(raw: string, soup: seq<Node>)

  /** `IndexError` from `[0]` / `[1]` on a too-short list, `KeyError` from a
      missing attribute. */
  datatype Error = IndexError | KeyError

  datatype Result<T> = Ok(value: T) | Err(error: Error)

  /** What one call of a strategy does: write one row, return without writing
      (a skipped page), or raise. */
  datatype Extraction = Row(fields: seq<string>) | Skip | Raise(error: Error)

  /** The rows an extraction adds to the output: one for `Row`, none otherwise. */
  function Written(e: Extraction): seq<seq<string>> {
    if e.Row? then [e.fields] else []
  }

  /** Where the parts of a row `names + emails + [date]` sit. */
  lemma RowParts(names: seq<string>, emails: seq<string>, date: string)
    ensures var row := names + emails + [date];
      |row| == |names| + |emails| + 1 &&
      row[..|names|] == names && row[|names|..|row| - 1] == emails && row[|row| - 1] == date &&
      forall i :: 0 <= i < |emails| ==> row[|names| + i] == emails[i]
  {
    var row := names + emails + [date];
    assert row[..|names|] == names;
    assert row[|names|..|row| - 1] == emails;
  }

  /** `attrs['href'].split(':')[1]` of a `mailto:` anchor: `KeyError` without
      an `href`, `IndexError` when the `href` has no `:`. */
  function MailtoAddress(anchor: Node): (r: Result<string>)
    requires anchor.Element?
    ensures r.Err? <==> "href" !in anchor.attrs || ':' !in anchor.attrs["href"]
    ensures r.Err? ==> r.error == (if "href" in anchor.attrs then IndexError else KeyError)
  {
    if "href" !in anchor.attrs then Err(KeyError)
    else
      var parts := Split(anchor.attrs["href"], ':');
      if |parts| < 2 then Err(IndexError) else Ok(parts[1])
  }

  /** The address taken is the text between the first `:` of the link target
      and the next `:` (or the end): a trailing `?subject=a:b` is cut at its `:`. */
  lemma MailtoAddressIsSecondField(anchor: Node)
    requires anchor.Element? && MailtoAddress(anchor).Ok?
    ensures var href, r := anchor.attrs["href"], MailtoAddress(anchor).value;
      ':' !in r &&
      exists k :: 0 <= k < |href| && href[k] == ':' && ':' !in href[..k] &&
        StartsWith(href[k + 1..], r) &&
        (k + 1 + |r| == |href| || href[k + 1 + |r|] == ':')
  {
    SecondField(anchor.attrs["href"], ':');
  }

  /** The CSV writer: each `writerow` call adds one record to the output. */
  class RowSink {
    var rows: seq<seq<string>>

    constructor ()
      ensures rows == []
    {
      rows := [];
    }

    method WriteRow(row: seq<string>)
      modifies this
      ensures rows == old(rows) + [row]
    {
      rows := rows + [row];
    }
  }
}
