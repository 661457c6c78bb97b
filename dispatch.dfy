/** The per-file step of `main` (extract.py:161-169): files are taken in the
    order the directory walk yields them, those with an extension starting
    with `.ht` (or every file with `--all`) are classified and handed to their
    strategy, and all rows go to one CSV sink. An exception ends the run. */
module Dispatch {
  import opened Strings
  import opened Html
  import opened Rows
  import opened Classify
  import Elsevier
  import Wiley
  import Springer

  /** What processing one page does: the classifier picks the strategy, and
      the strategy's outcome is the page's outcome. A page handed to Wiley
      never raises, a page handed to Elsevier is never skipped, and only an
      Elsevier page can raise `KeyError`. */
  function Extract(doc: Document): (r: Extraction)
    ensures GuessType(doc.soup) == FromWiley ==> !r.Raise?
    ensures GuessType(doc.soup) == FromElsevier ==> !r.Skip?
    ensures r.Raise? && r.error == KeyError ==> GuessType(doc.soup) == FromElsevier
  {
    Elsevier.ElsevierWritesIff(doc);
    match GuessType(doc.soup)
    case FromElsevier => Elsevier.ElsevierExtraction(doc)
    case FromSpringer => Springer.SpringerExtraction(doc)
    case FromWiley => Wiley.WileyExtraction(doc)
  }

  /** extract.py:166-169. The `if extract_fn` guard always holds, since the
      classifier returns a strategy for every page. */
  method ProcessFile(doc: Document, sink: RowSink) returns (e: Extraction)
    modifies sink
    ensures e == Extract(doc)
    ensures sink.rows == old(sink.rows) + Written(e)
  {
    var strategy := GuessType(doc.soup);
    match strategy {
      case FromElsevier => e := Elsevier.ExtractFromElsevier(doc, sink);
      case FromSpringer => e := Springer.ExtractFromSpringer(doc, sink);
      case FromWiley => e := Wiley.ExtractFromWiley(doc, sink);
    }
  }

  /** A file found by the walk: its extension and its content. */
  datatype File = File(extension: string, doc: Document)

  /** extract.py:163: the extension starts with `.ht`, or `--all` was given. */
  predicate Selected(file: File, all: bool) {
    StartsWith(file.extension, ".ht") || all
  }

  datatype Outcome = Completed | Aborted(error: Error)

  /** The rows written and how the run ended. */
  datatype Run = Run(rows: seq<seq<string>>, outcome: Outcome)

  /** The run over `files`: once a page raises, later files are not read.
      Each file adds at most one row, and a run that aborts was stopped by a
      selected file whose page raised that error. */
  function RunFiles(files: seq<File>, all: bool): (r: Run)
    ensures |r.rows| <= |files|
    ensures r.outcome.Aborted? ==>
      exists k :: (0 <= k < |files| && Selected(files[k], all) &&
        Extract(files[k].doc) == Raise(r.outcome.error))
  {
    if files == [] then Run([], Completed)
    else
      var init := files[..|files| - 1];
      var before := RunFiles(init, all);
      var file := files[|files| - 1];
      assert forall k :: 0 <= k < |init| ==> init[k] == files[k];
      if before.outcome.Aborted? || !Selected(file, all) then before
      else
        var e := Extract(file.doc);
        Run(before.rows + Written(e), if e.Raise? then Aborted(e.error) else Completed)
  }

  /** One more file, after a run that has not aborted. */
  lemma RunStep(files: seq<File>, all: bool, i: nat)
    requires i < |files| && RunFiles(files[..i], all).outcome == Completed
    ensures var before, file := RunFiles(files[..i], all), files[i];
      var e := Extract(file.doc);
      RunFiles(files[..i + 1], all) ==
        if !Selected(file, all) then before
        else Run(before.rows + Written(e), if e.Raise? then Aborted(e.error) else Completed)
  {
    assert files[..i + 1][..i] == files[..i];
  }

  /** One pass of the file loop (extract.py:162-169), after a run that has not
      aborted: the file is handed on only when selected. `base` is what the
      output held before the run. */
  method ProcessNext(files: seq<File>, all: bool, i: nat, ghost base: seq<seq<string>>, sink: RowSink)
    returns (outcome: Outcome)
    modifies sink
    requires i < |files| && RunFiles(files[..i], all).outcome == Completed
    requires sink.rows == base + RunFiles(files[..i], all).rows
    ensures outcome == RunFiles(files[..i + 1], all).outcome
    ensures sink.rows == base + RunFiles(files[..i + 1], all).rows
  {
    RunStep(files, all, i);
    var file := files[i];
    outcome := Completed;
    if StartsWith(file.extension, ".ht") || all {
      var e := ProcessFile(file.doc, sink);
      if e.Raise? {
        outcome := Aborted(e.error);
      }
    }
  }

  /** The loops of extract.py:160-169 over the files in walk order. */
  method ProcessFiles(files: seq<File>, all: bool, sink: RowSink) returns (outcome: Outcome)
    modifies sink
    ensures outcome == RunFiles(files, all).outcome
    ensures sink.rows == old(sink.rows) + RunFiles(files, all).rows
  {
    var i := 0;
    while i < |files|
      invariant 0 <= i <= |files|
      invariant RunFiles(files[..i], all).outcome == Completed
      invariant sink.rows == old(sink.rows) + RunFiles(files[..i], all).rows
    {
      var step := ProcessNext(files, all, i, old(sink.rows), sink);
      if step.Aborted? {
        RunAbortedStays(files, all, i + 1);
        return step;
      }
      i := i + 1;
    }
    assert files[..i] == files;
    outcome := Completed;
  }

  // ----- Properties -----

  /** Once a run has aborted, the files after the failing one change nothing. */
  lemma {:induction false} RunAbortedStays(files: seq<File>, all: bool, n: nat)
    requires n <= |files| && RunFiles(files[..n], all).outcome.Aborted?
    ensures RunFiles(files, all) == RunFiles(files[..n], all)
    decreases |files|
  {
    if n < |files| {
      var init := files[..|files| - 1];
      assert init[..n] == files[..n];
      RunAbortedStays(init, all, n);
    } else {
      assert files[..n] == files;
    }
  }

  /** Files that are not selected add no row and cannot abort the run. */
  lemma {:induction false} RunRowCount(files: seq<File>, all: bool)
    ensures (forall k :: 0 <= k < |files| ==> !Selected(files[k], all)) ==>
      RunFiles(files, all) == Run([], Completed)
    decreases |files|
  {
    if files != [] {
      var init := files[..|files| - 1];
      RunRowCount(init, all);
      assert forall k :: 0 <= k < |init| ==> init[k] == files[k];
    }
  }

  /** A page adds no row exactly when it is a Springer summary page (one with
      a `body.articles`) or a Wiley placeholder (empty, or containing "Page has
      moved"); a Springer page can only raise `IndexError`. */
  lemma ExtractOutcomes(doc: Document)
    ensures GuessType(doc.soup) == FromSpringer && HasMatch(doc.soup, Springer.SummaryBody) ==>
      Written(Extract(doc)) == []
    ensures GuessType(doc.soup) == FromWiley && (doc.raw == [] || exists i :: OccursAt(doc.raw, Wiley.MovedMarker, i)) ==>
      Written(Extract(doc)) == []
    ensures Extract(doc).Skip? <==>
      (GuessType(doc.soup) == FromSpringer && HasMatch(doc.soup, Springer.SummaryBody)) ||
      (GuessType(doc.soup) == FromWiley && (doc.raw == [] || exists i :: OccursAt(doc.raw, Wiley.MovedMarker, i)))
    ensures GuessType(doc.soup) == FromSpringer && Extract(doc).Raise? ==> Extract(doc).error == IndexError
  {
    Springer.SpringerWritesIff(doc);
    Elsevier.ElsevierWritesIff(doc);
  }
}
