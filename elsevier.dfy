/** `extract_from_elsevier` (extract.py:43-68): emails from the `a.auth_mail`
    anchors, names from the `authorName` siblings before each of them, and the
    date cut out of the first `p.volIssue`. */
module Elsevier {
  import opened Strings
  import opened Html
  import opened Rows

  const MailAnchor := TagClass("a", "auth_mail")
  const VolIssue := TagClass("p", "volIssue")
  const NameClass := "authorName"

  /** The email list `[a.attrs['href'].split(':')[1] for a in anchors]`: one
      entry per anchor in the same order, or the error of the first anchor
      whose `href` is missing or has no `:`. */
  function Emails(f: seq<Node>, anchors: seq<Path>): (r: Result<seq<string>>)
    requires forall a :: a in anchors ==> ValidPath(f, a) && NodeAt(f, a).Element?
    ensures r.Ok? <==> forall i :: 0 <= i < |anchors| ==> MailtoAddress(NodeAt(f, anchors[i])).Ok?
    ensures r.Ok? ==> |r.value| == |anchors|
    ensures r.Ok? ==> forall i :: 0 <= i < |anchors| ==>
      r.value[i] == MailtoAddress(NodeAt(f, anchors[i])).value
    ensures r.Err? ==> exists i :: 0 <= i < |anchors| && MailtoAddress(NodeAt(f, anchors[i])) == Err(r.error)
  {
    if anchors == [] then Ok([])
    else
      var first := MailtoAddress(NodeAt(f, anchors[0]));
      if first.Err? then Err(first.error)
      else
        var rest := Emails(f, anchors[1..]);
        assert forall j :: 1 <= j < |anchors| ==> anchors[j] == anchors[1..][j - 1];
        if rest.Err? then Err(rest.error) else Ok([first.value] + rest.value)
  }

  /** The sibling is an element with class `authorName` and non-empty text.
      Text siblings raise `AttributeError` on `.attrs`, which is caught and ignored. */
  predicate IsNameSibling(n: Node) {
    n.Element? && NameClass in n.classes && TextOf(n) != ""
  }

  /** Names found in `sibs`, in the order of `sibs` (no stop at the first one):
      at most one per sibling, and none of them empty. */
  function SiblingNames(f: seq<Node>, sibs: seq<Path>): (r: seq<string>)
    requires forall s :: s in sibs ==> ValidPath(f, s)
    ensures |r| <= |sibs|
    ensures forall k :: 0 <= k < |r| ==> r[k] != ""
  {
    if sibs == [] then []
    else
      var n := NodeAt(f, sibs[|sibs| - 1]);
      SiblingNames(f, sibs[..|sibs| - 1]) + (if IsNameSibling(n) then [TextOf(n)] else [])
  }

  /** The names the scans before each anchor find, anchor after anchor; none
      of them is empty. */
  function AllNames(f: seq<Node>, anchors: seq<Path>): (r: seq<string>)
    requires forall a :: a in anchors ==> ValidPath(f, a)
    ensures forall k :: 0 <= k < |r| ==> r[k] != ""
  {
    if anchors == [] then []
    else
      var a := anchors[|anchors| - 1];
      PreviousSiblingsExact(f, a);
      AllNames(f, anchors[..|anchors| - 1]) + SiblingNames(f, PreviousSiblings(a))
  }

  /** The inner loop of extract.py:53-62: every previous sibling, nearest
      first, with no stop at the first name. */
  method ScanSiblings(f: seq<Node>, sibs: seq<Path>) returns (found: seq<string>)
    requires forall s :: s in sibs ==> ValidPath(f, s)
    ensures found == SiblingNames(f, sibs)
  {
    found := [];
    var j := 0;
    while j < |sibs|
      invariant 0 <= j <= |sibs|
      invariant found == SiblingNames(f, sibs[..j])
    {
      var element := NodeAt(f, sibs[j]);
      if element.Element? && NameClass in element.classes {
        var name := TextOf(element);
        if name != "" {
          found := found + [name];
        }
      }
      assert sibs[..j + 1][..j] == sibs[..j];
      j := j + 1;
    }
    assert sibs[..j] == sibs;
  }

  /** The outer loop of extract.py:51-62: the sibling names of each anchor in turn. */
  method CollectNames(f: seq<Node>, anchors: seq<Path>) returns (names: seq<string>)
    requires forall a :: a in anchors ==> ValidPath(f, a)
    ensures names == AllNames(f, anchors)
  {
    names := [];
    var i := 0;
    while i < |anchors|
      invariant 0 <= i <= |anchors|
      invariant names == AllNames(f, anchors[..i])
    {
      var a := anchors[i];
      PreviousSiblingsExact(f, a);
      var found := ScanSiblings(f, PreviousSiblings(a));
      names := names + found;
      assert anchors[..i + 1][..i] == anchors[..i];
      i := i + 1;
    }
    assert anchors[..i] == anchors;
  }

  /** `find_all('p', 'volIssue')[0].text.split(',')[1].strip()`: only an
      `IndexError` can occur, and the date holds no `,` and neither starts nor
      ends with whitespace. */
  function VolIssueDate(f: seq<Node>): (r: Result<string>)
    ensures r.Err? ==> r.error == IndexError
    ensures r.Ok? ==> ',' !in r.value && (r.value == [] || (!IsSpace(r.value[0]) && !IsSpace(r.value[|r.value| - 1])))
  {
    var ps := Select(f, VolIssue);
    if |ps| == 0 then Err(IndexError)
    else
      var parts := Split(TextAt(f, ps[0]), ',');
      if |parts| < 2 then Err(IndexError)
      else
        SplitPiecesFree(TextAt(f, ps[0]), ',');
        var date := Strip(parts[1]);
        assert ',' !in date by {
          var lo, hi :| 0 <= lo <= hi <= |parts[1]| && date == parts[1][lo..hi];
          assert forall c :: c in date ==> c in parts[1];
        }
        Ok(date)
  }

  /** What `extract_from_elsevier` does with one document: it never skips, a
      row holds at least one field per `a.auth_mail` anchor and one more, and
      a `KeyError` comes from an anchor without `href`. Which fields are the
      emails and the date is stated by `ElsevierRowLayout`. */
  function ElsevierExtraction(doc: Document): (r: Extraction)
    ensures !r.Skip?
    ensures r.Row? ==> |r.fields| >= |Select(doc.soup, MailAnchor)| + 1
    ensures r.Raise? && r.error == KeyError ==>
      exists p :: ValidPath(doc.soup, p) && Matches(NodeAt(doc.soup, p), MailAnchor) && "href" !in NodeAt(doc.soup, p).attrs
  {
    var f := doc.soup;
    var anchors := Select(f, MailAnchor);
    match Emails(f, anchors)
    case Err(e) => Raise(e)
    case Ok(emails) =>
      match VolIssueDate(f)
      case Err(e) => Raise(e)
      case Ok(date) => Row(AllNames(f, anchors) + emails + [date])
  }

  /** `extract_from_elsevier(html, csvfile)`. */
  method ExtractFromElsevier(doc: Document, sink: RowSink) returns (e: Extraction)
    modifies sink
    ensures e == ElsevierExtraction(doc)
    ensures sink.rows == old(sink.rows) + Written(e)
  {
    var f := doc.soup;
    var anchors := Select(f, MailAnchor);
    var emails := Emails(f, anchors);
    if emails.Err? {
      return Raise(emails.error);
    }
    var names := CollectNames(f, anchors);
    var date := VolIssueDate(f);
    if date.Err? {
      return Raise(date.error);
    }
    var row := names + emails.value + [date.value];
    sink.WriteRow(row);
    e := Row(row);
  }

  // ----- Properties -----

  /** Every `a.auth_mail` anchor of the document has an `href` containing `:`. */
  ghost predicate EveryAnchorHasAddress(f: seq<Node>) {
    forall a :: ValidPath(f, a) && Matches(NodeAt(f, a), MailAnchor) ==>
      "href" in NodeAt(f, a).attrs && ':' in NodeAt(f, a).attrs["href"]
  }

  /** The first `p.volIssue` of the document exists and its text has a `,`. */
  ghost predicate HasVolIssueDate(f: seq<Node>) {
    exists p :: IsFirstMatch(f, VolIssue, p) && ',' in TextAt(f, p)
  }

  lemma EmailsSucceedIff(f: seq<Node>)
    ensures Emails(f, Select(f, MailAnchor)).Ok? <==> EveryAnchorHasAddress(f)
  {
    var anchors := Select(f, MailAnchor);
    if Emails(f, anchors).Ok? {
      forall a | ValidPath(f, a) && Matches(NodeAt(f, a), MailAnchor)
        ensures "href" in NodeAt(f, a).attrs && ':' in NodeAt(f, a).attrs["href"]
      {
        var i :| 0 <= i < |anchors| && anchors[i] == a;
      }
    }
  }

  lemma VolIssueDateSucceedsIff(f: seq<Node>)
    ensures VolIssueDate(f).Ok? <==> HasVolIssueDate(f)
  {
    SelectFirst(f, VolIssue);
    if HasVolIssueDate(f) {
      var p :| IsFirstMatch(f, VolIssue, p) && ',' in TextAt(f, p);
      FirstMatchUnique(f, VolIssue, p, Select(f, VolIssue)[0]);
    }
  }

  /** The strategy never skips a page. It writes a row exactly when every
      `a.auth_mail` anchor has an `href` containing `:` and the first
      `p.volIssue` exists with a `,` in its text; otherwise it raises. */
  lemma ElsevierWritesIff(doc: Document)
    ensures !ElsevierExtraction(doc).Skip?
    ensures ElsevierExtraction(doc).Row? <==>
      EveryAnchorHasAddress(doc.soup) && HasVolIssueDate(doc.soup)
  {
    EmailsSucceedIff(doc.soup);
    VolIssueDateSucceedsIff(doc.soup);
  }

  /** A written row is the names, then the emails, then the date. */
  lemma ElsevierRowParts(doc: Document)
    requires ElsevierExtraction(doc).Row?
    ensures var f := doc.soup;
      var anchors := Select(f, MailAnchor);
      Emails(f, anchors).Ok? && VolIssueDate(f).Ok? &&
      ElsevierExtraction(doc).fields == AllNames(f, anchors) + Emails(f, anchors).value + [VolIssueDate(f).value]
  {
  }

  /** A written row starts with the names, followed by one email per
      `a.auth_mail` anchor in document order: the address cut out of its `href`. */
  lemma ElsevierRowLayout(doc: Document)
    requires ElsevierExtraction(doc).Row?
    ensures var f, row := doc.soup, ElsevierExtraction(doc).fields;
      var anchors := Select(f, MailAnchor);
      var names := AllNames(f, anchors);
      |row| == |names| + |anchors| + 1 &&
      row[..|names|] == names &&
      (forall i :: 0 <= i < |anchors| ==>
        MailtoAddress(NodeAt(f, anchors[i])).Ok? &&
        row[|names| + i] == MailtoAddress(NodeAt(f, anchors[i])).value) &&
      VolIssueDate(f).Ok? && row[|row| - 1] == VolIssueDate(f).value
  {
    ElsevierRowParts(doc);
    var f := doc.soup;
    var anchors := Select(f, MailAnchor);
    var names := AllNames(f, anchors);
    var emails := Emails(f, anchors).value;
    RowParts(names, emails, VolIssueDate(f).value);
  }

  /** The last field of a written row is the stripped second comma field of
      the text of the first `p.volIssue`. */
  lemma ElsevierRowDate(doc: Document)
    requires ElsevierExtraction(doc).Row?
    ensures var f, row := doc.soup, ElsevierExtraction(doc).fields;
      |row| > 0 &&
      exists p :: IsFirstMatch(f, VolIssue, p) && ',' in TextAt(f, p) &&
        row[|row| - 1] == Strip(Split(TextAt(f, p), ',')[1])
  {
    var f := doc.soup;
    SelectFirst(f, VolIssue);
    assert IsFirstMatch(f, VolIssue, Select(f, VolIssue)[0]);
  }

  /** The row of a page whose anchors, emails and date are known. */
  lemma ElsevierRowFrom(doc: Document, anchors: seq<Path>, emails: seq<string>, date: string)
    requires Select(doc.soup, MailAnchor) == anchors
    requires Emails(doc.soup, anchors) == Ok(emails) && VolIssueDate(doc.soup) == Ok(date)
    ensures ElsevierExtraction(doc) == Row(AllNames(doc.soup, anchors) + emails + [date])
  {
  }
}
