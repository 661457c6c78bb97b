/** `extract_from_wiley` (extract.py:71-103): the tolerant strategy. Every
    lookup that finds nothing contributes an empty field list instead of
    raising. */
module Wiley {
  import opened Strings
  import opened Html
  import opened Rows

  const MovedMarker := "Page has moved"
  const FirstPublished := AttrEquals("time", "id", "first-published-date")
  const AuthorAttr := "data-author-name"

  /** The node at `p` is an element carrying a `data-author-name` attribute. */
  predicate HasAuthorAttr(f: seq<Node>, p: Path) {
    ValidPath(f, p) && NodeAt(f, p).Element? && AuthorAttr in NodeAt(f, p).attrs
  }

  /** The `data-author-name` of the first of `ancestors` that has one, as a
      list of at most one name. */
  function NearestAuthor(f: seq<Node>, ancestors: seq<Path>): (r: seq<string>)
    ensures |r| <= 1
    ensures r == [] <==> forall k :: 0 <= k < |ancestors| ==> !HasAuthorAttr(f, ancestors[k])
    ensures r != [] ==> exists k :: (0 <= k < |ancestors| && HasAuthorAttr(f, ancestors[k]) &&
      r[0] == NodeAt(f, ancestors[k]).attrs[AuthorAttr] &&
      forall j :: 0 <= j < k ==> !HasAuthorAttr(f, ancestors[j]))
  {
    if ancestors == [] then []
    else if HasAuthorAttr(f, ancestors[0]) then [NodeAt(f, ancestors[0]).attrs[AuthorAttr]]
    else
      var r := NearestAuthor(f, ancestors[1..]);
      assert forall k :: 1 <= k < |ancestors| ==> ancestors[k] == ancestors[1..][k - 1];
      r
  }

  /** The ancestor walk of extract.py:89-92: go outwards from the anchor and
      stop at the first ancestor with a `data-author-name` attribute. The
      document root, whose `attrs` is empty, never matches and is not listed. */
  method FindAuthor(f: seq<Node>, anchor: Path) returns (author: seq<string>)
    requires ValidPath(f, anchor)
    ensures author == NearestAuthor(f, Parents(anchor))
  {
    ParentsExact(f, anchor);
    var ancestors := Parents(anchor);
    author := [];
    var k := 0;
    while k < |ancestors|
      invariant 0 <= k <= |ancestors|
      invariant NearestAuthor(f, ancestors[k..]) == NearestAuthor(f, ancestors)
    {
      var parent := NodeAt(f, ancestors[k]);
      if parent.Element? && AuthorAttr in parent.attrs {
        author := [parent.attrs[AuthorAttr]];
        break;
      }
      assert ancestors[k..][1..] == ancestors[k + 1..];
      k := k + 1;
    }
  }

  /** `[select(sel)[0].text]`, with the `IndexError` of a query that finds
      nothing turned into `[]`: the text of the first match in document
      order, when there is one. */
  function FirstText(f: seq<Node>, sel: Selector): (r: seq<string>)
    ensures r == [] <==> !HasMatch(f, sel)
    ensures r != [] ==> exists p :: IsFirstMatch(f, sel, p) && r == [TextAt(f, p)]
  {
    SelectFirst(f, sel);
    var ps := Select(f, sel);
    if |ps| > 0 then [TextAt(f, ps[0])] else []
  }

  /** The author list: the nearest named ancestor of the first `mailto` anchor,
      so at most one name, and none on a page without a `mailto` anchor. */
  function AuthorOf(f: seq<Node>): (r: seq<string>)
    ensures |r| <= 1
    ensures r != [] ==> HasMatch(f, MailtoAnchor)
  {
    var anchors := Select(f, MailtoAnchor);
    if |anchors| == 0 then []
    else
      assert anchors[0] in anchors;
      NearestAuthor(f, Parents(anchors[0]))
  }

  /** An empty file, or one in which "Page has moved" occurs. */
  function IsPlaceholder(raw: string): (b: bool)
    ensures b <==> raw == [] || exists i :: OccursAt(raw, MovedMarker, i)
  {
    ContainsIffOccurs(raw, MovedMarker);
    raw == [] || Contains(raw, MovedMarker)
  }

  /** What `extract_from_wiley` does with one document: it never raises, and
      a written row has at most three fields. */
  function WileyExtraction(doc: Document): (r: Extraction)
    ensures !r.Raise?
    ensures r.Skip? <==> IsPlaceholder(doc.raw)
    ensures r.Row? ==> |r.fields| <= 3
  {
    if IsPlaceholder(doc.raw) then Skip
    else
      var f := doc.soup;
      Row(AuthorOf(f) + FirstText(f, MailtoAnchor) + FirstText(f, FirstPublished))
  }

  /** `extract_from_wiley(html, csvfile)`. */
  method ExtractFromWiley(doc: Document, sink: RowSink) returns (e: Extraction)
    modifies sink
    ensures e == WileyExtraction(doc)
    ensures sink.rows == old(sink.rows) + Written(e)
  {
    if doc.raw == [] || Contains(doc.raw, MovedMarker) {
      return Skip;
    }
    var f := doc.soup;
    var email: seq<string> := [];
    var anchors := Select(f, MailtoAnchor);
    if |anchors| > 0 {
      email := [TextAt(f, anchors[0])];
    }
    var author: seq<string> := [];
    if |anchors| > 0 {
      author := FindAuthor(f, anchors[0]);
    }
    var date: seq<string> := [];
    var times := Select(f, FirstPublished);
    if |times| > 0 {
      date := [TextAt(f, times[0])];
    }
    var row := author + email + date;
    sink.WriteRow(row);
    e := Row(row);
  }

  // ----- Properties -----

  /** The strategy never raises; it skips exactly the empty files and those
      in which "Page has moved" occurs, and writes a row for every other one. */
  lemma WileyNeverRaises(doc: Document)
    ensures !WileyExtraction(doc).Raise?
    ensures WileyExtraction(doc).Skip? <==>
      doc.raw == [] || exists i :: OccursAt(doc.raw, MovedMarker, i)
  {
    ContainsIffOccurs(doc.raw, MovedMarker);
  }

  /** A written row is at most one author, then at most one email, then at
      most one date. The email is the text of the first `mailto` anchor in
      document order and is there exactly when such an anchor exists; the
      date likewise for `time#first-published-date`; an author needs an email. */
  lemma WileyRowShape(doc: Document)
    requires WileyExtraction(doc).Row?
    ensures var f, row := doc.soup, WileyExtraction(doc).fields;
      var author, email, date := AuthorOf(f), FirstText(f, MailtoAnchor), FirstText(f, FirstPublished);
      row == author + email + date && |row| <= 3 &&
      |author| <= 1 && |email| <= 1 && |date| <= 1 &&
      (author != [] ==> email != []) &&
      (email != [] <==> HasMatch(f, MailtoAnchor)) &&
      (date != [] <==> HasMatch(f, FirstPublished)) &&
      (email != [] ==> exists p :: IsFirstMatch(f, MailtoAnchor, p) && email == [TextAt(f, p)]) &&
      (date != [] ==> exists p :: IsFirstMatch(f, FirstPublished, p) && date == [TextAt(f, p)])
  {
    var f := doc.soup;
    SelectFirst(f, MailtoAnchor);
    SelectFirst(f, FirstPublished);
  }

  /** The author is the `data-author-name` of the innermost ancestor of the
      first `mailto` anchor that has one; it is absent when no ancestor has one. */
  lemma WileyAuthorIsInnermost(doc: Document, anchor: Path)
    requires IsFirstMatch(doc.soup, MailtoAnchor, anchor)
    ensures var f, ancestors := doc.soup, Parents(anchor);
      (forall k :: 0 <= k < |ancestors| ==> ValidPath(f, ancestors[k])) &&
      (AuthorOf(f) == [] <==> forall k :: 0 <= k < |ancestors| ==> !HasAuthorAttr(f, ancestors[k])) &&
      (AuthorOf(f) != [] ==> exists k :: (0 <= k < |ancestors| && HasAuthorAttr(f, ancestors[k]) &&
         AuthorOf(f) == [NodeAt(f, ancestors[k]).attrs[AuthorAttr]] &&
         forall j :: 0 <= j < k ==> !HasAuthorAttr(f, ancestors[j])))
  {
    var f := doc.soup;
    SelectFirst(f, MailtoAnchor);
    FirstMatchUnique(f, MailtoAnchor, anchor, Select(f, MailtoAnchor)[0]);
    ParentsExact(f, anchor);
  }
}
