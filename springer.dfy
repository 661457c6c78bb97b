/** `extract_from_springer` (extract.py:106-140): summary pages are skipped;
    authors come from the `li[itemprop="author"]` list when there is one
    (layout A) and otherwise from flat `mailto` anchors and their `AuthorName`
    siblings (layout B); the date from the first `time` element, or else from
    the first `p.HistoryOnlineDate`. */
module Springer {
  import opened Strings
  import opened Html
  import opened Rows

  const SummaryBody := TagClass("body", "articles")
  const AuthorItem := AttrEquals("li", "itemprop", "author")
  const AnyTime := TagOnly("time")
  const HistoryDate := TagClass("p", "HistoryOnlineDate")
  const NameClass := "AuthorName"

  /** Names and emails in the order they were appended. */
  datatype Authors = Authors(names: seq<string>, emails: seq<string>)

  // ----- Layout A: li[itemprop="author"] -----

  /** The `mailto` anchors inside an author item (the item itself excluded). */
  function ItemMails(item: Node): seq<Path>
    requires item.Element?
  {
    Select(item.children, MailtoAnchor)
  }

  predicate HasMail(item: Node) {
    item.Element? && |ItemMails(item)| > 0
  }

  /** The `href` of the first `mailto` anchor of an item that has one. */
  function FirstHref(item: Node): string
    requires HasMail(item)
  {
    var mails := ItemMails(item);
    assert mails[0] in mails;
    NodeAt(item.children, mails[0]).attrs["href"]
  }

  /** One pass of the loop at extract.py:119-123: nothing for an item without a
      `mailto` anchor, otherwise one name and one email; a failure is always
      an `IndexError`. */
  function ItemEntry(item: Node): (r: Result<Authors>)
    requires item.Element?
    ensures r.Err? ==> r.error == IndexError
    ensures r.Ok? ==> |r.value.names| == |r.value.emails| == (if HasMail(item) then 1 else 0)
  {
    var mails := ItemMails(item);
    if |mails| == 0 then Ok(Authors([], []))
    else
      assert mails[0] in mails;
      var email := MailtoAddress(NodeAt(item.children, mails[0]));
      if email.Err? then Err(email.error)
      else
        var lines := Split(TextOf(item), '\n');
        if |lines| < 2 then Err(IndexError) else Ok(Authors([lines[1]], [email.value]))
  }

  /** An item holding a `mailto` anchor gets through its pass exactly when
      the first anchor's `href` has a `:` and the item's text a line break;
      its name is then line 1 of the text and its email the second `:` field
      of the `href`. */
  lemma ItemEntryMeaning(item: Node)
    requires item.Element?
    ensures ItemEntry(item).Ok? <==> !HasMail(item) || (':' in FirstHref(item) && '\n' in TextOf(item))
    ensures ItemEntry(item).Ok? && HasMail(item) ==>
      ItemEntry(item).value == Authors([Split(TextOf(item), '\n')[1]], [Split(FirstHref(item), ':')[1]])
  {
  }

  /** Every item of `items` gets through its pass of the loop. */
  predicate EntriesOk(f: seq<Node>, items: seq<Path>)
    requires forall i :: i in items ==> ValidPath(f, i) && NodeAt(f, i).Element?
  {
    forall k :: 0 <= k < |items| ==> ItemEntry(NodeAt(f, items[k])).Ok?
  }

  /** The entries of `items` appended one after the other. */
  function Gathered(f: seq<Node>, items: seq<Path>): Authors
    requires forall i :: i in items ==> ValidPath(f, i) && NodeAt(f, i).Element?
    requires EntriesOk(f, items)
  {
    if items == [] then Authors([], [])
    else
      var init := items[..|items| - 1];
      assert forall k :: 0 <= k < |init| ==> init[k] == items[k];
      var acc := Gathered(f, init);
      var one := ItemEntry(NodeAt(f, items[|items| - 1])).value;
      Authors(acc.names + one.names, acc.emails + one.emails)
  }

  /** The whole of layout A: `IndexError` as soon as one item fails;
      otherwise as many names as emails, at most one pair per item. */
  function LayoutA(f: seq<Node>, items: seq<Path>): (r: Result<Authors>)
    requires forall i :: i in items ==> ValidPath(f, i) && NodeAt(f, i).Element?
    ensures r.Err? ==> r.error == IndexError
    ensures r.Ok? ==> |r.value.names| == |r.value.emails| <= |items|
  {
    if EntriesOk(f, items) then
      GatheredPaired(f, items);
      Ok(Gathered(f, items))
    else Err(IndexError)
  }

  /** Positions, among `items`, of the items that hold a `mailto` anchor. */
  function MailItems(f: seq<Node>, items: seq<Path>): (r: seq<nat>)
    requires forall i :: i in items ==> ValidPath(f, i)
    ensures |r| <= |items|
    ensures forall k :: 0 <= k < |r| ==> r[k] < |items|
    ensures forall j {:trigger j in r} :: 0 <= j < |items| ==> (j in r <==> HasMail(NodeAt(f, items[j])))
    ensures forall a, b :: 0 <= a < b < |r| ==> r[a] < r[b]
  {
    if items == [] then []
    else
      var init := items[..|items| - 1];
      var rest := MailItems(f, init);
      assert forall j :: 0 <= j < |init| ==> init[j] == items[j];
      if HasMail(NodeAt(f, items[|items| - 1])) then rest + [|items| - 1] else rest
  }

  /** `name` and `email` are the entry of an item that holds a `mailto` anchor. */
  predicate PairedEntry(item: Node, name: string, email: string) {
    HasMail(item) && ItemEntry(item).Ok? &&
    name == ItemEntry(item).value.names[0] && email == ItemEntry(item).value.emails[0]
  }

  /** Layout A pairs names with emails: entry `k` of both lists comes from the
      `k`-th item that holds a `mailto` anchor: its anchor's address and
      line 1 of its text. */
  lemma {:induction false} GatheredPaired(f: seq<Node>, items: seq<Path>)
    requires forall i :: i in items ==> ValidPath(f, i) && NodeAt(f, i).Element?
    requires EntriesOk(f, items)
    ensures var a, idx := Gathered(f, items), MailItems(f, items);
      |a.names| == |a.emails| == |idx| &&
      forall k :: 0 <= k < |idx| ==> PairedEntry(NodeAt(f, items[idx[k]]), a.names[k], a.emails[k])
  {
    GatheredLength(f, items);
    forall k | 0 <= k < |MailItems(f, items)|
      ensures PairedEntry(NodeAt(f, items[MailItems(f, items)[k]]), Gathered(f, items).names[k], Gathered(f, items).emails[k])
    {
      GatheredPairedAt(f, items, k);
    }
  }

  /** The gathered lists have one entry per item that holds a `mailto` anchor. */
  lemma {:induction false} GatheredLength(f: seq<Node>, items: seq<Path>)
    requires forall i :: i in items ==> ValidPath(f, i) && NodeAt(f, i).Element?
    requires EntriesOk(f, items)
    ensures var a := Gathered(f, items);
      |a.names| == |a.emails| == |MailItems(f, items)|
    decreases |items|
  {
    if items != [] {
      var init := items[..|items| - 1];
      assert forall i :: i in init ==> i in items;
      GatheredLast(f, items);
      MailItemsLast(f, items);
      GatheredLength(f, init);
    }
  }

  /** Entry `k` of the gathered lists is the entry of the `k`-th item that
      holds a `mailto` anchor. */
  lemma {:induction false} GatheredPairedAt(f: seq<Node>, items: seq<Path>, k: nat)
    requires forall i :: i in items ==> ValidPath(f, i) && NodeAt(f, i).Element?
    requires EntriesOk(f, items)
    requires k < |MailItems(f, items)|
    ensures var a, idx := Gathered(f, items), MailItems(f, items);
      |a.names| == |a.emails| == |idx| &&
      PairedEntry(NodeAt(f, items[idx[k]]), a.names[k], a.emails[k])
    decreases |items|
  {
    GatheredLength(f, items);
    var init := items[..|items| - 1];
    assert forall i :: i in init ==> i in items;
    GatheredLast(f, items);
    MailItemsLast(f, items);
    GatheredLength(f, init);
    var a, acc := Gathered(f, items), Gathered(f, init);
    var idx, idx0 := MailItems(f, items), MailItems(f, init);
    var last := NodeAt(f, items[|items| - 1]);
    var one := ItemEntry(last).value;
    if k < |idx0| {
      GatheredPairedAt(f, init, k);
      assert idx[k] == idx0[k] && items[idx0[k]] == init[idx0[k]];
      assert a.names[k] == acc.names[k] && a.emails[k] == acc.emails[k];
    } else {
      assert HasMail(last) && idx[k] == |items| - 1;
      assert a.names[k] == one.names[0] && a.emails[k] == one.emails[0];
    }
  }

  lemma GatheredLast(f: seq<Node>, items: seq<Path>)
    requires forall i :: i in items ==> ValidPath(f, i) && NodeAt(f, i).Element?
    requires items != [] && EntriesOk(f, items)
    ensures var init := items[..|items| - 1];
      EntriesOk(f, init) &&
      var acc, one := Gathered(f, init), ItemEntry(NodeAt(f, items[|items| - 1])).value;
      Gathered(f, items) == Authors(acc.names + one.names, acc.emails + one.emails)
  {
    var init := items[..|items| - 1];
    assert forall k :: 0 <= k < |init| ==> init[k] == items[k];
  }

  lemma MailItemsLast(f: seq<Node>, items: seq<Path>)
    requires forall i :: i in items ==> ValidPath(f, i)
    requires items != []
    ensures var init, last := items[..|items| - 1], NodeAt(f, items[|items| - 1]);
      MailItems(f, items) == if HasMail(last) then MailItems(f, init) + [|items| - 1] else MailItems(f, init)
  {
  }

  /** One more item that gets through its pass extends the gathered lists by its entry. */
  lemma GatheredStep(f: seq<Node>, items: seq<Path>, i: nat)
    requires forall i :: i in items ==> ValidPath(f, i) && NodeAt(f, i).Element?
    requires i < |items| && EntriesOk(f, items[..i]) && ItemEntry(NodeAt(f, items[i])).Ok?
    ensures EntriesOk(f, items[..i + 1])
    ensures var acc, one := Gathered(f, items[..i]), ItemEntry(NodeAt(f, items[i])).value;
      Gathered(f, items[..i + 1]) == Authors(acc.names + one.names, acc.emails + one.emails)
  {
    assert items[..i + 1][..i] == items[..i];
  }

  /** The loop of extract.py:119-123. */
  method CollectLayoutA(f: seq<Node>, items: seq<Path>) returns (r: Result<Authors>)
    requires forall i :: i in items ==> ValidPath(f, i) && NodeAt(f, i).Element?
    ensures r == LayoutA(f, items)
  {
    var names: seq<string> := [];
    var emails: seq<string> := [];
    var i := 0;
    while i < |items|
      invariant 0 <= i <= |items|
      invariant EntriesOk(f, items[..i])
      invariant Gathered(f, items[..i]) == Authors(names, emails)
    {
      var entry := ItemEntry(NodeAt(f, items[i]));
      if entry.Err? {
        return Err(entry.error);
      }
      names := names + entry.value.names;
      emails := emails + entry.value.emails;
      GatheredStep(f, items, i);
      i := i + 1;
    }
    assert items[..i] == items;
    r := Ok(Authors(names, emails));
  }

  // ----- Layout B: flat mailto anchors -----

  /** An element sibling whose class list contains `AuthorName`. */
  predicate IsNameSibling(n: Node) {
    n.Element? && NameClass in n.classes
  }

  /** Texts of the `AuthorName` siblings in `sibs`, in order, empty texts
      included: when every sibling is a name sibling, each gives a name. */
  function SiblingNames(f: seq<Node>, sibs: seq<Path>): (r: seq<string>)
    requires forall s :: s in sibs ==> ValidPath(f, s)
    ensures |r| <= |sibs|
    ensures (forall j :: 0 <= j < |sibs| ==> IsNameSibling(NodeAt(f, sibs[j]))) ==> |r| == |sibs|
  {
    if sibs == [] then []
    else
      var n := NodeAt(f, sibs[|sibs| - 1]);
      SiblingNames(f, sibs[..|sibs| - 1]) + (if IsNameSibling(n) then [TextOf(n)] else [])
  }

  /** The inner loop of extract.py:129-131: every previous sibling, nearest
      first, with no stop at the first name. */
  method ScanSiblings(f: seq<Node>, sibs: seq<Path>) returns (found: seq<string>)
    requires forall s :: s in sibs ==> ValidPath(f, s)
    ensures found == SiblingNames(f, sibs)
  {
    found := [];
    var j := 0;
    while j < |sibs|
      invariant 0 <= j <= |sibs|
      invariant found == SiblingNames(f, sibs[..j])
    {
      var sibling := NodeAt(f, sibs[j]);
      if sibling.Element? && NameClass in sibling.classes {
        found := found + [TextOf(sibling)];
      }
      assert sibs[..j + 1][..j] == sibs[..j];
      j := j + 1;
    }
    assert sibs[..j] == sibs;
  }

  /** The names the sibling scans find, anchor after anchor. Names only come
      from earlier siblings, so anchors that are all first children give none. */
  function AnchorNames(f: seq<Node>, anchors: seq<Path>): (r: seq<string>)
    requires forall a :: a in anchors ==> ValidPath(f, a)
    ensures (forall a :: a in anchors ==> |a| > 0 && a[|a| - 1] == 0) ==> r == []
  {
    if anchors == [] then []
    else
      var a := anchors[|anchors| - 1];
      assert forall k :: 0 <= k < |anchors| - 1 ==> anchors[..|anchors| - 1][k] == anchors[k];
      PreviousSiblingsExact(f, a);
      AnchorNames(f, anchors[..|anchors| - 1]) + SiblingNames(f, PreviousSiblings(a))
  }

  /** Every anchor's `href` has a `:`. */
  predicate Addressed(f: seq<Node>, anchors: seq<Path>)
    requires forall a :: a in anchors ==> ValidPath(f, a) && NodeAt(f, a).Element?
  {
    forall k :: 0 <= k < |anchors| ==> MailtoAddress(NodeAt(f, anchors[k])).Ok?
  }

  /** The address of each anchor, in the order of `anchors`. */
  function Addresses(f: seq<Node>, anchors: seq<Path>): seq<string>
    requires forall a :: a in anchors ==> ValidPath(f, a) && NodeAt(f, a).Element?
    requires Addressed(f, anchors)
  {
    seq(|anchors|, k requires 0 <= k < |anchors| => MailtoAddress(NodeAt(f, anchors[k])).value)
  }

  /** The whole of layout B: `IndexError` as soon as one anchor's `href` has
      no `:`; otherwise the sibling names and one address per anchor. */
  function LayoutB(f: seq<Node>, anchors: seq<Path>): (r: Result<Authors>)
    requires forall a :: a in anchors ==> ValidPath(f, a) && NodeAt(f, a).Element?
    ensures r.Err? ==> r.error == IndexError
    ensures r.Ok? ==> |r.value.emails| == |anchors|
  {
    if Addressed(f, anchors) then Ok(Authors(AnchorNames(f, anchors), Addresses(f, anchors)))
    else Err(IndexError)
  }

  /** One more anchor whose `href` has a `:` extends the names by its sibling
      names and the addresses by its own address. */
  lemma LayoutBStep(f: seq<Node>, anchors: seq<Path>, i: nat)
    requires forall a :: a in anchors ==> ValidPath(f, a) && NodeAt(f, a).Element?
    requires i < |anchors| && Addressed(f, anchors[..i]) && MailtoAddress(NodeAt(f, anchors[i])).Ok?
    ensures Addressed(f, anchors[..i + 1])
    ensures Addresses(f, anchors[..i + 1]) ==
      Addresses(f, anchors[..i]) + [MailtoAddress(NodeAt(f, anchors[i])).value]
    ensures (PreviousSiblingsExact(f, anchors[i]);
      AnchorNames(f, anchors[..i + 1]) ==
      AnchorNames(f, anchors[..i]) + SiblingNames(f, PreviousSiblings(anchors[i])))
  {
    assert anchors[..i + 1][..i] == anchors[..i];
  }

  /** The nested loops of extract.py:126-131. */
  method CollectLayoutB(f: seq<Node>, anchors: seq<Path>) returns (r: Result<Authors>)
    requires forall a :: a in anchors ==> ValidPath(f, a) && NodeAt(f, a).Element? && "href" in NodeAt(f, a).attrs
    ensures r == LayoutB(f, anchors)
  {
    var names: seq<string> := [];
    var emails: seq<string> := [];
    var i := 0;
    while i < |anchors|
      invariant 0 <= i <= |anchors|
      invariant Addressed(f, anchors[..i])
      invariant emails == Addresses(f, anchors[..i])
      invariant names == AnchorNames(f, anchors[..i])
    {
      var a := anchors[i];
      var email := MailtoAddress(NodeAt(f, a));
      if email.Err? {
        return Err(email.error);
      }
      emails := emails + [email.value];
      PreviousSiblingsExact(f, a);
      var found := ScanSiblings(f, PreviousSiblings(a));
      names := names + found;
      LayoutBStep(f, anchors, i);
      i := i + 1;
    }
    assert anchors[..i] == anchors;
    r := Ok(Authors(names, emails));
  }

  // ----- Date -----

  /** `find_all("time")[0].text`, falling back on
      `find_all('p', 'HistoryOnlineDate')[0].text.split(':')[1].strip()`. */
  function SpringerDate(f: seq<Node>): (r: Result<string>)
    ensures r.Err? ==> r.error == IndexError
  {
    var times := Select(f, AnyTime);
    if |times| > 0 then Ok(TextAt(f, times[0]))
    else
      var ps := Select(f, HistoryDate);
      if |ps| == 0 then Err(IndexError)
      else
        var parts := Split(TextAt(f, ps[0]), ':');
        if |parts| < 2 then Err(IndexError) else Ok(Strip(parts[1]))
  }

  // ----- The strategy -----

  /** The authors of the page: layout A when an author item exists, else layout B. */
  function AuthorsOf(f: seq<Node>): (r: Result<Authors>)
    ensures r.Err? ==> r.error == IndexError
  {
    var items := Select(f, AuthorItem);
    if |items| > 0 then LayoutA(f, items) else LayoutB(f, Select(f, MailtoAnchor))
  }

  /** What `extract_from_springer` does with one document. The only exception
      it can raise is `IndexError`: every anchor it reads an `href` from was
      selected for having one. */
  function SpringerExtraction(doc: Document): (r: Extraction)
    ensures r.Raise? ==> r.error == IndexError
  {
    var f := doc.soup;
    if |Select(f, SummaryBody)| > 0 then Skip
    else
      var authors := AuthorsOf(f);
      if authors.Err? then Raise(authors.error)
      else
        var date := SpringerDate(f);
        if date.Err? then Raise(date.error)
        else Row(authors.value.names + authors.value.emails + [date.value])
  }

  /** `extract_from_springer(html, csvfile)`. */
  method ExtractFromSpringer(doc: Document, sink: RowSink) returns (e: Extraction)
    modifies sink
    ensures e == SpringerExtraction(doc)
    ensures sink.rows == old(sink.rows) + Written(e)
  {
    var f := doc.soup;
    if |Select(f, SummaryBody)| > 0 {
      return Skip;
    }
    var authors: Result<Authors>;
    var items := Select(f, AuthorItem);
    if |items| > 0 {
      authors := CollectLayoutA(f, items);
    } else {
      authors := CollectLayoutB(f, Select(f, MailtoAnchor));
    }
    if authors.Err? {
      return Raise(authors.error);
    }
    var date := SpringerDate(f);
    if date.Err? {
      return Raise(date.error);
    }
    var row := authors.value.names + authors.value.emails + [date.value];
    sink.WriteRow(row);
    e := Row(row);
  }

  // ----- Properties -----

  /** Every author item that holds a `mailto` anchor has a `:` in that
      anchor's `href` and a line break in its text (layout A), or every
      `mailto` anchor has a `:` in its `href` (layout B). */
  ghost predicate AuthorsReadable(f: seq<Node>) {
    if HasMatch(f, AuthorItem) then
      forall p :: ValidPath(f, p) && Matches(NodeAt(f, p), AuthorItem) ==>
        var item := NodeAt(f, p);
        !HasMail(item) || (':' in FirstHref(item) && '\n' in TextOf(item))
    else
      forall p :: ValidPath(f, p) && Matches(NodeAt(f, p), MailtoAnchor) ==>
        ':' in NodeAt(f, p).attrs["href"]
  }

  /** A `time` element exists, or else the first `p.HistoryOnlineDate`
      exists and its text has a `:`. */
  ghost predicate DateReadable(f: seq<Node>) {
    HasMatch(f, AnyTime) || exists p :: IsFirstMatch(f, HistoryDate, p) && ':' in TextAt(f, p)
  }

  lemma AuthorsOfSucceedsIff(f: seq<Node>)
    ensures AuthorsOf(f).Ok? <==> AuthorsReadable(f)
  {
    SelectFirst(f, AuthorItem);
    var items := Select(f, AuthorItem);
    if |items| > 0 {
      if AuthorsOf(f).Ok? {
        forall p | ValidPath(f, p) && Matches(NodeAt(f, p), AuthorItem)
          ensures var item := NodeAt(f, p);
            !HasMail(item) || (':' in FirstHref(item) && '\n' in TextOf(item))
        {
          assert p in items;
          var k :| 0 <= k < |items| && items[k] == p;
          ItemEntryMeaning(NodeAt(f, p));
        }
      }
    } else {
      var anchors := Select(f, MailtoAnchor);
      if AuthorsOf(f).Ok? {
        forall p | ValidPath(f, p) && Matches(NodeAt(f, p), MailtoAnchor)
          ensures ':' in NodeAt(f, p).attrs["href"]
        {
          assert p in anchors;
          var k :| 0 <= k < |anchors| && anchors[k] == p;
          assert MailtoAddress(NodeAt(f, anchors[k])).Ok?;
        }
      }
    }
  }

  lemma SpringerDateSucceedsIff(f: seq<Node>)
    ensures SpringerDate(f).Ok? <==> DateReadable(f)
  {
    SelectFirst(f, AnyTime);
    SelectFirst(f, HistoryDate);
    if !HasMatch(f, AnyTime) && DateReadable(f) {
      var p :| IsFirstMatch(f, HistoryDate, p) && ':' in TextAt(f, p);
      FirstMatchUnique(f, HistoryDate, p, Select(f, HistoryDate)[0]);
    }
  }

  /** Summary pages (a `body.articles` exists) are skipped; any other page
      gets a row exactly when its authors and its date can be read, and
      raises `IndexError` otherwise. */
  lemma SpringerWritesIff(doc: Document)
    ensures SpringerExtraction(doc).Skip? <==> HasMatch(doc.soup, SummaryBody)
    ensures SpringerExtraction(doc).Row? <==>
      !HasMatch(doc.soup, SummaryBody) && AuthorsReadable(doc.soup) && DateReadable(doc.soup)
  {
    SelectFirst(doc.soup, SummaryBody);
    AuthorsOfSucceedsIff(doc.soup);
    SpringerDateSucceedsIff(doc.soup);
  }

  /** The date of a written row is the text of the first `time` element or,
      when there is none, the stripped second `:` field of the text of the
      first `p.HistoryOnlineDate`. */
  lemma SpringerRowDate(doc: Document)
    requires SpringerExtraction(doc).Row?
    ensures var f, row := doc.soup, SpringerExtraction(doc).fields;
      |row| > 0 &&
      ((exists p :: IsFirstMatch(f, AnyTime, p) && row[|row| - 1] == TextAt(f, p)) ||
       (!HasMatch(f, AnyTime) &&
        exists p :: IsFirstMatch(f, HistoryDate, p) && ':' in TextAt(f, p) &&
          row[|row| - 1] == Strip(Split(TextAt(f, p), ':')[1])))
  {
    var f := doc.soup;
    SelectFirst(f, AnyTime);
    SelectFirst(f, HistoryDate);
    if |Select(f, AnyTime)| > 0 {
      assert IsFirstMatch(f, AnyTime, Select(f, AnyTime)[0]);
    } else {
      assert IsFirstMatch(f, HistoryDate, Select(f, HistoryDate)[0]);
    }
  }

  /** A written row is the names, then the emails, then the date. With author
      items (layout A) there are as many names as emails, one pair per item
      holding a `mailto` anchor; otherwise (layout B) there is one email per
      `mailto` anchor, in document order, each the second `:` field of its `href`. */
  lemma SpringerRowLayout(doc: Document)
    requires SpringerExtraction(doc).Row?
    ensures var f, row := doc.soup, SpringerExtraction(doc).fields;
      var a := AuthorsOf(f).value;
      var anchors := Select(f, MailtoAnchor);
      AuthorsOf(f).Ok? && |row| == |a.names| + |a.emails| + 1 &&
      row[..|a.names|] == a.names && row[|a.names|..|row| - 1] == a.emails &&
      (HasMatch(f, AuthorItem) ==>
        |a.names| == |a.emails| == |MailItems(f, Select(f, AuthorItem))|) &&
      (!HasMatch(f, AuthorItem) ==>
        |a.emails| == |anchors| &&
        forall k :: 0 <= k < |anchors| ==>
          ':' in NodeAt(f, anchors[k]).attrs["href"] &&
          a.emails[k] == Split(NodeAt(f, anchors[k]).attrs["href"], ':')[1])
  {
    var f := doc.soup;
    SelectFirst(f, AuthorItem);
    var a := AuthorsOf(f).value;
    RowParts(a.names, a.emails, SpringerDate(f).value);
    var items := Select(f, AuthorItem);
    if |items| > 0 {
      GatheredPaired(f, items);
    } else {
      var anchors := Select(f, MailtoAnchor);
      forall k | 0 <= k < |anchors|
        ensures ':' in NodeAt(f, anchors[k]).attrs["href"]
        ensures a.emails[k] == Split(NodeAt(f, anchors[k]).attrs["href"], ':')[1]
      {
        var n := NodeAt(f, anchors[k]);
        assert a.emails[k] == MailtoAddress(n).value;
        var parts := Split(n.attrs["href"], ':');
        assert MailtoAddress(n).value == parts[1];
      }
    }
  }
}
