/** A worked page for `extract_from_elsevier` (extract.py:43-68): two anchors
    under one parent, so the names scanned for the second anchor repeat the
    name found for the first. */
module ElsevierExample {
  import opened Strings
  import opened Html
  import opened Rows
  import opened Elsevier

  const ExampleAnchor := Element("a", ["auth_mail"], map["href" := "mailto:x"], [])

  /** Two `auth_mail` anchors under one parent, each after an `authorName`
      sibling, followed by the issue line. */
  predicate ExamplePage(f: seq<Node>) {
    |f| == 5 &&
    f[0] == Element("span", [NameClass], map[], [Text("A")]) && f[1] == ExampleAnchor &&
    f[2] == Element("span", [NameClass], map[], [Text("B")]) && f[3] == ExampleAnchor &&
    f[4] == Element("p", ["volIssue"], map[], [Text("Vol 1, 2020")])
  }

  /** Below the top level the example page holds only text nodes. */
  lemma ExampleShallow(f: seq<Node>, x: Path)
    requires ExamplePage(f) && ValidPath(f, x) && NodeAt(f, x).Element?
    ensures x == [x[0]] && NodeAt(f, x) == f[x[0]]
  {
    if |x| > 1 {
      assert false;
    }
  }

  /** The anchors are the second and fourth nodes. */
  lemma ExampleAnchors(f: seq<Node>)
    requires ExamplePage(f)
    ensures Select(f, MailAnchor) == [[1], [3]]
  {
    forall x | ValidPath(f, x) && Matches(NodeAt(f, x), MailAnchor) ensures x == [1] || x == [3] {
      ExampleShallow(f, x);
    }
    assert Before([1], [3]);
    SelectTwo(f, MailAnchor, [1], [3]);
  }

  /** The issue line is the fifth node. */
  lemma ExampleIssue(f: seq<Node>)
    requires ExamplePage(f)
    ensures Select(f, VolIssue) == [[4]]
  {
    forall x | ValidPath(f, x) && Matches(NodeAt(f, x), VolIssue) ensures x == [4] {
      ExampleShallow(f, x);
    }
    SelectOne(f, VolIssue, [4]);
  }

  lemma ExampleScans(f: seq<Node>)
    requires ExamplePage(f)
    ensures ValidPath(f, [0]) && ValidPath(f, [1]) && ValidPath(f, [2]) && ValidPath(f, [3]) &&
      PreviousSiblings([1]) == [[0]] && PreviousSiblings([3]) == [[2], [1], [0]] &&
      SiblingNames(f, [[0]]) == ["A"] &&
      SiblingNames(f, [[2], [1], [0]]) == ["B", "A"]
  {
    assert Parent([1]) == [] && Parent([3]) == [];
    var s1, s3 := PreviousSiblings([1]), PreviousSiblings([3]);
    assert |s1| == 1 && s1[0] == [0];
    assert s1 == [[0]];
    assert |s3| == 3 && s3[0] == [2] && s3[1] == [1] && s3[2] == [0];
    assert s3 == [[2], [1], [0]];
    assert f[0].children[..0] == [] && f[2].children[..0] == [];
    assert ForestText(f[0].children) == "A" && ForestText(f[2].children) == "B";
    assert NodeAt(f, [0]) == f[0] && NodeAt(f, [1]) == f[1] && NodeAt(f, [2]) == f[2];
    assert !IsNameSibling(f[1]);
    assert SiblingNames(f, [[0]]) == ["A"];
    assert [[2], [1], [0]][..2] == [[2], [1]] && [[2], [1]][..1] == [[2]];
    assert SiblingNames(f, [[2]]) == ["B"];
    assert SiblingNames(f, [[2], [1]]) == ["B"];
  }

  /** The scan before the second anchor finds both names, so two emails come
      with three names. */
  lemma NamesRepeatAcrossAnchors(f: seq<Node>)
    requires ExamplePage(f)
    ensures AllNames(f, [[1], [3]]) == ["A", "B", "A"]
  {
    ExampleScans(f);
    var anchors: seq<Path> := [[1], [3]];
    assert anchors[..1] == [[1]] && [[1]][..0] == [];
    assert AllNames(f, [[1]]) == ["A"];
    assert AllNames(f, anchors) == AllNames(f, [[1]]) + SiblingNames(f, PreviousSiblings([3]));
  }

  /** The example anchor's address is `x`. */
  lemma ExampleAddress()
    ensures MailtoAddress(ExampleAnchor) == Ok("x")
  {
    var href := ExampleAnchor.attrs["href"];
    assert href[6] == ':' && href[..6] == "mailto" && href[7..] == "x";
    SplitOnce(href, ':', 6);
  }

  /** Both anchors link to `mailto:x`, so both emails are `x`. */
  lemma ExampleEmails(f: seq<Node>)
    requires ExamplePage(f)
    ensures Emails(f, [[1], [3]]) == Ok(["x", "x"])
  {
    ExampleAddress();
    var anchors: seq<Path> := [[1], [3]];
    assert NodeAt(f, anchors[0]) == ExampleAnchor && NodeAt(f, anchors[1]) == ExampleAnchor;
    var r := Emails(f, anchors);
    assert r.Ok? && |r.value| == 2;
    assert r.value[0] == "x" && r.value[1] == "x";
    assert r.value == ["x", "x"];
  }

  /** The issue line "Vol 1, 2020" gives the date "2020". */
  lemma ExampleDate(f: seq<Node>)
    requires ExamplePage(f)
    ensures VolIssueDate(f) == Ok("2020")
  {
    ExampleIssue(f);
    assert f[4].children[..0] == [];
    assert TextAt(f, [4]) == "Vol 1, 2020";
    IssueSplit();
    ExampleStrip();
  }

  lemma IssueSplit()
    ensures Split("Vol 1, 2020", ',') == ["Vol 1", " 2020"]
  {
    var text := "Vol 1, 2020";
    assert text[5] == ',' && text[..5] == "Vol 1" && text[6..] == " 2020";
    SplitOnce(text, ',', 5);
  }

  lemma ExampleStrip()
    ensures Strip(" 2020") == "2020"
  {
    assert LeadingSpaces(" 2020") == 1;
    assert " 2020"[1..] == "2020";
    assert TrailingStart("2020") == 4;
  }

  lemma ExampleFields(f: seq<Node>, raw: string)
    requires ExamplePage(f)
    ensures ElsevierExtraction(Document(raw, f)) == Row(AllNames(f, [[1], [3]]) + ["x", "x"] + ["2020"])
  {
    ExampleAnchors(f);
    ExampleEmails(f);
    ExampleDate(f);
    ElsevierRowFrom(Document(raw, f), [[1], [3]], ["x", "x"], "2020");
  }

  /** The whole row written for the example page: three names for two
      emails, then the date. */
  lemma ExampleRow(f: seq<Node>, raw: string)
    requires ExamplePage(f)
    ensures ElsevierExtraction(Document(raw, f)) == Row(["A", "B", "A", "x", "x", "2020"])
  {
    ExampleFields(f, raw);
    NamesRepeatAcrossAnchors(f);
    assert ["A", "B", "A"] + ["x", "x"] + ["2020"] == ["A", "B", "A", "x", "x", "2020"];
  }
}
