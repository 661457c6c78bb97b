# journal-html-extract, modelled in Dafny

`extract.py` reads saved HTML snapshots of journal articles. For each page it
writes one CSV row: the corresponding authors' names, then their email
addresses, then the publication date. A classifier decides which publisher
layout a page follows: Elsevier, Springer or Wiley. The matching strategy
then collects the fields, and each strategy fails differently on incomplete
pages:
- Elsevier raises `IndexError` or `KeyError`;
- Springer skips summary pages and otherwise may raise `IndexError`;
- Wiley never raises and skips placeholder pages.

This project models those four functions over an abstract document tree. It
also models the per-file loop that hands pages to them.

Modules:
- `Strings`: Python's `split(sep)` with its `[1]` field, `strip()`,
  `startswith` and the substring test. `Split` is proved to be the unique
  separator-free decomposition that `Join` inverts.
- `Html`: the parsed page as a forest of `Element`/`Text` nodes, with nodes
  addressed by child-index paths. It defines:
  - document (preorder) order;
  - `Select`, standing for both `find_all(tag, class)` and `select(...)` by
    attribute value or prefix. `Select` returns exactly the matching nodes,
    in document order;
  - `.text` as concatenated descendant text;
  - `previous_siblings`, nearest first;
  - `parents`, innermost first.
  It also holds `MailtoAnchor` (`a[href^=mailto]`), shared by Wiley and
  Springer.
- `Rows`: the document, the exceptions, the outcome of one strategy call
  (`Row`, `Skip` or `Raise`), and the CSV writer as a `RowSink` class whose
  `rows` field `WriteRow` appends to.
- `Classify`, `Elsevier`, `Wiley`, `Springer`: the classifier and the three
  strategies. Each loop of the source is a method with invariants, proved
  equal to a specification function. The properties are proved about those
  functions: when a row is written, what each part of the row is, and what
  is raised.
- `ElsevierExample`: one Elsevier page worked through from the queries to
  the row written.
- `Dispatch`: one page through classifier and strategy, and the loop over the
  files of a run, where an exception ends the run.

Where the code is more specific than the documentation around it, the model
follows the code:
- The sibling scans of Elsevier and Springer layout B do not stop at the
  first author name. Every anchor contributes every name sibling before it.
  So on a page where one parent holds name, anchor, name, anchor, the first
  name is collected twice. `ElsevierExample` works such a page through to
  the whole row written.
- An email is `href.split(':')[1]`: the text after the first `:` up to the
  next `:`, not everything after the first `:`.
- Elsevier drops name siblings whose text is empty; Springer layout B keeps
  them.
- Wiley writes a row even when all three parts are empty.

## Model

| member | source | states |
|---|---|---|
| Strings.ContainsIffOccurs | extract.py:72 | the substring test `t in s` holds exactly when `t` occurs at some position of `s` |
| Strings.IndexOf | extract.py:48 | the position found holds the separator and no earlier position does |
| Strings.Split | extract.py:48 | `split(sep)` yields at least one piece, and at least two when `sep` occurs |
| Strings.SplitHasSecond | extract.py:48 | `split(sep)[1]` exists exactly when `sep` occurs in the string, so a missing separator is the `IndexError` of the source |
| Strings.SplitPiecesFree | extract.py:48 | no piece of `split(sep)` contains `sep` |
| Strings.SplitJoin | extract.py:48 | joining the pieces with `sep` gives back the original string |
| Strings.SplitUnique | extract.py:48 | any `sep`-free pieces that join back to `s` are exactly `s.split(sep)` |
| Strings.SplitOnce | extract.py:48 | a string with exactly one separator splits into the text before it and the text after it |
| Strings.SecondField | extract.py:66 | `split(sep)[1]` is the text after the first `sep`, up to the next `sep` or the end |
| Strings.LeadingSpaces | extract.py:66 | the count covers only whitespace, and the character after it is not whitespace |
| Strings.TrailingStart | extract.py:138 | everything from the returned position on is whitespace, and the character before it is not |
| Strings.Strip | extract.py:66 | `strip()` returns a slice of the input whose cut-off ends are whitespace and which neither starts nor ends with whitespace |
| Strings.StripIdempotent | extract.py:138 | stripping a stripped string changes nothing |
| Html.ChildAt | extract.py:53 | a child path is valid exactly when the index is below the number of children, and it addresses that child |
| Html.PrefixValid | extract.py:89 | every proper prefix of a valid path addresses an element, so each ancestor is an element |
| Html.BeforeIrreflexive | extract.py:47 | no node comes before itself in document order |
| Html.BeforeAsymmetric | extract.py:47 | two nodes are never each before the other |
| Html.WalkSound | extract.py:47 | every path the preorder walk lists addresses a node |
| Html.WalkAtSound | extract.py:47 | the walk of one top-level node lists only valid paths under that node |
| Html.WalkComplete | extract.py:47 | every node of the document is listed by the walk |
| Html.PrependOrdered | extract.py:47 | prefixing a child index preserves document order |
| Html.ConcatOrdered | extract.py:47 | the walks of consecutive subtrees, concatenated, are in document order |
| Html.WalkOrdered | extract.py:47 | the preorder walk lists nodes in document order |
| Html.WalkAtOrdered | extract.py:47 | the walk of one subtree is in document order |
| Html.Filter | extract.py:47 | filtering keeps exactly the listed paths whose node matches, and keeps their order |
| Html.Select | extract.py:47 | `find_all`/`select` return exactly the matching nodes of the document, each once, in document order |
| Html.SelectFirst | extract.py:65 | `[0]` of a query exists exactly when a match exists, and it is the first match in document order |
| Html.FirstMatchUnique | extract.py:99 | the first match in document order is unique |
| Html.SelectTwo | extract.py:47 | when exactly two nodes match, the query returns them in document order |
| Html.SelectOne | extract.py:65 | when exactly one node matches, the query returns just that node |
| Html.TextsAlongAppend | extract.py:56 | the own texts along two lists of paths, one after the other, are the texts along each list, concatenated |
| Html.TextsAlongPrepend | extract.py:56 | paths below a top-level element contribute what they contribute among its children |
| Html.TextsAlongPrefix | extract.py:56 | paths into the first trees of a document contribute the same in that shorter document |
| Html.WalkTopIndices | extract.py:47 | every path of the walk starts at one of the top-level trees |
| Html.TextFollowsWalk | extract.py:56 | `.text` of a document is the text of its text nodes, joined in document order |
| Html.TextAtWalk | extract.py:56 | `.text` of one tree is the text of the text nodes of its walk, in order |
| Html.PreviousSiblingsExact | extract.py:53 | `previous_siblings` lists every earlier child of the same parent, nearest first, and nothing else |
| Html.ParentsExact | extract.py:89 | `parents` lists every ancestor element, innermost first, each a valid element |
| Rows.MailtoAddress | extract.py:48 | reading an address fails exactly when `href` is missing (`KeyError`) or has no `:` (`IndexError`) |
| Rows.MailtoAddressIsSecondField | extract.py:48 | a read address contains no `:` and is the text between the first `:` of the `href` and the next `:` or the end |
| Rows.RowSink.constructor | extract.py:19-24 | a new writer has written no rows |
| Rows.RowSink.WriteRow | extract.py:26-36 | `writerow` appends exactly the given row and changes nothing else |
| Classify.GuessType | extract.py:143-152 | Elsevier exactly when a `span.spElsevierPubIcon` exists; Springer exactly when there is none but a `meta` whose `content` starts with `Springer` exists; Wiley otherwise. There is always a strategy |
| Elsevier.Emails | extract.py:47-48 | the email list succeeds exactly when every anchor has an `href` containing `:`; it then has one entry per anchor, in order, each that anchor's address |
| Elsevier.SiblingNames | extract.py:53-62 | the scan over some siblings finds at most one name per sibling, and never an empty one |
| Elsevier.AllNames | extract.py:51-62 | the scans before all anchors find only non-empty names |
| Elsevier.VolIssueDate | extract.py:65-66 | reading the date can only fail with `IndexError`; a date read has no `,` and neither starts nor ends with whitespace |
| Elsevier.ElsevierExtraction | extract.py:43-68 | the strategy never skips; a row holds at least one field per `a.auth_mail`, plus one; a `KeyError` comes from an `a.auth_mail` without `href` |
| Elsevier.ScanSiblings | extract.py:53-62 | the inner loop over `previous_siblings` collects the non-empty texts of all `authorName` element siblings, nearest first, with no early stop |
| Elsevier.CollectNames | extract.py:51-62 | the nested loops collect, anchor after anchor, all the names the sibling scans find |
| Elsevier.ExtractFromElsevier | extract.py:43-68 | the strategy's outcome is `ElsevierExtraction`, and the writer gains exactly the rows that outcome writes |
| Elsevier.EmailsSucceedIff | extract.py:47-48 | the email comprehension succeeds exactly when every `a.auth_mail` has an `href` containing `:` |
| Elsevier.VolIssueDateSucceedsIff | extract.py:65-66 | the date can be read exactly when the first `p.volIssue` exists and its text has a `,` |
| Elsevier.ElsevierWritesIff | extract.py:43-68 | Elsevier never skips; it writes a row exactly when all emails and the date can be read, and raises otherwise |
| Elsevier.ElsevierRowLayout | extract.py:47-68 | a written row is the names the sibling scans find, then one email per `a.auth_mail` in document order (its address), then the date read from the first `p.volIssue`; names and emails need not be equally many |
| Elsevier.ElsevierRowDate | extract.py:65-66 | the last field is the stripped second `,` field of the text of the first `p.volIssue` |
| ElsevierExample.ExampleShallow | extract.py:47 | on the example page (name `A`, anchor, name `B`, anchor, then `Vol 1, 2020`, all under one parent) every element is a top-level node |
| ElsevierExample.ExampleAnchors | extract.py:47 | on the example page `find_all('a', 'auth_mail')` returns the two anchors, in order |
| ElsevierExample.ExampleIssue | extract.py:65 | on the example page `find_all('p', 'volIssue')` returns the issue line |
| ElsevierExample.ExampleScans | extract.py:53-62 | the scans find `A` before the first anchor and `B`, `A` before the second |
| ElsevierExample.NamesRepeatAcrossAnchors | extract.py:51-62 | the two emails come with three names, `A`, `B`, `A`: a name is repeated for each later anchor |
| ElsevierExample.ExampleAddress | extract.py:48 | the address of an anchor linking to `mailto:x` is `x` |
| ElsevierExample.ExampleEmails | extract.py:47-48 | the example page's emails are `x`, `x` |
| ElsevierExample.IssueSplit | extract.py:66 | `"Vol 1, 2020".split(',')` is `"Vol 1"`, `" 2020"` |
| ElsevierExample.ExampleStrip | extract.py:66 | `" 2020".strip()` is `"2020"` |
| ElsevierExample.ExampleDate | extract.py:65-66 | the example page's date is `2020` |
| ElsevierExample.ExampleFields | extract.py:43-68 | the example page's row is its scanned names, then `x`, `x`, then `2020` |
| ElsevierExample.ExampleRow | extract.py:43-68 | the whole row written for the example page is `A`, `B`, `A`, `x`, `x`, `2020` |
| Wiley.IsPlaceholder | extract.py:72-74 | a page is skipped exactly when its text is empty or `Page has moved` occurs in it |
| Wiley.FirstText | extract.py:78-83 | the result is empty exactly when nothing matches; otherwise it is the text of the first match in document order |
| Wiley.AuthorOf | extract.py:87-94 | there is at most one author, and only when a `mailto` anchor exists |
| Wiley.WileyExtraction | extract.py:71-103 | Wiley never raises, skips exactly the placeholder pages, and writes at most three fields |
| Wiley.NearestAuthor | extract.py:89-92 | the result is empty exactly when no ancestor has `data-author-name`; otherwise it is that attribute of the first ancestor that has it |
| Wiley.FindAuthor | extract.py:87-94 | the loop with `break` over `parents` returns the `data-author-name` of the innermost ancestor carrying one, or nothing |
| Wiley.ExtractFromWiley | extract.py:71-103 | the strategy's outcome is `WileyExtraction`, and the writer gains exactly the rows that outcome writes |
| Wiley.WileyNeverRaises | extract.py:72-103 | Wiley never raises, and it skips exactly the empty pages and those in which `Page has moved` occurs |
| Wiley.WileyRowShape | extract.py:78-103 | a written row is at most one author, then at most one email, then at most one date. The email is the text of the first `mailto` anchor and is there exactly when one exists. The date is the text of the first `time#first-published-date` and is there exactly when one exists. An author needs an email |
| Wiley.WileyAuthorIsInnermost | extract.py:87-94 | the author is the `data-author-name` of the innermost ancestor of the first `mailto` anchor that has one, and is absent when no ancestor has one |
| Springer.ItemEntry | extract.py:120-123 | one author item adds nothing when it holds no `mailto` anchor, and one name and one email otherwise; a failure is an `IndexError` |
| Springer.ItemEntryMeaning | extract.py:120-123 | an item with a `mailto` anchor gets through exactly when that anchor's `href` has a `:` and the item's text a line break; it then adds line 1 of its text and the second `:` field of the `href` |
| Springer.MailItems | extract.py:119-121 | the positions listed are exactly those of the items holding a `mailto` anchor, each within the item list, in increasing order |
| Springer.GatheredPaired | extract.py:117-123 | layout A gives as many names as emails, one pair per item holding a `mailto` anchor, in item order |
| Springer.GatheredLength | extract.py:119-123 | layout A gathers exactly one name and one email per item holding a `mailto` anchor |
| Springer.GatheredPairedAt | extract.py:119-123 | name and email `k` of layout A are line 1 of the text and the address of the `k`-th item holding a `mailto` anchor |
| Springer.LayoutA | extract.py:117-123 | layout A can only fail with `IndexError`, and gives as many names as emails, at most one per item |
| Springer.CollectLayoutA | extract.py:117-123 | the loop over author items equals `LayoutA`: `IndexError` at the first item that fails, otherwise all entries in order |
| Springer.ScanSiblings | extract.py:129-131 | the inner loop collects the texts of all `AuthorName` element siblings, nearest first, empty texts included, with no early stop |
| Springer.SiblingNames | extract.py:129-131 | the scan finds at most one name per sibling, and one for each when every sibling is an `AuthorName` element |
| Springer.AnchorNames | extract.py:124-131 | anchors that are each the first child of their parent find no names |
| Springer.LayoutB | extract.py:124-131 | layout B can only fail with `IndexError`, and gives one email per `mailto` anchor |
| Springer.CollectLayoutB | extract.py:124-131 | the nested loops equal `LayoutB`: `IndexError` at the first `href` without `:`, otherwise one address per anchor and every name sibling of every anchor |
| Springer.SpringerDate | extract.py:133-138 | reading the date can only fail with `IndexError` |
| Springer.AuthorsOf | extract.py:117-131 | reading the authors can only fail with `IndexError` |
| Springer.SpringerExtraction | extract.py:106-140 | the only exception the strategy raises is `IndexError`, because every anchor it reads an `href` from was selected for having one |
| Springer.ExtractFromSpringer | extract.py:106-140 | the strategy's outcome is `SpringerExtraction`, and the writer gains exactly the rows that outcome writes |
| Springer.AuthorsOfSucceedsIff | extract.py:117-131 | the authors can be read exactly when every author item with a `mailto` anchor has a `:` in its `href` and a line break in its text (layout A), or, with no author items, every `mailto` `href` has a `:` (layout B) |
| Springer.SpringerDateSucceedsIff | extract.py:133-138 | the date can be read exactly when a `time` element exists, or else the first `p.HistoryOnlineDate` exists and its text has a `:` |
| Springer.SpringerWritesIff | extract.py:109-140 | a page is skipped exactly when a `body.articles` exists; otherwise it gets a row exactly when its authors and date can be read, and raises otherwise |
| Springer.SpringerRowDate | extract.py:133-138 | the date field is the text of the first `time`, or, without one, the stripped second `:` field of the first `p.HistoryOnlineDate` |
| Springer.SpringerRowLayout | extract.py:117-140 | a written row is the names, then the emails, then the date. In layout A, names and emails are equally many, one per item with a `mailto` anchor. In layout B there is one email per `mailto` anchor, in document order, each the second `:` field of its `href` |
| Dispatch.Extract | extract.py:166-169 | a page sent to Wiley never raises, a page sent to Elsevier is never skipped, and only Elsevier raises `KeyError` |
| Dispatch.ProcessFile | extract.py:166-169 | one page goes to the strategy the classifier picks; the outcome is `Extract(doc)` and the writer gains exactly its rows |
| Dispatch.RunFiles | extract.py:160-169 | a run writes at most one row per file, and a run that aborts was stopped by a selected file whose page raised that error |
| Dispatch.ProcessNext | extract.py:162-169 | handling the next file of a run that has not aborted leaves the writer's rows and the outcome equal to those of `RunFiles` on one more file |
| Dispatch.ProcessFiles | extract.py:160-169 | the file loop writes exactly the rows of `RunFiles` and ends as it does, stopping at the first exception |
| Dispatch.RunAbortedStays | extract.py:160-169 | once a page has raised, the later files change neither the rows nor the outcome |
| Dispatch.RunRowCount | extract.py:161-169 | when no file has an extension starting with `.ht` and `--all` is off, the run writes nothing and completes |
| Dispatch.ExtractOutcomes | extract.py:166-169 | a page adds no row exactly when it is a Springer summary page (a `body.articles` exists) or a Wiley placeholder (empty, or containing `Page has moved`); a page sent to Springer can raise only `IndexError` |

## Left out

- The internals of `UnicodeWriter` (extract.py:12-40): the string buffer, the
  incremental encoder and CSV quoting. The writer is modelled only as the
  list of rows written, in order.
- The per-file writers. `main` builds a new `UnicodeWriter` for every
  selected file (extract.py:168), all writing to the same output file. The
  model merges them into one `RowSink` that stands for that file and is
  passed through the whole run, so `RowSink`'s constructor is not called by
  the file loop.
- `main`'s file-system work (extract.py:155-160, 164-165): `os.walk`,
  path joins, reading files and naming the output file. A run is given as
  the sequence of files in walk order, each with its extension and content.
  `os.path.splitext` is not modelled; the extension is given.
- The command line (extract.py:172-178). `--all` is a parameter.
- HTML parsing. A document carries its raw text (used by Wiley's checks) and
  the tree the parser would build; the model does not relate the two.
- The CSS engine and `find_all`. Selectors are limited to the forms the
  code uses:
  - a tag with a class;
  - a tag with an attribute equal to a value;
  - a tag with an attribute starting with a value;
  - a bare tag.
  A class matches when it is one of the element's class tokens.
- `.text` is the concatenation of descendant text nodes, without the
  parser's whitespace handling.
- Strings.Strip: trims only ASCII whitespace, not the other Unicode
  whitespace characters Python's `str.strip()` removes.
- Exceptions other than `IndexError` and `KeyError`. The `AttributeError`
  that Elsevier's sibling scan catches (extract.py:54-62) comes from text
  siblings, which have no `attrs`; the model skips non-element siblings
  directly.
- The document root. The root object that `parents` yields last has empty
  `attrs`, so it never matches in Wiley's ancestor walk; `Html.Parents`
  does not list it.
