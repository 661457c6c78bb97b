/** An abstract parsed HTML document and the queries the extraction code asks
    of it: `find_all` / `select` (matches in document order), `.text`,
    `previous_siblings` (nearest first) and `parents` (innermost first).
    A node is addressed by its path of child indices from the top-level forest,
    so that siblings and ancestors can be named. */
module Html {
  import opened Strings

  /** `classes` is the element's `class` list; `attrs` holds its other attributes. */
  datatype Node =
    | Element(tag: string, classes: seq<string>, attrs: map<string, string>, children: seq<Node>)
    | Text(s: string)

  /** Child indices from the top-level forest down to a node. */
  type Path = seq<nat>

  predicate ValidPath(f: seq<Node>, p: Path)
    decreases |p|
  {
    |p| >= 1 && p[0] < |f| &&
    (|p| == 1 || (f[p[0]].Element? && ValidPath(f[p[0]].children, p[1..])))
  }

  function NodeAt(f: seq<Node>, p: Path): Node
    requires ValidPath(f, p)
    decreases |p|
  {
    if |p| == 1 then f[p[0]] else NodeAt(f[p[0]].children, p[1..])
  }

  /** The nodes directly below the node at `q`; the top-level forest when `q` is empty. */
  function Kids(f: seq<Node>, q: Path): seq<Node>
    requires q == [] || ValidPath(f, q)
  {
    if q == [] then f
    else if NodeAt(f, q).Element? then NodeAt(f, q).children
    else []
  }

  /** `q + [i]` names the `i`-th child of the node at `q`, and nothing else. */
  lemma {:induction false} ChildAt(f: seq<Node>, q: Path, i: nat)
    requires q == [] || ValidPath(f, q)
    ensures ValidPath(f, q + [i]) <==> i < |Kids(f, q)|
    ensures i < |Kids(f, q)| ==> NodeAt(f, q + [i]) == Kids(f, q)[i]
    decreases |q|
  {
    if q != [] {
      assert (q + [i])[0] == q[0];
      assert (q + [i])[1..] == q[1..] + [i];
      if |q| > 1 {
        ChildAt(f[q[0]].children, q[1..], i);
      }
    }
  }

  /** Every non-empty prefix of a valid path is valid and, short of the whole
      path, names an element. */
  lemma {:induction false} PrefixValid(f: seq<Node>, p: Path, m: nat)
    requires ValidPath(f, p) && 1 <= m <= |p|
    ensures ValidPath(f, p[..m])
    ensures m < |p| ==> NodeAt(f, p[..m]).Element?
    decreases |p|
  {
    if m > 1 {
      PrefixValid(f[p[0]].children, p[1..], m - 1);
      assert p[..m][1..] == p[1..][..m - 1];
    }
  }

  // ----- Document order -----

  /** `p` comes before `q` in document order (preorder): `p` is a proper prefix
      of `q` (an ancestor), or the first index where they differ is smaller in `p`. */
  predicate Before(p: Path, q: Path)
    decreases |p|
  {
    |q| > 0 && (|p| == 0 || p[0] < q[0] || (p[0] == q[0] && Before(p[1..], q[1..])))
  }

  /** No path comes before itself, so a sequence in document order has no repeats. */
  lemma {:induction false} BeforeIrreflexive(p: Path)
    ensures !Before(p, p)
    decreases |p|
  {
    if |p| > 0 {
      BeforeIrreflexive(p[1..]);
    }
  }

  predicate InDocumentOrder(ps: seq<Path>) {
    forall i, j :: 0 <= i < j < |ps| ==> Before(ps[i], ps[j])
  }

  // ----- Preorder traversal -----

  /** The paths of `ps`, each placed under top-level index `i`. */
  function Prepend(i: nat, ps: seq<Path>): seq<Path> {
    seq(|ps|, k requires 0 <= k < |ps| => [i] + ps[k])
  }

  /** Paths of every node of the forest, in preorder. */
  function Walk(f: seq<Node>): seq<Path>
    decreases f
  {
    if |f| == 0 then [] else Walk(f[..|f| - 1]) + WalkAt(|f| - 1, f[|f| - 1])
  }

  /** Paths of the node `n`, placed at top-level index `i`, and of its descendants, in preorder. */
  function WalkAt(i: nat, n: Node): seq<Path>
    decreases n
  {
    [[i]] + (if n.Element? then Prepend(i, Walk(n.children)) else [])
  }

  lemma {:induction false} WalkSound(f: seq<Node>)
    ensures forall p :: p in Walk(f) ==> ValidPath(f, p)
    decreases f
  {
    if |f| > 0 {
      var g := f[..|f| - 1];
      WalkSound(g);
      forall p | p in Walk(g) ensures ValidPath(f, p) {
        assert ValidPath(g, p);
        assert f[p[0]] == g[p[0]];
      }
      WalkAtSound(f, |f| - 1);
    }
  }

  lemma {:induction false} WalkAtSound(f: seq<Node>, i: nat)
    requires i < |f|
    ensures forall p :: p in WalkAt(i, f[i]) ==> ValidPath(f, p) && p[0] == i
    decreases f[i]
  {
    var n := f[i];
    if n.Element? {
      WalkSound(n.children);
      var ps := Walk(n.children);
      forall p | p in Prepend(i, ps) ensures ValidPath(f, p) && p[0] == i {
        var k :| 0 <= k < |ps| && Prepend(i, ps)[k] == p;
        assert p == [i] + ps[k];
        assert p[1..] == ps[k];
      }
    }
  }

  lemma {:induction false} WalkComplete(f: seq<Node>, p: Path)
    requires ValidPath(f, p)
    ensures p in Walk(f)
    decreases f
  {
    var n := |f| - 1;
    if p[0] < n {
      var g := f[..n];
      assert f[p[0]] == g[p[0]];
      assert ValidPath(g, p);
      WalkComplete(g, p);
    } else if |p| == 1 {
      assert p == [n];
      assert p in WalkAt(n, f[n]);
    } else {
      var ch := f[n].children;
      WalkComplete(ch, p[1..]);
      var k :| 0 <= k < |Walk(ch)| && Walk(ch)[k] == p[1..];
      assert p == [n] + p[1..];
      assert Prepend(n, Walk(ch))[k] == p;
      assert p in WalkAt(n, f[n]);
    }
  }

  lemma {:induction false} PrependOrdered(i: nat, ps: seq<Path>)
    requires InDocumentOrder(ps)
    ensures InDocumentOrder(Prepend(i, ps))
  {
    var r := Prepend(i, ps);
    forall a, b | 0 <= a < b < |r| ensures Before(r[a], r[b]) {
      assert r[a][1..] == ps[a] && r[b][1..] == ps[b];
    }
  }

  /** Joining two ordered lists keeps the order when every path of the first
      starts with a smaller top-level index than every path of the second. */
  lemma ConcatOrdered(front: seq<Path>, back: seq<Path>, n: nat)
    requires InDocumentOrder(front) && InDocumentOrder(back)
    requires forall p :: p in front ==> |p| > 0 && p[0] < n
    requires forall q :: q in back ==> |q| > 0 && q[0] == n
    ensures InDocumentOrder(front + back)
  {
    var all := front + back;
    forall a, b | 0 <= a < b < |all| ensures Before(all[a], all[b]) {
      if b < |front| {
        assert all[a] == front[a] && all[b] == front[b];
      } else if a < |front| {
        assert all[a] in front && all[b] in back;
      } else {
        assert all[a] == back[a - |front|] && all[b] == back[b - |front|];
      }
    }
  }

  lemma {:induction false} WalkOrdered(f: seq<Node>)
    ensures InDocumentOrder(Walk(f))
    decreases f
  {
    if |f| > 0 {
      var n := |f| - 1;
      var g := f[..n];
      WalkOrdered(g);
      WalkAtOrdered(n, f[n]);
      WalkSound(g);
      WalkAtSound(f, n);
      forall p | p in Walk(g) ensures |p| > 0 && p[0] < n {
        assert ValidPath(g, p);
      }
      ConcatOrdered(Walk(g), WalkAt(n, f[n]), n);
    }
  }

  lemma {:induction false} WalkAtOrdered(i: nat, n: Node)
    ensures InDocumentOrder(WalkAt(i, n))
    decreases n
  {
    if n.Element? {
      var ch := n.children;
      WalkOrdered(ch);
      WalkSound(ch);
      PrependOrdered(i, Walk(ch));
      var rest := Prepend(i, Walk(ch));
      var back := [[i]] + rest;
      forall a, b | 0 <= a < b < |back| ensures Before(back[a], back[b]) {
        if a == 0 {
          assert Walk(ch)[b - 1] in Walk(ch);
          assert back[b] == [i] + Walk(ch)[b - 1];
          assert back[b][1..] == Walk(ch)[b - 1];
        } else {
          assert back[a] == rest[a - 1] && back[b] == rest[b - 1];
        }
      }
    }
  }

  // ----- find_all / select -----

  /** The query forms used: `find_all(tag, cls)`, `find_all(tag)`,
      `select('tag[attr^=prefix]')` and `select('tag[attr=value]')`. */
  datatype Selector =
    | TagClass(tag: string, cls: string)
    | TagOnly(tag: string)
    | AttrPrefix(tag: string, attr: string, prefix: string)
    | AttrEquals(tag: string, attr: string, value: string)

  predicate Matches(n: Node, sel: Selector) {
    n.Element? && n.tag == sel.tag &&
    match sel
    case TagClass(_, cls) => cls in n.classes
    case TagOnly(_) => true
    case AttrPrefix(_, a, pre) => a in n.attrs && StartsWith(n.attrs[a], pre)
    case AttrEquals(_, a, v) => a in n.attrs && n.attrs[a] == v
  }

  /** `a[href^=mailto]`, the link anchors both Wiley and Springer pages use. */
  const MailtoAnchor := AttrPrefix("a", "href", "mailto")

  /** The paths of `ps` that name a matching node, in their original order. */
  function Filter(f: seq<Node>, ps: seq<Path>, sel: Selector): (r: seq<Path>)
    ensures forall p :: p in r <==> p in ps && ValidPath(f, p) && Matches(NodeAt(f, p), sel)
    ensures InDocumentOrder(ps) ==> InDocumentOrder(r)
  {
    if ps == [] then []
    else
      var rest := Filter(f, ps[1..], sel);
      if ValidPath(f, ps[0]) && Matches(NodeAt(f, ps[0]), sel) then
        var r := [ps[0]] + rest;
        assert InDocumentOrder(ps) ==> InDocumentOrder(r) by {
          if InDocumentOrder(ps) {
            forall b | 0 < b < |r| ensures Before(r[0], r[b]) {
              assert r[b] in ps[1..];
              var k :| 0 <= k < |ps[1..]| && ps[1..][k] == r[b];
              assert ps[k + 1] == r[b];
            }
            assert forall a, b :: 0 < a < b < |r| ==> r[a] == rest[a - 1] && r[b] == rest[b - 1];
          }
        }
        r
      else rest
  }

  /** `find_all` / `select`: every node of the document matching `sel`, each
      once, in document order. */
  function Select(f: seq<Node>, sel: Selector): (r: seq<Path>)
    ensures forall p {:trigger p in r} :: p in r <==> ValidPath(f, p) && Matches(NodeAt(f, p), sel)
    ensures InDocumentOrder(r)
  {
    WalkSound(f);
    WalkOrdered(f);
    forall p | ValidPath(f, p) ensures p in Walk(f) {
      WalkComplete(f, p);
    }
    Filter(f, Walk(f), sel)
  }

  /** Some node of the document matches `sel`. */
  ghost predicate HasMatch(f: seq<Node>, sel: Selector) {
    exists p :: ValidPath(f, p) && Matches(NodeAt(f, p), sel)
  }

  /** `p` is the match of `sel` that comes first in document order. */
  ghost predicate IsFirstMatch(f: seq<Node>, sel: Selector, p: Path) {
    ValidPath(f, p) && Matches(NodeAt(f, p), sel) &&
    forall q :: ValidPath(f, q) && Matches(NodeAt(f, q), sel) && q != p ==> Before(p, q)
  }

  /** `select(...)[0]` exists exactly when something matches, and it is then
      the first match in document order. */
  lemma SelectFirst(f: seq<Node>, sel: Selector)
    ensures |Select(f, sel)| > 0 <==> HasMatch(f, sel)
    ensures |Select(f, sel)| > 0 ==> IsFirstMatch(f, sel, Select(f, sel)[0])
  {
    var r := Select(f, sel);
    if |r| > 0 {
      assert r[0] in r;
      forall q | ValidPath(f, q) && Matches(NodeAt(f, q), sel) && q != r[0]
        ensures Before(r[0], q)
      {
        assert q in r;
        var j :| 0 <= j < |r| && r[j] == q;
      }
    }
    if HasMatch(f, sel) {
      var p :| ValidPath(f, p) && Matches(NodeAt(f, p), sel);
      assert p in r;
    }
  }

  /** Document order never runs both ways between two paths. */
  lemma {:induction false} BeforeAsymmetric(p: Path, q: Path)
    ensures !(Before(p, q) && Before(q, p))
    decreases |p|
  {
    if |p| > 0 && |q| > 0 {
      BeforeAsymmetric(p[1..], q[1..]);
    }
  }

  /** A query whose only matches are `p` and, later, `q` returns `[p, q]`. */
  lemma SelectTwo(f: seq<Node>, sel: Selector, p: Path, q: Path)
    requires ValidPath(f, p) && Matches(NodeAt(f, p), sel)
    requires ValidPath(f, q) && Matches(NodeAt(f, q), sel)
    requires Before(p, q)
    requires forall x :: ValidPath(f, x) && Matches(NodeAt(f, x), sel) ==> x == p || x == q
    ensures Select(f, sel) == [p, q]
  {
    var r := Select(f, sel);
    assert p in r && q in r;
    BeforeIrreflexive(p);
    BeforeIrreflexive(q);
    BeforeAsymmetric(p, q);
    assert r[0] in r && r[1] in r && r[|r| - 1] in r;
    if |r| > 2 {
      assert false;
    }
  }

  /** A query whose only match is `p` returns `[p]`. */
  lemma SelectOne(f: seq<Node>, sel: Selector, p: Path)
    requires ValidPath(f, p) && Matches(NodeAt(f, p), sel)
    requires forall x :: ValidPath(f, x) && Matches(NodeAt(f, x), sel) ==> x == p
    ensures Select(f, sel) == [p]
  {
    var r := Select(f, sel);
    assert p in r;
    BeforeIrreflexive(p);
    assert r[0] in r && r[|r| - 1] in r;
    if |r| > 1 {
      assert false;
    }
  }

  /** There is at most one first match. */
  lemma FirstMatchUnique(f: seq<Node>, sel: Selector, p: Path, q: Path)
    requires IsFirstMatch(f, sel, p) && IsFirstMatch(f, sel, q)
    ensures p == q
  {
    if p != q {
      BeforeAsymmetric(p, q);
    }
  }

  // ----- .text -----

  /** `.text`: the concatenation of the text below a node, in document order. */
  function TextOf(n: Node): string
    decreases n
  {
    match n
    case Text(s) => s
    case Element(_, _, _, ch) => ForestText(ch)
  }

  function ForestText(f: seq<Node>): string
    decreases f
  {
    if |f| == 0 then "" else ForestText(f[..|f| - 1]) + TextOf(f[|f| - 1])
  }

  function TextAt(f: seq<Node>, p: Path): string
    requires ValidPath(f, p)
  {
    TextOf(NodeAt(f, p))
  }

  /** The string a single node contributes by itself: its own text if it is
      a text node, nothing if it is an element or `p` names no node. */
  function OwnText(f: seq<Node>, p: Path): string {
    if ValidPath(f, p) && NodeAt(f, p).Text? then NodeAt(f, p).s else ""
  }

  /** The own texts of the nodes at `ps`, in the order of `ps`. */
  function TextsAlong(f: seq<Node>, ps: seq<Path>): string {
    if ps == [] then "" else TextsAlong(f, ps[..|ps| - 1]) + OwnText(f, ps[|ps| - 1])
  }

  lemma {:induction false} TextsAlongAppend(f: seq<Node>, a: seq<Path>, b: seq<Path>)
    ensures TextsAlong(f, a + b) == TextsAlong(f, a) + TextsAlong(f, b)
    decreases |b|
  {
    if b == [] {
      assert a + b == a;
    } else {
      var b0 := b[..|b| - 1];
      assert (a + b)[..|a + b| - 1] == a + b0;
      assert (a + b)[|a + b| - 1] == b[|b| - 1];
      TextsAlongAppend(f, a, b0);
      assert TextsAlong(f, b) == TextsAlong(f, b0) + OwnText(f, b[|b| - 1]);
      assert TextsAlong(f, a + b) == TextsAlong(f, a + b0) + OwnText(f, b[|b| - 1]);
    }
  }

  /** Below an element at top-level index `i`, a path `[i] + p` contributes
      what `p` contributes among the element's children. */
  lemma {:induction false} TextsAlongPrepend(f: seq<Node>, i: nat, ps: seq<Path>)
    requires i < |f| && f[i].Element?
    ensures TextsAlong(f, Prepend(i, ps)) == TextsAlong(f[i].children, ps)
    decreases |ps|
  {
    if ps != [] {
      var p := ps[|ps| - 1];
      assert Prepend(i, ps)[..|ps| - 1] == Prepend(i, ps[..|ps| - 1]);
      TextsAlongPrepend(f, i, ps[..|ps| - 1]);
      var q := [i] + p;
      assert q[0] == i && q[1..] == p;
      if p == [] {
        assert !ValidPath(f[i].children, p);
      }
    }
  }

  /** Paths into the first `|g|` trees of `f` contribute the same in `g`. */
  lemma {:induction false} TextsAlongPrefix(f: seq<Node>, g: seq<Node>, ps: seq<Path>)
    requires |g| <= |f| && g == f[..|g|]
    requires forall p :: p in ps ==> |p| > 0 && p[0] < |g|
    ensures TextsAlong(f, ps) == TextsAlong(g, ps)
    decreases |ps|
  {
    if ps != [] {
      var p := ps[|ps| - 1];
      assert p in ps;
      assert f[p[0]] == g[p[0]];
      assert forall q :: q in ps[..|ps| - 1] ==> q in ps;
      TextsAlongPrefix(f, g, ps[..|ps| - 1]);
    }
  }

  /** Every path of the walk starts at one of the trees of `f`. */
  lemma WalkTopIndices(f: seq<Node>)
    ensures forall p :: p in Walk(f) ==> |p| > 0 && p[0] < |f|
  {
    WalkSound(f);
    forall p | p in Walk(f) ensures |p| > 0 && p[0] < |f| {
      assert ValidPath(f, p);
    }
  }

  /** `.text` is the text nodes of the walk, joined in document order. */
  lemma {:induction false} TextFollowsWalk(f: seq<Node>)
    ensures ForestText(f) == TextsAlong(f, Walk(f))
    decreases f
  {
    if |f| > 0 {
      var n := |f| - 1;
      var init := f[..n];
      TextFollowsWalk(init);
      WalkTopIndices(init);
      TextsAlongPrefix(f, init, Walk(init));
      TextsAlongAppend(f, Walk(init), WalkAt(n, f[n]));
      TextAtWalk(f, n);
    }
  }

  /** The walk of the `i`-th tree contributes that tree's `.text`. */
  lemma {:induction false} TextAtWalk(f: seq<Node>, i: nat)
    requires i < |f|
    ensures TextsAlong(f, WalkAt(i, f[i])) == TextOf(f[i])
    decreases f[i]
  {
    var w := WalkAt(i, f[i]);
    assert OwnText(f, [i]) == (if f[i].Text? then f[i].s else "");
    if f[i].Element? {
      var ch := f[i].children;
      TextsAlongAppend(f, [[i]], Prepend(i, Walk(ch)));
      assert TextsAlong(f, [[i]]) == "";
      TextsAlongPrepend(f, i, Walk(ch));
      TextFollowsWalk(ch);
    } else {
      assert w == [[i]];
      assert TextsAlong(f, w) == TextsAlong(f, []) + OwnText(f, [i]);
    }
  }

  // ----- previous_siblings and parents -----

  function Parent(p: Path): Path
    requires |p| >= 1
  {
    p[..|p| - 1]
  }

  /** `previous_siblings`: the paths of the nodes before `p` under the same
      parent, nearest first. */
  function PreviousSiblings(p: Path): seq<Path>
    requires |p| >= 1
  {
    var last := p[|p| - 1];
    seq(last, k requires 0 <= k < last => Parent(p) + [(last - 1 - k) as nat])
  }

  /** The previous siblings of a node are exactly the nodes before it in its
      parent's child list, listed from the nearest one backwards. */
  lemma PreviousSiblingsExact(f: seq<Node>, p: Path)
    requires ValidPath(f, p)
    ensures Parent(p) == [] || ValidPath(f, Parent(p))
    ensures var last, sibs := p[|p| - 1], PreviousSiblings(p);
      last < |Kids(f, Parent(p))| && NodeAt(f, p) == Kids(f, Parent(p))[last] &&
      |sibs| == last &&
      forall k :: 0 <= k < |sibs| ==>
        ValidPath(f, sibs[k]) && NodeAt(f, sibs[k]) == Kids(f, Parent(p))[last - 1 - k]
  {
    var q, last := Parent(p), p[|p| - 1];
    assert p == q + [last];
    if q != [] {
      PrefixValid(f, p, |p| - 1);
    }
    ChildAt(f, q, last);
    var sibs := PreviousSiblings(p);
    forall k | 0 <= k < |sibs|
      ensures ValidPath(f, sibs[k]) && NodeAt(f, sibs[k]) == Kids(f, q)[last - 1 - k]
    {
      ChildAt(f, q, last - 1 - k);
    }
  }

  /** `parents`: the paths of the ancestors of `p`, innermost first. */
  function Parents(p: Path): seq<Path>
    requires |p| >= 1
  {
    seq(|p| - 1, k requires 0 <= k < |p| - 1 => p[..|p| - 1 - k])
  }

  /** The ancestors of a node are elements and each is one level further out
      than the one before it. */
  lemma ParentsExact(f: seq<Node>, p: Path)
    requires ValidPath(f, p)
    ensures var ps := Parents(p);
      |ps| == |p| - 1 &&
      forall k :: 0 <= k < |ps| ==>
        ValidPath(f, ps[k]) && NodeAt(f, ps[k]).Element? &&
        |ps[k]| == |p| - 1 - k && ps[k] == p[..|ps[k]|]
  {
    var ps := Parents(p);
    forall k | 0 <= k < |ps|
      ensures ValidPath(f, ps[k]) && NodeAt(f, ps[k]).Element?
    {
      PrefixValid(f, p, |p| - 1 - k);
    }
  }
}
