/** String operations the extraction code relies on: Python's `str.split(sep)`
    with a one-character separator, `str.strip()` (ASCII whitespace only),
    `str.startswith` and the substring test `t in s`. */
module Strings {

  /** The characters Python's `strip()` removes from byte strings. */
  predicate IsSpace(c: char) {
    c == ' ' || c == '\t' || c == '\n' || c == '\r' || c == '\U{000B}' || c == '\U{000C}'
  }

  predicate AllSpaces(s: string) {
    forall i :: 0 <= i < |s| ==> IsSpace(s[i])
  }

  predicate StartsWith(s: string, prefix: string) {
    |prefix| <= |s| && s[..|prefix|] == prefix
  }

  /** `t` occurs in `s` starting at position `i`. */
  predicate OccursAt(s: string, t: string, i: int) {
    0 <= i <= |s| - |t| && s[i..i + |t|] == t
  }

  /** Python's `t in s` for strings, computed by trying every start position. */
  predicate Contains(s: string, t: string)
    decreases |s|
  {
    StartsWith(s, t) || (|s| > 0 && Contains(s[1..], t))
  }

  /** `Contains` holds exactly when `t` occurs at some position of `s`. */
  lemma {:induction false} ContainsIffOccurs(s: string, t: string)
    ensures Contains(s, t) <==> exists i :: OccursAt(s, t, i)
    decreases |s|
  {
    if StartsWith(s, t) {
      assert OccursAt(s, t, 0);
    } else if |s| > 0 {
      ContainsIffOccurs(s[1..], t);
      if Contains(s, t) {
        var i :| OccursAt(s[1..], t, i);
        assert s[i + 1..i + 1 + |t|] == s[1..][i..i + |t|];
        assert OccursAt(s, t, i + 1);
      }
      if exists i :: OccursAt(s, t, i) {
        var i :| OccursAt(s, t, i);
        assert i != 0;
        assert s[1..][i - 1..i - 1 + |t|] == s[i..i + |t|];
        assert OccursAt(s[1..], t, i - 1);
      }
    }
  }

  /** Position of the first occurrence of `c` in `s`. */
  function IndexOf(s: string, c: char): (k: nat)
    requires c in s
    ensures k < |s| && s[k] == c && c !in s[..k]
  {
    if s[0] == c then 0
    else
      var k := 1 + IndexOf(s[1..], c);
      assert s[..k] == [s[0]] + s[1..][..k - 1];
      k
  }

  /** Inverse of `Split`: the parts with one `sep` between neighbours. */
  function Join(parts: seq<string>, sep: char): string
    requires |parts| >= 1
    decreases |parts|
  {
    if |parts| == 1 then parts[0] else parts[0] + [sep] + Join(parts[1..], sep)
  }

  /** Python's `s.split(sep)`: the pieces of `s` between occurrences of `sep`,
      in order; there is one more piece than there are separators, so
      `split(sep)[1]` exists exactly when `sep` occurs in `s`. */
  function Split(s: string, sep: char): (parts: seq<string>)
    ensures |parts| >= 1
    ensures sep in s ==> |parts| >= 2
    decreases |s|
  {
    if sep !in s then [s]
    else
      var k := IndexOf(s, sep);
      [s[..k]] + Split(s[k + 1..], sep)
  }

  /** There is a second piece exactly when the separator occurs. */
  lemma SplitHasSecond(s: string, sep: char)
    ensures |Split(s, sep)| >= 2 <==> sep in s
  {
  }

  /** The pieces of `Split` hold no separator. */
  lemma {:induction false} SplitPiecesFree(s: string, sep: char)
    ensures forall i :: 0 <= i < |Split(s, sep)| ==> sep !in Split(s, sep)[i]
    decreases |s|
  {
    if sep in s {
      var k := IndexOf(s, sep);
      var rest := Split(s[k + 1..], sep);
      SplitPiecesFree(s[k + 1..], sep);
      var parts := [s[..k]] + rest;
      assert parts == Split(s, sep);
      forall i | 1 <= i < |parts| ensures sep !in parts[i] {
        assert parts[i] == rest[i - 1];
      }
    }
  }

  /** One step of `Split` past the first separator. */
  lemma SplitStep(s: string, sep: char)
    requires sep in s
    ensures var k := IndexOf(s, sep);
      Split(s, sep) == [s[..k]] + Split(s[k + 1..], sep)
  {
  }

  lemma JoinCons(head: string, rest: seq<string>, sep: char)
    requires |rest| >= 1
    ensures Join([head] + rest, sep) == head + [sep] + Join(rest, sep)
  {
    assert ([head] + rest)[1..] == rest;
  }

  /** The pieces of `Split` join back to the input. */
  lemma {:induction false} SplitJoin(s: string, sep: char)
    ensures Join(Split(s, sep), sep) == s
    decreases |s|
  {
    if sep in s {
      var k := IndexOf(s, sep);
      var head, tail := s[..k], s[k + 1..];
      SplitJoin(tail, sep);
      JoinCons(head, Split(tail, sep), sep);
      assert s == head + [sep] + tail;
    }
  }

  /** A separator with none before it is the first one. */
  lemma FirstAt(s: string, sep: char, k: nat)
    requires k < |s| && s[k] == sep && sep !in s[..k]
    ensures IndexOf(s, sep) == k
  {
  }

  /** A string with exactly one separator splits into the text before it and
      the text after it. */
  lemma SplitOnce(s: string, sep: char, k: nat)
    requires k < |s| && s[k] == sep && sep !in s[..k] && sep !in s[k + 1..]
    ensures Split(s, sep) == [s[..k], s[k + 1..]]
  {
    FirstAt(s, sep, k);
    SplitStep(s, sep);
  }

  /** `Split` is the only way to cut `s` into `sep`-free pieces that join back to `s`. */
  lemma {:induction false} SplitUnique(s: string, sep: char, parts: seq<string>)
    requires |parts| >= 1
    requires forall i :: 0 <= i < |parts| ==> sep !in parts[i]
    requires Join(parts, sep) == s
    ensures parts == Split(s, sep)
    decreases |parts|
  {
    if |parts| == 1 {
      assert sep !in s;
    } else {
      var head, tail := parts[0], parts[1..];
      var rest := Join(tail, sep);
      assert parts == [head] + tail;
      JoinCons(head, tail, sep);
      assert s == head + [sep] + rest;
      assert s[|head|] == sep;
      assert s[..|head|] == head;
      FirstAt(s, sep, |head|);
      assert s[|head| + 1..] == rest;
      forall i | 0 <= i < |tail| ensures sep !in tail[i] {
        assert tail[i] == parts[i + 1];
      }
      SplitUnique(rest, sep, tail);
      SplitStep(s, sep);
    }
  }

  /** Python's `s.split(sep)[1]`: the text between the first `sep` and the
      next one (or the end of `s`). */
  lemma SecondField(s: string, sep: char)
    requires sep in s
    ensures var r := Split(s, sep)[1];
      sep !in r &&
      exists k :: 0 <= k < |s| && s[k] == sep && sep !in s[..k] &&
        StartsWith(s[k + 1..], r) &&
        (k + 1 + |r| == |s| || s[k + 1 + |r|] == sep)
  {
    var k := IndexOf(s, sep);
    var rest := s[k + 1..];
    SplitStep(s, sep);
    var r := Split(rest, sep)[0];
    assert Split(s, sep)[1] == r;
    if sep in rest {
      var m := IndexOf(rest, sep);
      SplitStep(rest, sep);
      assert r == rest[..m];
      assert s[k + 1 + m] == rest[m] == sep;
    } else {
      assert Split(rest, sep) == [rest];
    }
    assert StartsWith(rest, r);
  }

  /** The number of leading whitespace characters of `s`. */
  function LeadingSpaces(s: string): (k: nat)
    ensures k <= |s| && AllSpaces(s[..k])
    ensures k < |s| ==> !IsSpace(s[k])
  {
    if |s| > 0 && IsSpace(s[0]) then
      var k := 1 + LeadingSpaces(s[1..]);
      assert s[..k] == [s[0]] + s[1..][..k - 1];
      k
    else 0
  }

  /** The length of `s` without its trailing whitespace. */
  function TrailingStart(s: string): (k: nat)
    ensures k <= |s| && AllSpaces(s[k..])
    ensures k > 0 ==> !IsSpace(s[k - 1])
  {
    if |s| > 0 && IsSpace(s[|s| - 1]) then
      var k := TrailingStart(s[..|s| - 1]);
      assert s[k..] == s[..|s| - 1][k..] + [s[|s| - 1]];
      k
    else |s|
  }

  /** Python's `s.strip()`: `s` without leading and trailing whitespace. The
      result is a slice of `s` whose cut-off ends are all whitespace and which
      neither starts nor ends with whitespace itself. */
  function Strip(s: string): (r: string)
    ensures exists lo, hi :: 0 <= lo <= hi <= |s| && r == s[lo..hi] && AllSpaces(s[..lo]) && AllSpaces(s[hi..])
    ensures r == [] || (!IsSpace(r[0]) && !IsSpace(r[|r| - 1]))
  {
    var lo := LeadingSpaces(s);
    var t := s[lo..];
    var n := TrailingStart(t);
    assert t[..n] == s[lo..lo + n];
    assert s[lo + n..] == t[n..];
    assert n > 0 ==> t[0] == s[lo];
    t[..n]
  }

  /** Stripping twice is stripping once. */
  lemma StripIdempotent(s: string)
    ensures Strip(Strip(s)) == Strip(s)
  {
    var r := Strip(s);
    assert LeadingSpaces(r) == 0;
    assert TrailingStart(r) == |r|;
  }
}
