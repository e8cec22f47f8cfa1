/** `DomainList` (wulib/network.py): a whitelist/blacklist of domain names kept as a
    tree that mirrors the DNS hierarchy. Each listed name is split on '.', its labels
    are reversed (top-level domain first) and the path is created in the tree; the
    node the path ends at gets the sentinel that Python stores under the key `1`.
    A query walks its own reversed labels as far as the tree allows and answers
    whether the deepest node it reached carries the sentinel. */
module Dns {
  import opened Wrappers
  import opened PyStr

  /** One dict of the tree: its label-keyed children and whether the sentinel key `1`
      is present. Python keeps both in the same dict; the int key 1 never collides with
      a string label. */
  datatype Node = Node(children: map<string, Node>, terminus: bool)

  /** A freshly created `{}`. */
  const Empty := Node(map[], false)

  /** The path a list line is inserted along: `line.strip().split('.')`, reversed. */
  function LineLabels(line: string): seq<string> {
    Reverse(Split(Strip(line), '.'))
  }

  /** The path a query walks: `domain.split('.')`, reversed (queries are not stripped). */
  function QueryLabels(domain: string): seq<string> {
    Reverse(Split(domain, '.'))
  }

  /** The node at the end of `path`, if every label along it exists. */
  function Find(n: Node, path: seq<string>): Option<Node>
    decreases |path|
  {
    if path == [] then Some(n)
    else if path[0] in n.children then Find(n.children[path[0]], path[1..])
    else None
  }

  /** `path` ends exactly at a node carrying the sentinel. */
  predicate Listed(n: Node, path: seq<string>) {
    Find(n, path).Some? && Find(n, path).value.terminus
  }

  /** Adds `path` to the tree, creating the missing children, and sets the sentinel at
      its end (the body of the loop over the lines of the file). */
  function Insert(n: Node, path: seq<string>): Node
    decreases |path|
  {
    if path == [] then n.(terminus := true)
    else
      var child := if path[0] in n.children then n.children[path[0]] else Empty;
      n.(children := n.children[path[0] := Insert(child, path[1..])])
  }

  /** The tree after inserting every line, in order. */
  function Build(lines: seq<string>): Node {
    if lines == [] then Empty
    else Insert(Build(lines[..|lines| - 1]), LineLabels(lines[|lines| - 1]))
  }

  /** How many labels of `path` the query walk consumes before a label is missing. */
  function Depth(n: Node, path: seq<string>): (k: nat)
    ensures k <= |path|
    decreases |path|
  {
    if path != [] && path[0] in n.children then 1 + Depth(n.children[path[0]], path[1..])
    else 0
  }

  /** The deepest node the query walk reaches; a missing label stops it silently. */
  function Walk(n: Node, path: seq<string>): Node
    decreases |path|
  {
    if path != [] && path[0] in n.children then Walk(n.children[path[0]], path[1..])
    else n
  }

  /** The answer of `__contains__`: the sentinel of the deepest node reached. */
  predicate Covers(n: Node, path: seq<string>) {
    Walk(n, path).terminus
  }

  class DomainList {
    var tree: Node

    /** Builds the tree from the lines of the list file, one insertion per line. */
    constructor (lines: seq<string>)
      ensures tree == Build(lines)
    {
      tree := Empty;
      new;
      var i := 0;
      while i < |lines|
        invariant 0 <= i <= |lines|
        invariant tree == Build(lines[..i])
      {
        assert lines[..i + 1][..i] == lines[..i];
        tree := Insert(tree, LineLabels(lines[i]));
        i := i + 1;
      }
      assert lines[..|lines|] == lines;
    }

    /** `domain in self`: walks the reversed labels, stops at the first missing one, and
        reports whether the node reached carries the sentinel. Changes nothing. */
    method Contains(domain: string) returns (found: bool)
      ensures found == Covers(tree, QueryLabels(domain))
    {
      found := ContainsPath(QueryLabels(domain));
    }

    /** The walk of `__contains__` over an already reversed label path. */
    method ContainsPath(labels: seq<string>) returns (found: bool)
      ensures found == Covers(tree, labels)
      ensures found <==> Listed(tree, labels[..Depth(tree, labels)])
    {
      var node := tree;
      var i := 0;
      while i < |labels|
        invariant 0 <= i <= |labels|
        invariant Find(tree, labels[..i]) == Some(node)
        invariant Walk(tree, labels) == Walk(node, labels[i..])
        invariant Depth(tree, labels) == i + Depth(node, labels[i..])
      {
        if labels[i] !in node.children {
          break;
        }
        FindExtend(tree, labels[..i], node, labels[i]);
        assert labels[..i + 1] == labels[..i] + [labels[i]];
        assert labels[i..][1..] == labels[i + 1..];
        node := node.children[labels[i]];
        i := i + 1;
      }
      found := node.terminus;
      assert Depth(tree, labels) == i;
    }
  }

  /** Extending a found path by an existing child label finds that child. */
  lemma {:induction false} FindExtend(n: Node, p: seq<string>, m: Node, a: string)
    requires Find(n, p) == Some(m) && a in m.children
    ensures Find(n, p + [a]) == Some(m.children[a])
    decreases |p|
  {
    if p == [] {
      assert [a][1..] == [];
    } else {
      assert (p + [a])[1..] == p[1..] + [a];
      FindExtend(n.children[p[0]], p[1..], m, a);
    }
  }

  /** A fresh node lists no path at all. */
  lemma EmptyListsNothing(q: seq<string>)
    ensures !Listed(Empty, q)
  {
  }

  /** Inserting `p` lists exactly one more path, `p` itself; every other path keeps its
      status. */
  lemma {:induction false} InsertListed(n: Node, p: seq<string>, q: seq<string>)
    ensures Listed(Insert(n, p), q) <==> Listed(n, q) || q == p
    decreases |p|
  {
    if p == [] {
      if q != [] {
        assert Insert(n, p).children == n.children;
      }
    } else if q == [] {
    } else if q[0] != p[0] {
      var child := if p[0] in n.children then n.children[p[0]] else Empty;
      assert Insert(n, p).children == n.children[p[0] := Insert(child, p[1..])];
      assert Find(Insert(n, p), q) == Find(n, q);
    } else {
      var child := if p[0] in n.children then n.children[p[0]] else Empty;
      InsertListed(child, p[1..], q[1..]);
      if p[0] !in n.children {
        EmptyListsNothing(q[1..]);
      }
      assert q == p <==> q[1..] == p[1..] by {
        if q[1..] == p[1..] {
          assert q == [q[0]] + q[1..] && p == [p[0]] + p[1..];
        }
      }
    }
  }

  /** Every line yields at least one label, so no line's path is the empty path. */
  lemma LineLabelsNonEmpty(line: string)
    ensures |LineLabels(line)| >= 1
  {
  }

  /** `path` is the reversed label path of some line of the list. */
  ghost predicate IsLinePath(lines: seq<string>, path: seq<string>) {
    exists k :: 0 <= k < |lines| && LineLabels(lines[k]) == path
  }

  /** The tree's invariant: a node carries the sentinel exactly when some line's
      reversed label path ends at it. */
  lemma {:induction false} BuildListed(lines: seq<string>, p: seq<string>)
    ensures Listed(Build(lines), p) <==> IsLinePath(lines, p)
  {
    if lines == [] {
      EmptyListsNothing(p);
    } else {
      var init := lines[..|lines| - 1];
      BuildListed(init, p);
      InsertListed(Build(init), LineLabels(lines[|lines| - 1]), p);
      if exists k :: 0 <= k < |lines| && LineLabels(lines[k]) == p {
        var k :| 0 <= k < |lines| && LineLabels(lines[k]) == p;
        if k < |lines| - 1 {
          assert init[k] == lines[k];
        }
      }
      if exists k :: 0 <= k < |init| && LineLabels(init[k]) == p {
        var k :| 0 <= k < |init| && LineLabels(init[k]) == p;
        assert lines[k] == init[k];
      }
    }
  }

  /** The root never carries the sentinel. */
  lemma RootNeverListed(lines: seq<string>)
    ensures !Build(lines).terminus
  {
    BuildListed(lines, []);
    forall k | 0 <= k < |lines|
      ensures LineLabels(lines[k]) != []
    {
      LineLabelsNonEmpty(lines[k]);
    }
  }

  /** The walk stops at the node found for the consumed prefix, and stops there because
      the whole path was consumed or the next label is missing. */
  lemma {:induction false} WalkReachesPrefix(n: Node, p: seq<string>)
    ensures Find(n, p[..Depth(n, p)]) == Some(Walk(n, p))
    ensures Depth(n, p) < |p| ==> p[Depth(n, p)] !in Walk(n, p).children
    decreases |p|
  {
    if p != [] && p[0] in n.children {
      WalkReachesPrefix(n.children[p[0]], p[1..]);
      assert p[..Depth(n, p)][1..] == p[1..][..Depth(n.children[p[0]], p[1..])];
    }
  }

  /** The query rule, stated on the built tree: a domain is covered exactly when the
      prefix of its reversed labels that the walk consumes is, as a whole, the path of
      some line of the list. */
  lemma ContainsIffConsumedPrefixIsLine(lines: seq<string>, domain: string)
    ensures var p := QueryLabels(domain);
            Covers(Build(lines), p) <==> IsLinePath(lines, p[..Depth(Build(lines), p)])
  {
    var p := QueryLabels(domain);
    WalkReachesPrefix(Build(lines), p);
    BuildListed(lines, p[..Depth(Build(lines), p)]);
  }

  /** Every listed line, once stripped, is found by a query. */
  lemma ListedLineIsFound(lines: seq<string>, k: nat)
    requires k < |lines|
    ensures Covers(Build(lines), QueryLabels(Strip(lines[k])))
  {
    var p := LineLabels(lines[k]);
    BuildListed(lines, p);
    FullWalk(Build(lines), p);
  }

  /** When the whole path exists, the walk consumes all of it and ends where `Find` does. */
  lemma {:induction false} FullWalk(n: Node, p: seq<string>)
    requires Find(n, p).Some?
    ensures Walk(n, p) == Find(n, p).value && Depth(n, p) == |p|
    decreases |p|
  {
    if p != [] {
      FullWalk(n.children[p[0]], p[1..]);
    }
  }

  /** Covered means a non-empty, label-aligned prefix of the walked path is the path of a
      whole line: a name is never matched through a string suffix of one of its labels. */
  lemma CoveredHasListedAncestor(lines: seq<string>, p: seq<string>)
    requires Covers(Build(lines), p)
    ensures exists j :: 1 <= j <= |p| && IsLinePath(lines, p[..j])
  {
    var d := Depth(Build(lines), p);
    RootNeverListed(lines);
    assert d != 0;
    WalkReachesPrefix(Build(lines), p);
    BuildListed(lines, p[..d]);
  }

  /** A query whose top-level label is not in the tree is never covered. */
  lemma AbsentTldNotCovered(lines: seq<string>, domain: string)
    requires QueryLabels(domain)[0] !in Build(lines).children
    ensures !Covers(Build(lines), QueryLabels(domain))
  {
    RootNeverListed(lines);
  }

  /** Inserting a path that is already listed leaves the tree unchanged. */
  lemma {:induction false} InsertListedUnchanged(n: Node, p: seq<string>)
    requires Listed(n, p)
    ensures Insert(n, p) == n
    decreases |p|
  {
    if p != [] {
      var child := n.children[p[0]];
      InsertListedUnchanged(child, p[1..]);
      assert n.children[p[0] := child] == n.children;
    }
  }

  /** Inserting the same path twice gives the same tree as inserting it once. */
  lemma InsertIdempotent(n: Node, p: seq<string>)
    ensures Insert(Insert(n, p), p) == Insert(n, p)
  {
    InsertListed(n, p, p);
    InsertListedUnchanged(Insert(n, p), p);
  }

  /** Appending a line that is already in the list does not change the tree. */
  lemma RepeatedLineUnchanged(lines: seq<string>, k: nat)
    requires k < |lines|
    ensures Build(lines + [lines[k]]) == Build(lines)
  {
    assert (lines + [lines[k]])[..|lines|] == lines;
    BuildListed(lines, LineLabels(lines[k]));
    InsertListedUnchanged(Build(lines), LineLabels(lines[k]));
  }

  /** `q` is an initial segment of `p`. */
  predicate IsPrefix(q: seq<string>, p: seq<string>) {
    |q| <= |p| && q == p[..|q|]
  }

  /** `path` is an initial segment of some line's reversed label path. */
  ghost predicate IsLinePrefix(lines: seq<string>, path: seq<string>) {
    exists k :: 0 <= k < |lines| && IsPrefix(path, LineLabels(lines[k]))
  }

  /** Inserting `p` creates exactly the nodes for the initial segments of `p`. */
  lemma {:induction false} InsertFound(n: Node, p: seq<string>, q: seq<string>)
    ensures Find(Insert(n, p), q).Some? <==> Find(n, q).Some? || IsPrefix(q, p)
    decreases |p|
  {
    if p == [] {
      if q != [] {
        assert Insert(n, p).children == n.children;
      }
    } else if q == [] {
    } else {
      var child := if p[0] in n.children then n.children[p[0]] else Empty;
      assert Insert(n, p).children == n.children[p[0] := Insert(child, p[1..])];
      if q[0] == p[0] {
        InsertFound(child, p[1..], q[1..]);
        assert IsPrefix(q, p) <==> IsPrefix(q[1..], p[1..]) by {
          if IsPrefix(q[1..], p[1..]) {
            assert q == [q[0]] + q[1..] && p[..|q|] == [p[0]] + p[1..][..|q| - 1];
          }
        }
        if p[0] !in n.children {
          assert Find(Empty, q[1..]).Some? ==> q[1..] == [];
        }
      }
    }
  }

  /** The nodes of the built tree are exactly the root and the initial segments of the
      lines' paths. */
  lemma {:induction false} BuildFound(lines: seq<string>, q: seq<string>)
    ensures Find(Build(lines), q).Some? <==> q == [] || IsLinePrefix(lines, q)
  {
    if lines == [] {
      assert Find(Empty, q).Some? ==> q == [];
    } else {
      var init := lines[..|lines| - 1];
      BuildFound(init, q);
      InsertFound(Build(init), LineLabels(lines[|lines| - 1]), q);
      if IsLinePrefix(lines, q) {
        var k :| 0 <= k < |lines| && IsPrefix(q, LineLabels(lines[k]));
        if k < |lines| - 1 {
          assert init[k] == lines[k];
        }
      }
      if IsLinePrefix(init, q) {
        var k :| 0 <= k < |init| && IsPrefix(q, LineLabels(init[k]));
        assert lines[k] == init[k];
      }
    }
  }

  /** The walk consumes exactly `j` labels when the first `j` exist and the next is missing. */
  lemma {:induction false} DepthAtMissingLabel(n: Node, p: seq<string>, j: nat)
    requires j <= |p| && Find(n, p[..j]).Some?
    requires j < |p| ==> Find(n, p[..j + 1]).None?
    ensures Depth(n, p) == j
    decreases |p|
  {
    if j == 0 {
      if p != [] {
        assert p[..1][1..] == [];
      }
    } else {
      assert p[..j][1..] == p[1..][..j - 1];
      if j < |p| {
        assert p[..j + 1][1..] == p[1..][..j];
      }
      DepthAtMissingLabel(n.children[p[0]], p[1..], j - 1);
    }
  }

  /** Under the deepest-node rule the answer is the sentinel at the longest existing
      prefix of the query: listed there means covered, unlisted there means not covered,
      whatever the nodes above or below it carry. */
  lemma CoveredAtLongestPrefix(lines: seq<string>, p: seq<string>, j: nat)
    requires j <= |p| && (j == 0 || IsLinePrefix(lines, p[..j]))
    requires j < |p| ==> !IsLinePrefix(lines, p[..j + 1])
    ensures Covers(Build(lines), p) <==> IsLinePath(lines, p[..j])
  {
    BuildFound(lines, p[..j]);
    if j < |p| {
      BuildFound(lines, p[..j + 1]);
    }
    DepthAtMissingLabel(Build(lines), p, j);
    WalkReachesPrefix(Build(lines), p);
    BuildListed(lines, p[..j]);
  }

  /** A label as it appears in a list file: no '.', no whitespace. */
  ghost predicate Plain(x: string) {
    '.' !in x && forall k :: 0 <= k < |x| ==> !IsSpace(x[k])
  }

  /** The first label of a name is walked last. */
  lemma QueryLabelsCons(a: string, rest: string)
    requires '.' !in a
    ensures QueryLabels(a + "." + rest) == QueryLabels(rest) + [a]
  {
    SplitAtFirstSeparator(a, '.', rest);
    assert a + "." + rest == a + ['.'] + rest;
    assert ([a] + Split(rest, '.'))[1..] == Split(rest, '.');
  }

  /** A name without whitespace walks the same path as a line and as a query. */
  lemma LineLabelsOfPlain(s: string)
    requires forall k :: 0 <= k < |s| ==> !IsSpace(s[k])
    ensures LineLabels(s) == QueryLabels(s)
  {
    StripTrimmed(s);
  }

  /** `a.b` walks `[b, a]`. */
  lemma Labels2(a: string, b: string)
    requires Plain(a) && Plain(b)
    ensures LineLabels(a + "." + b) == [b, a] && QueryLabels(a + "." + b) == [b, a]
  {
    QueryLabelsCons(a, b);
    SplitWithoutSeparator(b, '.');
    assert Reverse([b]) == [b];
    LineLabelsOfPlain(a + "." + b);
  }

  /** `a.b.c` walks `[c, b, a]`. */
  lemma Labels3(a: string, b: string, c: string)
    requires Plain(a) && Plain(b) && Plain(c)
    ensures LineLabels(a + "." + b + "." + c) == [c, b, a]
    ensures QueryLabels(a + "." + b + "." + c) == [c, b, a]
  {
    Labels2(b, c);
    QueryLabelsCons(a, b + "." + c);
    assert a + "." + b + "." + c == a + "." + (b + "." + c);
    LineLabelsOfPlain(a + "." + b + "." + c);
  }

  /** `a.b.c.d` walks `[d, c, b, a]`. */
  lemma Labels4(a: string, b: string, c: string, d: string)
    requires Plain(a) && Plain(b) && Plain(c) && Plain(d)
    ensures LineLabels(a + "." + b + "." + c + "." + d) == [d, c, b, a]
    ensures QueryLabels(a + "." + b + "." + c + "." + d) == [d, c, b, a]
  {
    Labels3(b, c, d);
    QueryLabelsCons(a, b + "." + c + "." + d);
    assert a + "." + b + "." + c + "." + d == a + "." + (b + "." + c + "." + d);
    LineLabelsOfPlain(a + "." + b + "." + c + "." + d);
  }

  /** The tree of a one-line list. */
  lemma BuildOne(line: string)
    ensures Build([line]) == Insert(Empty, LineLabels(line))
  {
    assert [line][..0] == [];
  }

  /** Listing `example.com` covers `www.example.com` (here `a.b` and `c.a.b`). */
  lemma ParentCoversSubdomain(a: string, b: string, c: string)
    requires Plain(a) && Plain(b) && Plain(c)
    ensures Covers(Build([a + "." + b]), QueryLabels(c + "." + a + "." + b))
  {
    Labels2(a, b);
    Labels3(c, a, b);
    BuildOne(a + "." + b);
    var leaf := Node(map[], true);
    var t := Node(map[b := Node(map[a := leaf], false)], false);
    assert Insert(Empty, [a]) == Node(map[a := leaf], false) by {
      assert [a][1..] == [];
    }
    assert Insert(Empty, [b, a]) == t by {
      assert [b, a][1..] == [a];
    }
    assert Walk(t, [b, a, c]) == leaf by {
      assert [b, a, c][1..] == [a, c];
      assert [a, c][1..] == [c];
      assert Walk(leaf, [c]) == leaf;
      assert Walk(Node(map[a := leaf], false), [a, c]) == leaf;
    }
  }

  /** Listing only `www.example.com` does not cover `example.com`. */
  lemma SubdomainDoesNotCoverParent(a: string, b: string, c: string)
    requires Plain(a) && Plain(b) && Plain(c)
    ensures !Covers(Build([c + "." + a + "." + b]), QueryLabels(a + "." + b))
  {
    Labels2(a, b);
    Labels3(c, a, b);
    BuildOne(c + "." + a + "." + b);
    var leaf := Node(map[], true);
    var na := Node(map[c := leaf], false);
    var t := Node(map[b := Node(map[a := na], false)], false);
    assert Insert(Empty, [c]) == leaf.(terminus := false).(children := map[c := leaf]) by {
      assert [c][1..] == [];
    }
    assert Insert(Empty, [a, c]) == Node(map[a := na], false) by {
      assert [a, c][1..] == [c];
    }
    assert Insert(Empty, [b, a, c]) == t by {
      assert [b, a, c][1..] == [a, c];
    }
    assert Walk(t, [b, a]) == na by {
      assert [b, a][1..] == [a];
      assert [a][1..] == [];
      assert Walk(na, []) == na;
      assert Walk(Node(map[a := na], false), [a]) == na;
    }
  }

  /** `CoveredAtLongestPrefix` for a two-line list whose label paths are `p0` and `p1`. */
  lemma TwoLineCoverage(l0: string, l1: string, p0: seq<string>, p1: seq<string>,
                        p: seq<string>, j: nat)
    requires LineLabels(l0) == p0 && LineLabels(l1) == p1
    requires j <= |p| && (j == 0 || IsPrefix(p[..j], p0) || IsPrefix(p[..j], p1))
    requires j < |p| ==> !IsPrefix(p[..j + 1], p0) && !IsPrefix(p[..j + 1], p1)
    ensures Covers(Build([l0, l1]), p) <==> p[..j] == p0 || p[..j] == p1
  {
    var lines := [l0, l1];
    assert lines[0] == l0 && lines[1] == l1;
    if j > 0 {
      assert IsLinePrefix(lines, p[..j]);
    }
    if j < |p| {
      assert !IsLinePrefix(lines, p[..j + 1]) by {
        forall k | 0 <= k < 2
          ensures !IsPrefix(p[..j + 1], LineLabels(lines[k]))
        {
        }
      }
    }
    CoveredAtLongestPrefix(lines, p, j);
    if p[..j] == p0 || p[..j] == p1 {
      assert IsLinePath(lines, p[..j]);
    }
  }

  /** With `google.com` and `example.com` listed (here `g.c` and `e.c`),
      `mail.google.com` is covered. */
  lemma TwoDomainsCoverSubdomain(g: string, e: string, c: string, m: string)
    requires Plain(g) && Plain(e) && Plain(c) && Plain(m)
    ensures Covers(Build([g + "." + c, e + "." + c]), QueryLabels(m + "." + g + "." + c))
  {
    Labels2(g, c);
    Labels2(e, c);
    Labels3(m, g, c);
    var p := [c, g, m];
    assert p[..2] == [c, g] && p[..3] == p;
    TwoLineCoverage(g + "." + c, e + "." + c, [c, g], [c, e], p, 2);
  }

  /** With `google.com` and `example.com` listed, `google.com.evil.com` is not covered
      (any label `v` other than `g` and `e` in place of `evil`). */
  lemma ListedNameAsLabelsNotCovered(g: string, e: string, c: string, v: string)
    requires Plain(g) && Plain(e) && Plain(c) && Plain(v)
    requires v != g && v != e
    ensures !Covers(Build([g + "." + c, e + "." + c]), QueryLabels(g + "." + c + "." + v + "." + c))
  {
    Labels2(g, c);
    Labels2(e, c);
    Labels4(g, c, v, c);
    var p := [c, v, c, g];
    assert p[..1] == [c] && p[..2] == [c, v];
    assert [c, g][..1] == [c] && [c, g][1] == g && [c, e][1] == e;
    TwoLineCoverage(g + "." + c, e + "." + c, [c, g], [c, e], p, 1);
  }

  /** With `google.com` and `example.com` listed, `evil.com` and `notexample.com` are not
      covered: a label matches only as a whole (any `v` other than `g` and `e`). */
  lemma OtherLabelNotCovered(g: string, e: string, c: string, v: string)
    requires Plain(g) && Plain(e) && Plain(c) && Plain(v)
    requires v != g && v != e
    ensures !Covers(Build([g + "." + c, e + "." + c]), QueryLabels(v + "." + c))
  {
    Labels2(g, c);
    Labels2(e, c);
    Labels2(v, c);
    var p := [c, v];
    assert p[..1] == [c] && p[..2] == p;
    assert [c, g][..1] == [c] && [c, g][1] == g && [c, e][1] == e;
    TwoLineCoverage(g + "." + c, e + "." + c, [c, g], [c, e], p, 1);
  }

  /** Listing `example.com` and `a.b.example.com` (here `e.c` and `a.b.e.c`) does not
      cover `x.b.example.com`: the walk stops at the unlisted node `b.example.com`, and
      the listed `example.com` above it does not count. */
  lemma DeepestNodeDecides(e: string, c: string, a: string, b: string, x: string)
    requires Plain(e) && Plain(c) && Plain(a) && Plain(b) && Plain(x)
    requires x != a
    ensures !Covers(Build([e + "." + c, a + "." + b + "." + e + "." + c]),
                    QueryLabels(x + "." + b + "." + e + "." + c))
  {
    Labels2(e, c);
    Labels4(a, b, e, c);
    Labels4(x, b, e, c);
    var p := [c, e, b, x];
    assert p[..3] == [c, e, b] && p[..4] == p;
    assert [c, e, b, a][..3] == [c, e, b] && [c, e, b, a][3] == a;
    TwoLineCoverage(e + "." + c, a + "." + b + "." + e + "." + c, [c, e], [c, e, b, a], p, 3);
  }

  /** A whitespace-only line strips to the empty name. */
  lemma BlankLineLabels(blank: string)
    requires forall k :: 0 <= k < |blank| ==> IsSpace(blank[k])
    ensures LineLabels(blank) == [""]
  {
    StripLeftDropsSpacePrefix(blank);
    assert StripLeft(blank) == [];
    assert Reverse([""]) == [""];
  }

  /** Blank lines are not skipped: a list holding one whitespace-only line lists the empty
      label, so the empty query is covered, and so is every name written with a trailing
      dot, such as `example.com.` (here `a.b.`), whose first walked label is empty; the
      same name without the dot is not covered. */
  lemma BlankLineCoversTrailingDot(blank: string, a: string, b: string)
    requires forall k :: 0 <= k < |blank| ==> IsSpace(blank[k])
    requires Plain(a) && Plain(b) && b != ""
    ensures Covers(Build([blank]), QueryLabels(""))
    ensures Covers(Build([blank]), QueryLabels(a + "." + b + "."))
    ensures !Covers(Build([blank]), QueryLabels(a + "." + b))
  {
    BlankLineLabels(blank);
    BuildOne(blank);
    var leaf := Node(map[], true);
    var t := Node(map["" := leaf], false);
    assert Insert(Empty, [""]) == t by {
      assert [""][1..] == [];
    }
    assert QueryLabels("") == [""];
    assert Walk(t, [""]) == leaf by {
      assert [""][1..] == [];
    }
    QueryLabelsCons(b, "");
    QueryLabelsCons(a, b + "." + "");
    assert a + "." + b + "." == a + "." + (b + "." + "");
    assert QueryLabels(a + "." + b + ".") == ["", b, a];
    assert Walk(t, ["", b, a]) == leaf by {
      assert ["", b, a][1..] == [b, a];
      assert Walk(leaf, [b, a]) == leaf;
    }
    Labels2(a, b);
    assert Walk(t, [b, a]) == t;
  }
}
