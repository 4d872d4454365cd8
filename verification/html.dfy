/** The parsed markup the cleaning works on: a tree of elements and text, the
    selectors the cleaning hands to the parser's search (`find`/`find_all`),
    and positions inside a tree with their document order. */
module Html {

  datatype Option<T> = None | Some(value: T)

  /** An element keeps its tag name, its class tokens (the class attribute split
      on whitespace) and its children; other attributes play no part here. */
  datatype Node =
    | Element(tag: string, classes: seq<string>, children: seq<Node>)
    | Text(text: string)

  /** The class attribute as one string: the tokens joined by single spaces. */
  function ClassAttribute(classes: seq<string>): string
  {
    if |classes| == 0 then ""
    else if |classes| == 1 then classes[0]
    else classes[0] + " " + ClassAttribute(classes[1..])
  }

  /** What a search asks for: a tag name alone (`find(name)`), a tag name with
      one class token (`find_all(name, class_=token)`), or a tag name with the
      whole class attribute (`find_all(name, attrs={"class": value})`). */
  datatype Selector =
    | TagIs(name: string)
    | HasClass(name: string, token: string)
    | ClassAttributeIs(name: string, value: string)

  predicate Matches(n: Node, sel: Selector)
  {
    && n.Element?
    && n.tag == sel.name
    && match sel
       case TagIs(_) => true
       case HasClass(_, token) => token in n.classes
       case ClassAttributeIs(_, value) => ClassAttribute(n.classes) == value
  }

  /** Whether a selector matches depends only on the root's tag and classes. */
  predicate SameRoot(m: Node, n: Node)
  {
    m.Element? == n.Element? && (n.Element? ==> m.tag == n.tag && m.classes == n.classes)
  }

  lemma SameRootMatches(m: Node, n: Node, sel: Selector)
    requires SameRoot(m, n)
    ensures Matches(m, sel) <==> Matches(n, sel)
  {
  }

  /** A position in a tree: the child index taken at each level, from the root down. */
  type Path = seq<nat>

  predicate ValidPath(n: Node, p: Path)
    decreases p
  {
    |p| == 0 || (n.Element? && p[0] < |n.children| && ValidPath(n.children[p[0]], p[1..]))
  }

  /** The subtree found at position `p`. */
  function At(n: Node, p: Path): Node
    requires ValidPath(n, p)
    decreases p
  {
    if |p| == 0 then n else At(n.children[p[0]], p[1..])
  }

  /** Document order, the order of opening tags in the markup: an ancestor comes
      before its descendants, and an earlier sibling's whole subtree before a
      later sibling. */
  predicate Precedes(p: Path, q: Path)
  {
    |q| > 0 && (|p| == 0 || p[0] < q[0] || (p[0] == q[0] && Precedes(p[1..], q[1..])))
  }

  /** Document order is a strict total order on positions. */
  lemma {:induction false} PrecedesIrreflexive(p: Path)
    ensures !Precedes(p, p)
  {
    if |p| > 0 {
      PrecedesIrreflexive(p[1..]);
    }
  }

  lemma {:induction false} PrecedesTransitive(p: Path, q: Path, s: Path)
    requires Precedes(p, q) && Precedes(q, s)
    ensures Precedes(p, s)
  {
    if |p| > 0 && p[0] == q[0] && q[0] == s[0] {
      PrecedesTransitive(p[1..], q[1..], s[1..]);
    }
  }

  lemma {:induction false} PrecedesTotal(p: Path, q: Path)
    requires p != q
    ensures Precedes(p, q) || Precedes(q, p)
  {
    if |p| > 0 && |q| > 0 && p[0] == q[0] {
      assert p == [p[0]] + p[1..] && q == [q[0]] + q[1..];
      PrecedesTotal(p[1..], q[1..]);
    }
  }

  /** A position inside a subtree comes after the subtree's root. */
  lemma {:induction false} PrecedesDescendant(p: Path, q: Path)
    requires |q| > 0
    ensures Precedes(p, p + q)
  {
    if |p| > 0 {
      assert (p + q)[1..] == p[1..] + q;
      PrecedesDescendant(p[1..], q);
    }
  }

  /** A position that comes before `p` is neither `p` nor inside its subtree. */
  lemma PrecedesNotBelow(q: Path, p: Path)
    requires Precedes(q, p)
    ensures !(p <= q)
  {
  }

  /** `p` is the position of a strict descendant of `n` that `sel` matches:
      one of the elements a search started at `n` reports. */
  ghost predicate IsMatchAt(n: Node, sel: Selector, p: Path)
  {
    |p| > 0 && ValidPath(n, p) && Matches(At(n, p), sel)
  }

  /** Descending one level: the positions below child `i` of `n`. */
  lemma ChildPath(n: Node, i: nat, q: Path)
    requires n.Element? && i < |n.children|
    ensures ValidPath(n, [i] + q) <==> ValidPath(n.children[i], q)
    ensures ValidPath(n, [i] + q) ==> At(n, [i] + q) == At(n.children[i], q)
  {
    assert ([i] + q)[0] == i && ([i] + q)[1..] == q;
  }

  /** The number of nodes in a tree. */
  function Size(n: Node): nat
    decreases n
  {
    match n
    case Text(_) => 1
    case Element(_, _, children) => 1 + SizeAll(children)
  }

  function SizeAll(cs: seq<Node>): nat
    decreases cs
  {
    if |cs| == 0 then 0 else Size(cs[0]) + SizeAll(cs[1..])
  }

  lemma {:induction false} SizeAllAppend(a: seq<Node>, b: seq<Node>)
    ensures SizeAll(a + b) == SizeAll(a) + SizeAll(b)
  {
    if |a| == 0 {
      assert a + b == b;
    } else {
      assert (a + b)[0] == a[0];
      assert (a + b)[1..] == a[1..] + b;
      SizeAllAppend(a[1..], b);
    }
  }

  /** Following `p` and then `s` is following `p + s`. */
  lemma {:induction false} PathConcat(n: Node, p: Path, s: Path)
    requires ValidPath(n, p)
    ensures ValidPath(n, p + s) <==> ValidPath(At(n, p), s)
    ensures ValidPath(n, p + s) ==> At(n, p + s) == At(At(n, p), s)
    decreases p
  {
    if |p| == 0 {
      assert p + s == s;
    } else {
      assert (p + s)[0] == p[0] && (p + s)[1..] == p[1..] + s;
      PathConcat(n.children[p[0]], p[1..], s);
    }
  }
}
