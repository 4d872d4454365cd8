/** Searching a tree's strict descendants in document order: the first match
    (`find`) and the last one (the final element of `find_all`'s result). */
module Search {
  import opened Html

  /** Position of the first strict descendant of `n` that `sel` matches. */
  function FirstMatch(n: Node, sel: Selector): (r: Option<Path>)
    ensures r.Some? ==> IsMatchAt(n, sel, r.value)
    decreases n, 1
  {
    match n
    case Text(_) => None
    case Element(_, _, children) => FirstMatchFrom(n, children, sel, 0)
  }

  /** First match among the subtrees of the children `cs[i..]` of `n`, in order. */
  function FirstMatchFrom(n: Node, cs: seq<Node>, sel: Selector, i: nat): (r: Option<Path>)
    requires n.Element? && cs == n.children && i <= |cs|
    ensures r.Some? ==> IsMatchAt(n, sel, r.value) && r.value[0] >= i
    decreases cs, |cs| - i
  {
    if i == |cs| then None
    else if Matches(cs[i], sel) then
      ChildPath(n, i, []);
      assert [i] + [] == [i];
      Some([i])
    else match FirstMatch(cs[i], sel)
      case Some(p) =>
        ChildPath(n, i, p);
        Some([i] + p)
      case None => FirstMatchFrom(n, cs, sel, i + 1)
  }

  /** Position of the last strict descendant of `n` that `sel` matches. */
  function LastMatch(n: Node, sel: Selector): (r: Option<Path>)
    ensures r.Some? ==> IsMatchAt(n, sel, r.value)
    decreases n, 1
  {
    match n
    case Text(_) => None
    case Element(_, _, children) => LastMatchBefore(n, children, sel, |children|)
  }

  /** Last match among the subtrees of the children `cs[..i]` of `n`; a child's
      own descendants come after the child itself, so they are searched first. */
  function LastMatchBefore(n: Node, cs: seq<Node>, sel: Selector, i: nat): (r: Option<Path>)
    requires n.Element? && cs == n.children && i <= |cs|
    ensures r.Some? ==> IsMatchAt(n, sel, r.value) && r.value[0] < i
    decreases cs, i
  {
    if i == 0 then None
    else match LastMatch(cs[i - 1], sel)
      case Some(p) =>
        ChildPath(n, i - 1, p);
        Some([i - 1] + p)
      case None =>
        if Matches(cs[i - 1], sel) then
          ChildPath(n, i - 1, []);
          assert [i - 1] + [] == [i - 1];
          Some([i - 1])
        else LastMatchBefore(n, cs, sel, i - 1)
  }

  /** A match position below child `j` of `n` is `[j]` or `[j]` followed by a
      match position inside that child. */
  lemma MatchBelowChild(n: Node, sel: Selector, q: Path)
    requires IsMatchAt(n, sel, q)
    ensures n.Element? && q[0] < |n.children|
    ensures q == [q[0]] + q[1..]
    ensures |q| == 1 ==> Matches(n.children[q[0]], sel)
    ensures |q| > 1 ==> IsMatchAt(n.children[q[0]], sel, q[1..])
  {
    ChildPath(n, q[0], q[1..]);
  }

  /** `FirstMatch` finds a match exactly when there is one, and no match comes
      before the one it finds. */
  lemma {:induction false} FirstMatchIsFirst(n: Node, sel: Selector)
    ensures FirstMatch(n, sel).None? <==> forall q :: !IsMatchAt(n, sel, q)
    ensures FirstMatch(n, sel).Some? ==>
              forall q :: IsMatchAt(n, sel, q) ==> !Precedes(q, FirstMatch(n, sel).value)
    decreases n, 1
  {
    if n.Element? {
      FirstMatchFromIsFirst(n, sel, 0);
    } else {
      forall q | |q| > 0
        ensures !ValidPath(n, q)
      {
      }
    }
  }

  lemma {:induction false} FirstMatchFromIsFirst(n: Node, sel: Selector, i: nat)
    requires n.Element? && i <= |n.children|
    ensures var r := FirstMatchFrom(n, n.children, sel, i);
            && (r.None? ==> forall q :: IsMatchAt(n, sel, q) ==> q[0] < i)
            && (r.Some? ==> forall q :: IsMatchAt(n, sel, q) && q[0] >= i ==> !Precedes(q, r.value))
    decreases n, 0, |n.children| - i
  {
    var cs := n.children;
    if i < |cs| {
      var c := cs[i];
      FirstMatchIsFirst(c, sel);
      var r := FirstMatchFrom(n, cs, sel, i);
      if Matches(c, sel) {
        forall q | IsMatchAt(n, sel, q) && q[0] >= i
          ensures !Precedes(q, r.value)
        {
          MatchBelowChild(n, sel, q);
        }
      } else if FirstMatch(c, sel).Some? {
        var p := FirstMatch(c, sel).value;
        forall q | IsMatchAt(n, sel, q) && q[0] >= i
          ensures !Precedes(q, r.value)
        {
          MatchBelowChild(n, sel, q);
          assert r.value == [i] + p;
          if q[0] == i {
            assert ([i] + p)[1..] == p;
          }
        }
      } else {
        FirstMatchFromIsFirst(n, sel, i + 1);
        forall q | IsMatchAt(n, sel, q)
          ensures q[0] != i
        {
          MatchBelowChild(n, sel, q);
        }
      }
    }
  }

  /** `LastMatch` finds a match exactly when there is one, and every other match
      comes before the one it finds. */
  lemma {:induction false} LastMatchIsLast(n: Node, sel: Selector)
    ensures LastMatch(n, sel).None? <==> forall q :: !IsMatchAt(n, sel, q)
    ensures LastMatch(n, sel).Some? ==>
              forall q :: IsMatchAt(n, sel, q) ==>
                q == LastMatch(n, sel).value || Precedes(q, LastMatch(n, sel).value)
    decreases n, 1
  {
    if n.Element? {
      LastMatchBeforeIsLast(n, sel, |n.children|);
      forall q | IsMatchAt(n, sel, q)
        ensures q[0] < |n.children|
      {
        MatchBelowChild(n, sel, q);
      }
    } else {
      forall q | |q| > 0
        ensures !ValidPath(n, q)
      {
      }
    }
  }

  lemma {:induction false} LastMatchBeforeIsLast(n: Node, sel: Selector, i: nat)
    requires n.Element? && i <= |n.children|
    ensures var r := LastMatchBefore(n, n.children, sel, i);
            && (r.None? ==> forall q :: IsMatchAt(n, sel, q) ==> q[0] >= i)
            && (r.Some? ==> forall q :: IsMatchAt(n, sel, q) && q[0] < i ==>
                              q == r.value || Precedes(q, r.value))
    decreases n, 0, i
  {
    var cs := n.children;
    if i > 0 {
      var j := i - 1;
      var c := cs[j];
      LastMatchIsLast(c, sel);
      var r := LastMatchBefore(n, cs, sel, i);
      if LastMatch(c, sel).Some? {
        var p := LastMatch(c, sel).value;
        assert r.value == [j] + p;
        assert ([j] + p)[0] == j && ([j] + p)[1..] == p;
        forall q | IsMatchAt(n, sel, q) && q[0] < i
          ensures q == r.value || Precedes(q, r.value)
        {
          MatchBelowChild(n, sel, q);
          if q[0] == j && |q| == 1 {
            PrecedesDescendant([j], p);
          }
        }
      } else if Matches(c, sel) {
        forall q | IsMatchAt(n, sel, q) && q[0] < i
          ensures q == r.value || Precedes(q, r.value)
        {
          MatchBelowChild(n, sel, q);
        }
      } else {
        LastMatchBeforeIsLast(n, sel, j);
        forall q | IsMatchAt(n, sel, q)
          ensures q[0] != j
        {
          MatchBelowChild(n, sel, q);
        }
      }
    }
  }

  /** With document order total, every match other than the first comes after it. */
  lemma FirstMatchPrecedesOthers(n: Node, sel: Selector, q: Path)
    requires IsMatchAt(n, sel, q)
    ensures FirstMatch(n, sel).Some?
    ensures q == FirstMatch(n, sel).value || Precedes(FirstMatch(n, sel).value, q)
  {
    FirstMatchIsFirst(n, sel);
    if q != FirstMatch(n, sel).value {
      PrecedesTotal(q, FirstMatch(n, sel).value);
    }
  }

  /** The positions `ps` taken inside child `i`. */
  function Below(i: nat, ps: seq<Path>): (r: seq<Path>)
    ensures |r| == |ps|
  {
    seq(|ps|, k requires 0 <= k < |ps| => [i] + ps[k])
  }

  /** Strictly increasing in document order (so also free of repeats). */
  predicate InDocumentOrder(ps: seq<Path>)
  {
    forall a, b :: 0 <= a < b < |ps| ==> Precedes(ps[a], ps[b])
  }

  /** The list `find_all` returns: every strict descendant of `n` that `sel`
      matches, in document order. */
  function FindAll(n: Node, sel: Selector): seq<Path>
    decreases n, 1
  {
    match n
    case Text(_) => []
    case Element(_, _, children) => FindAllFrom(n, children, sel, 0)
  }

  /** The matches among the children `cs[i..]` of `n` and inside them: each
      child first, then its own matches, then the later children. */
  function FindAllFrom(n: Node, cs: seq<Node>, sel: Selector, i: nat): seq<Path>
    requires n.Element? && cs == n.children && i <= |cs|
    decreases cs, |cs| - i
  {
    if i == |cs| then []
    else (if Matches(cs[i], sel) then [[i]] else []) + Below(i, FindAll(cs[i], sel))
         + FindAllFrom(n, cs, sel, i + 1)
  }

  lemma BelowMembers(i: nat, ps: seq<Path>, q: Path)
    ensures q in Below(i, ps) <==> |q| > 0 && q[0] == i && q[1..] in ps
  {
    if q in Below(i, ps) {
      var k :| 0 <= k < |ps| && Below(i, ps)[k] == q;
      assert q[1..] == ps[k];
    }
    if |q| > 0 && q[0] == i && q[1..] in ps {
      var k :| 0 <= k < |ps| && ps[k] == q[1..];
      assert q == [i] + q[1..];
      assert Below(i, ps)[k] == q;
    }
  }

  lemma BelowInDocumentOrder(i: nat, ps: seq<Path>)
    requires InDocumentOrder(ps)
    ensures InDocumentOrder(Below(i, ps))
  {
  }

  lemma InDocumentOrderAppend(xs: seq<Path>, ys: seq<Path>)
    requires InDocumentOrder(xs) && InDocumentOrder(ys)
    requires forall a, b :: 0 <= a < |xs| && 0 <= b < |ys| ==> Precedes(xs[a], ys[b])
    ensures InDocumentOrder(xs + ys)
  {
  }

  /** `find_all` lists exactly the match positions. */
  lemma {:induction false} FindAllMatches(n: Node, sel: Selector, q: Path)
    ensures q in FindAll(n, sel) <==> IsMatchAt(n, sel, q)
    decreases n, 1
  {
    if n.Element? {
      FindAllFromMatches(n, sel, 0, q);
      if IsMatchAt(n, sel, q) {
        MatchBelowChild(n, sel, q);
      }
    } else {
      assert |q| > 0 ==> !ValidPath(n, q);
    }
  }

  lemma {:induction false} FindAllFromMatches(n: Node, sel: Selector, i: nat, q: Path)
    requires n.Element? && i <= |n.children|
    ensures q in FindAllFrom(n, n.children, sel, i) <==> IsMatchAt(n, sel, q) && q[0] >= i
    decreases n, 0, |n.children| - i
  {
    var cs := n.children;
    if i == |cs| {
      if IsMatchAt(n, sel, q) {
        MatchBelowChild(n, sel, q);
      }
    } else {
      var head := if Matches(cs[i], sel) then [[i]] else [];
      var below := Below(i, FindAll(cs[i], sel));
      var tail := FindAllFrom(n, cs, sel, i + 1);
      assert FindAllFrom(n, cs, sel, i) == (head + below) + tail;
      FindAllFromMatches(n, sel, i + 1, q);
      FindAllChildMatches(n, sel, i, q);
    }
  }

  /** What child `i` contributes to `find_all`'s list: the matches at or below it. */
  lemma {:induction false} FindAllChildMatches(n: Node, sel: Selector, i: nat, q: Path)
    requires n.Element? && i < |n.children|
    ensures var head := if Matches(n.children[i], sel) then [[i]] else [];
            q in head + Below(i, FindAll(n.children[i], sel)) <==> IsMatchAt(n, sel, q) && q[0] == i
    decreases n, 0, |n.children| - i, 0
  {
    var c := n.children[i];
    BelowMembers(i, FindAll(c, sel), q);
    if |q| > 0 && q[0] == i {
      FindAllMatches(c, sel, q[1..]);
      ChildPath(n, i, q[1..]);
      assert q == [i] + q[1..];
      if |q| == 1 {
        assert q == [i];
      }
    }
  }

  /** `find_all` lists the matches in document order, each once. */
  lemma {:induction false} FindAllInDocumentOrder(n: Node, sel: Selector)
    ensures InDocumentOrder(FindAll(n, sel))
    decreases n, 1
  {
    if n.Element? {
      FindAllFromInDocumentOrder(n, sel, 0);
    }
  }

  lemma {:induction false} FindAllFromInDocumentOrder(n: Node, sel: Selector, i: nat)
    requires n.Element? && i <= |n.children|
    ensures InDocumentOrder(FindAllFrom(n, n.children, sel, i))
    decreases n, 0, |n.children| - i
  {
    var cs := n.children;
    if i < |cs| {
      var inner := FindAll(cs[i], sel);
      var head := if Matches(cs[i], sel) then [[i]] else [];
      var below := Below(i, inner);
      var tail := FindAllFrom(n, cs, sel, i + 1);
      FindAllInDocumentOrder(cs[i], sel);
      BelowInDocumentOrder(i, inner);
      FindAllFromInDocumentOrder(n, sel, i + 1);
      forall b | 0 <= b < |below|
        ensures below[b][0] == i && |below[b]| > 1
      {
        FindAllMatches(cs[i], sel, inner[b]);
      }
      forall b | 0 <= b < |tail|
        ensures |tail[b]| > 0 && tail[b][0] > i
      {
        FindAllFromMatches(n, sel, i + 1, tail[b]);
      }
      forall a, b | 0 <= a < |head| && 0 <= b < |below|
        ensures Precedes(head[a], below[b])
      {
        assert head[a] == [i] && head[a][1..] == [];
      }
      InDocumentOrderAppend(head, below);
      forall a, b | 0 <= a < |head + below| && 0 <= b < |tail|
        ensures Precedes((head + below)[a], tail[b])
      {
        if a >= |head| {
          assert (head + below)[a] == below[a - |head|];
        }
      }
      InDocumentOrderAppend(head + below, tail);
      assert FindAllFrom(n, cs, sel, i) == head + below + tail;
    }
  }

  /** `find` returns the first element of `find_all`'s list. */
  lemma FirstMatchIsFirstFound(n: Node, sel: Selector)
    ensures FirstMatch(n, sel).None? <==> |FindAll(n, sel)| == 0
    ensures FirstMatch(n, sel).Some? ==> FirstMatch(n, sel).value == FindAll(n, sel)[0]
  {
    var all := FindAll(n, sel);
    FirstMatchIsFirst(n, sel);
    FindAllInDocumentOrder(n, sel);
    if |all| > 0 {
      FindAllMatches(n, sel, all[0]);
    }
    if FirstMatch(n, sel).Some? {
      var p := FirstMatch(n, sel).value;
      FindAllMatches(n, sel, p);
      var k :| 0 <= k < |all| && all[k] == p;
    }
  }

  /** The search for the last match finds the last element of `find_all`'s list. */
  lemma LastMatchIsLastFound(n: Node, sel: Selector)
    ensures LastMatch(n, sel).None? <==> |FindAll(n, sel)| == 0
    ensures LastMatch(n, sel).Some? ==> LastMatch(n, sel).value == FindAll(n, sel)[|FindAll(n, sel)| - 1]
  {
    var all := FindAll(n, sel);
    LastMatchIsLast(n, sel);
    FindAllInDocumentOrder(n, sel);
    if |all| > 0 {
      FindAllMatches(n, sel, all[0]);
    }
    if LastMatch(n, sel).Some? {
      var p := LastMatch(n, sel).value;
      FindAllMatches(n, sel, p);
      var k :| 0 <= k < |all| && all[k] == p;
      var l := all[|all| - 1];
      FindAllMatches(n, sel, l);
      if k < |all| - 1 {
        assert Precedes(p, l);
        if l != p {
          PrecedesTransitive(p, l, p);
        }
        PrecedesIrreflexive(p);
      }
    }
  }
}
