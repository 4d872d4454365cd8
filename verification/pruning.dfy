/** The two ways the cleaning deletes elements: every match of some selectors
    (`find_all` followed by `decompose` on each result), and only the last match
    of one selector in document order. Both search strict descendants only, so
    the element they are called on always stays. */
module Pruning {
  import opened Html
  import opened Search

  predicate MatchesAny(n: Node, sels: seq<Selector>)
  {
    exists k | 0 <= k < |sels| :: Matches(n, sels[k])
  }

  lemma MatchesAnyAppend(n: Node, a: seq<Selector>, b: seq<Selector>)
    ensures MatchesAny(n, a + b) <==> MatchesAny(n, a) || MatchesAny(n, b)
  {
    if MatchesAny(n, a + b) {
      var k :| 0 <= k < |a + b| && Matches(n, (a + b)[k]);
      if k >= |a| {
        assert Matches(n, b[k - |a|]);
      }
    }
    if MatchesAny(n, a) {
      var k :| 0 <= k < |a| && Matches(n, a[k]);
      assert (a + b)[k] == a[k];
    }
    if MatchesAny(n, b) {
      var k :| 0 <= k < |b| && Matches(n, b[k]);
      assert (a + b)[|a| + k] == b[k];
    }
  }

  /** No strict descendant of `n` matches any selector in `sels`. */
  predicate CleanBelow(n: Node, sels: seq<Selector>)
    decreases n
  {
    n.Text? ||
    forall k :: 0 <= k < |n.children| ==>
      !MatchesAny(n.children[k], sels) && CleanBelow(n.children[k], sels)
  }

  /** Every strict descendant of `n` that a selector in `sels` matches is removed
      together with its subtree; everything else stays, in order. */
  function RemoveAll(n: Node, sels: seq<Selector>): (r: Node)
    ensures SameRoot(r, n)
    ensures CleanBelow(r, sels)
    decreases n, 0
  {
    match n
    case Text(_) => n
    case Element(tag, classes, children) => Element(tag, classes, RemoveAllIn(children, sels))
  }

  /** What one child contributes: nothing if it matches, else itself cleaned. */
  function Kept(c: Node, sels: seq<Selector>): seq<Node>
    decreases c, 1
  {
    if MatchesAny(c, sels) then [] else [RemoveAll(c, sels)]
  }

  /** The children that survive, each cleaned in turn. */
  function RemoveAllIn(cs: seq<Node>, sels: seq<Selector>): (r: seq<Node>)
    ensures |r| <= |cs|
    ensures forall k :: 0 <= k < |r| ==> !MatchesAny(r[k], sels) && CleanBelow(r[k], sels)
    decreases cs, 2
  {
    if |cs| == 0 then [] else Kept(cs[0], sels) + RemoveAllIn(cs[1..], sels)
  }

  /** Cleaning a list of children piecewise is cleaning it whole. */
  lemma {:induction false} RemoveAllInAppend(a: seq<Node>, b: seq<Node>, sels: seq<Selector>)
    ensures RemoveAllIn(a + b, sels) == RemoveAllIn(a, sels) + RemoveAllIn(b, sels)
  {
    if |a| == 0 {
      assert a + b == b;
    } else {
      assert (a + b)[0] == a[0];
      assert (a + b)[1..] == a[1..] + b;
      RemoveAllInAppend(a[1..], b, sels);
    }
  }

  /** Meaning of `CleanBelow`: no position below the root holds a match. */
  lemma {:induction false} CleanBelowMeaning(n: Node, sels: seq<Selector>)
    ensures CleanBelow(n, sels)
            <==> forall p :: |p| > 0 && ValidPath(n, p) ==> !MatchesAny(At(n, p), sels)
    decreases n
  {
    if n.Element? {
      if CleanBelow(n, sels) {
        forall p | |p| > 0 && ValidPath(n, p)
          ensures !MatchesAny(At(n, p), sels)
        {
          var c := n.children[p[0]];
          CleanBelowMeaning(c, sels);
          ChildPath(n, p[0], p[1..]);
          assert p == [p[0]] + p[1..];
        }
      }
      if forall p :: |p| > 0 && ValidPath(n, p) ==> !MatchesAny(At(n, p), sels) {
        forall k | 0 <= k < |n.children|
          ensures !MatchesAny(n.children[k], sels) && CleanBelow(n.children[k], sels)
        {
          var c := n.children[k];
          ChildPath(n, k, []);
          assert [k] + [] == [k];
          forall q | |q| > 0 && ValidPath(c, q)
            ensures !MatchesAny(At(c, q), sels)
          {
            ChildPath(n, k, q);
          }
          CleanBelowMeaning(c, sels);
        }
      }
    }
  }

  /** No selectors, no matches. */
  lemma {:induction false} NothingToRemove(n: Node)
    ensures CleanBelow(n, [])
    decreases n
  {
    if n.Element? {
      forall k | 0 <= k < |n.children|
        ensures CleanBelow(n.children[k], [])
      {
        NothingToRemove(n.children[k]);
      }
    }
  }

  /** On a tree with nothing to remove, removal changes nothing. */
  lemma {:induction false} RemoveAllClean(n: Node, sels: seq<Selector>)
    requires CleanBelow(n, sels)
    ensures RemoveAll(n, sels) == n
    decreases n, 1
  {
    if n.Element? {
      RemoveAllInClean(n.children, sels);
    }
  }

  lemma {:induction false} RemoveAllInClean(cs: seq<Node>, sels: seq<Selector>)
    requires forall k :: 0 <= k < |cs| ==> !MatchesAny(cs[k], sels) && CleanBelow(cs[k], sels)
    ensures RemoveAllIn(cs, sels) == cs
    decreases cs, 0
  {
    if |cs| > 0 {
      RemoveAllClean(cs[0], sels);
      RemoveAllInClean(cs[1..], sels);
      assert cs == [cs[0]] + cs[1..];
    }
  }

  /** A second removal pass finds nothing left to remove. */
  lemma RemoveAllIdempotent(n: Node, sels: seq<Selector>)
    ensures RemoveAll(RemoveAll(n, sels), sels) == RemoveAll(n, sels)
  {
    RemoveAllClean(RemoveAll(n, sels), sels);
  }

  /** Removing the matches of `a` and then those of `b` removes the matches of
      either, in one pass. */
  lemma {:induction false} RemoveAllCompose(n: Node, a: seq<Selector>, b: seq<Selector>)
    ensures RemoveAll(RemoveAll(n, a), b) == RemoveAll(n, a + b)
    decreases n, 1
  {
    if n.Element? {
      RemoveAllInCompose(n.children, a, b);
    }
  }

  lemma {:induction false} RemoveAllInCompose(cs: seq<Node>, a: seq<Selector>, b: seq<Selector>)
    ensures RemoveAllIn(RemoveAllIn(cs, a), b) == RemoveAllIn(cs, a + b)
    decreases cs, 0
  {
    if |cs| > 0 {
      var c := cs[0];
      var head := if MatchesAny(c, a) then [] else [RemoveAll(c, a)];
      RemoveAllInAppend(head, RemoveAllIn(cs[1..], a), b);
      RemoveAllInCompose(cs[1..], a, b);
      MatchesAnyAppend(c, a, b);
      if !MatchesAny(c, a) {
        var c' := RemoveAll(c, a);
        assert MatchesAny(c', b) <==> MatchesAny(c, b) by {
          forall k | 0 <= k < |b|
            ensures Matches(c', b[k]) <==> Matches(c, b[k])
          {
            SameRootMatches(c', c, b[k]);
          }
        }
        assert [c'][1..] == [];
        RemoveAllCompose(c, a, b);
      }
    }
  }

  /** `remove_unwanted_elements`' loop: one `find_all`-and-`decompose` pass per
      selector, in the order given. */
  function RemoveEach(n: Node, sels: seq<Selector>): Node
    decreases |sels|
  {
    if |sels| == 0 then n else RemoveEach(RemoveAll(n, [sels[0]]), sels[1..])
  }

  /** The passes one after another amount to a single pass for all selectors. */
  lemma {:induction false} RemoveEachIsRemoveAll(n: Node, sels: seq<Selector>)
    ensures RemoveEach(n, sels) == RemoveAll(n, sels)
    decreases |sels|
  {
    if |sels| == 0 {
      NothingToRemove(n);
      RemoveAllClean(n, []);
    } else {
      RemoveEachIsRemoveAll(RemoveAll(n, [sels[0]]), sels[1..]);
      RemoveAllCompose(n, [sels[0]], sels[1..]);
      assert [sels[0]] + sels[1..] == sels;
    }
  }

  /** No node on the way down from `n` to position `p`, `n` itself excluded,
      matches a selector in `sels`: the node at `p` has no matching ancestor-or-self
      below the root. */
  predicate Unmarked(n: Node, sels: seq<Selector>, p: Path)
    requires ValidPath(n, p)
    decreases p
  {
    |p| == 0 ||
    (!MatchesAny(n.children[p[0]], sels) && Unmarked(n.children[p[0]], sels, p[1..]))
  }

  /** Where position `p` of `n` lies after `RemoveAll(n, sels)`: at each level,
      the child index shifts down by the removed earlier siblings. */
  function Relocate(n: Node, sels: seq<Selector>, p: Path): Path
    requires ValidPath(n, p)
    decreases p
  {
    if |p| == 0 then []
    else [|RemoveAllIn(n.children[..p[0]], sels)|] + Relocate(n.children[p[0]], sels, p[1..])
  }

  /** Splitting the children around a surviving child `i`. */
  lemma RemoveAllInAround(cs: seq<Node>, sels: seq<Selector>, i: nat)
    requires i < |cs| && !MatchesAny(cs[i], sels)
    ensures RemoveAllIn(cs, sels)
            == RemoveAllIn(cs[..i], sels) + [RemoveAll(cs[i], sels)] + RemoveAllIn(cs[i + 1..], sels)
  {
    assert cs == cs[..i] + ([cs[i]] + cs[i + 1..]);
    RemoveAllInAppend(cs[..i], [cs[i]] + cs[i + 1..], sels);
    assert ([cs[i]] + cs[i + 1..])[1..] == cs[i + 1..];
  }

  /** Every node with no matching ancestor-or-self survives, cleaned in turn, at
      its relocated position. */
  lemma {:induction false} SurvivorsKept(n: Node, sels: seq<Selector>, p: Path)
    requires ValidPath(n, p) && Unmarked(n, sels, p)
    ensures ValidPath(RemoveAll(n, sels), Relocate(n, sels, p))
    ensures At(RemoveAll(n, sels), Relocate(n, sels, p)) == RemoveAll(At(n, p), sels)
    decreases p
  {
    if |p| > 0 {
      var cs := n.children;
      var i := p[0];
      RemoveAllInAround(cs, sels, i);
      SurvivorsKept(cs[i], sels, p[1..]);
      var j := |RemoveAllIn(cs[..i], sels)|;
      var r := RemoveAll(n, sels);
      assert r.children[j] == RemoveAll(cs[i], sels);
      ChildPath(r, j, Relocate(cs[i], sels, p[1..]));
    }
  }

  /** Survivors keep their relative document order. */
  lemma {:induction false} RelocateKeepsOrder(n: Node, sels: seq<Selector>, p: Path, q: Path)
    requires ValidPath(n, p) && Unmarked(n, sels, p)
    requires ValidPath(n, q) && Unmarked(n, sels, q)
    requires Precedes(p, q)
    ensures Precedes(Relocate(n, sels, p), Relocate(n, sels, q))
    decreases p
  {
    if |p| > 0 {
      var cs := n.children;
      if p[0] < q[0] {
        assert cs[..q[0]] == cs[..p[0]] + [cs[p[0]]] + cs[p[0] + 1..q[0]];
        RemoveAllInAppend(cs[..p[0]] + [cs[p[0]]], cs[p[0] + 1..q[0]], sels);
        RemoveAllInAppend(cs[..p[0]], [cs[p[0]]], sels);
        assert [cs[p[0]]][1..] == [];
      } else {
        RelocateKeepsOrder(cs[p[0]], sels, p[1..], q[1..]);
      }
    }
  }

  /** Peeling the first child off a list of children. */
  lemma RemoveAllInFirst(cs: seq<Node>, sels: seq<Selector>, i: nat)
    requires i < |cs|
    ensures RemoveAllIn(cs, sels) == RemoveAllIn([cs[0]], sels) + RemoveAllIn(cs[1..], sels)
    ensures RemoveAllIn(cs[..i + 1], sels) == RemoveAllIn([cs[0]], sels) + RemoveAllIn(cs[1..][..i], sels)
    ensures |RemoveAllIn([cs[0]], sels)| == if MatchesAny(cs[0], sels) then 0 else 1
  {
    assert [cs[0]][1..] == [];
    assert cs == [cs[0]] + cs[1..];
    RemoveAllInAppend([cs[0]], cs[1..], sels);
    assert cs[..i + 1] == [cs[0]] + cs[1..][..i];
    RemoveAllInAppend([cs[0]], cs[1..][..i], sels);
  }

  /** A surviving first child is surviving child number 0. */
  lemma SurvivorAtFront(cs: seq<Node>, sels: seq<Selector>)
    requires 0 < |cs| && !MatchesAny(cs[0], sels)
    ensures |RemoveAllIn(cs[..0], sels)| == 0
    ensures 0 < |RemoveAllIn(cs, sels)| && RemoveAllIn(cs, sels)[0] == RemoveAll(cs[0], sels)
  {
  }

  /** A survivor found among `cs[1..]` at index `i` is child `i + 1` of `cs`,
      behind as many more survivors as the first child contributes. */
  lemma SurvivorBehindFront(cs: seq<Node>, sels: seq<Selector>, j: nat, i: nat)
    requires 0 < |cs| && i + 1 < |cs|
    requires |RemoveAllIn([cs[0]], sels)| <= j
    requires && !MatchesAny(cs[1..][i], sels)
             && |RemoveAllIn(cs[1..][..i], sels)| == j - |RemoveAllIn([cs[0]], sels)|
             && j - |RemoveAllIn([cs[0]], sels)| < |RemoveAllIn(cs[1..], sels)|
             && RemoveAllIn(cs[1..], sels)[j - |RemoveAllIn([cs[0]], sels)|] == RemoveAll(cs[1..][i], sels)
    ensures && !MatchesAny(cs[i + 1], sels)
            && |RemoveAllIn(cs[..i + 1], sels)| == j
            && j < |RemoveAllIn(cs, sels)|
            && RemoveAllIn(cs, sels)[j] == RemoveAll(cs[i + 1], sels)
  {
    RemoveAllInFirst(cs, sels, i);
    assert cs[1..][i] == cs[i + 1];
  }

  /** The index of the child that surviving child number `j` comes from. */
  lemma {:induction false} SurvivorIndex(cs: seq<Node>, sels: seq<Selector>, j: nat) returns (i: nat)
    requires j < |RemoveAllIn(cs, sels)|
    ensures && i < |cs|
            && !MatchesAny(cs[i], sels)
            && |RemoveAllIn(cs[..i], sels)| == j
            && RemoveAllIn(cs, sels)[j] == RemoveAll(cs[i], sels)
    decreases cs
  {
    RemoveAllInFirst(cs, sels, 0);
    var skip := |RemoveAllIn([cs[0]], sels)|;
    if skip == 1 && j == 0 {
      SurvivorAtFront(cs, sels);
      i := 0;
    } else {
      var i' := SurvivorIndex(cs[1..], sels, j - skip);
      SurvivorBehindFront(cs, sels, j, i');
      i := i' + 1;
    }
  }

  /** Surviving child number `j` of a list of children comes from a child that
      does not match, with exactly `j` survivors before it. */
  lemma SurvivingChildOrigin(cs: seq<Node>, sels: seq<Selector>, j: nat)
    requires j < |RemoveAllIn(cs, sels)|
    ensures exists i :: && 0 <= i < |cs|
                        && !MatchesAny(cs[i], sels)
                        && |RemoveAllIn(cs[..i], sels)| == j
                        && RemoveAllIn(cs, sels)[j] == RemoveAll(cs[i], sels)
  {
    var i := SurvivorIndex(cs, sels, j);
  }

  /** The original position of the node found at `q` in the cleaned tree. */
  lemma {:induction false} SurvivorPath(n: Node, sels: seq<Selector>, q: Path) returns (p: Path)
    requires ValidPath(RemoveAll(n, sels), q)
    ensures && ValidPath(n, p) && Unmarked(n, sels, p)
            && Relocate(n, sels, p) == q
            && At(RemoveAll(n, sels), q) == RemoveAll(At(n, p), sels)
    decreases q
  {
    if |q| == 0 {
      p := [];
    } else {
      var cs := n.children;
      var i := SurvivorIndex(cs, sels, q[0]);
      var r := RemoveAll(n, sels);
      ChildPath(r, q[0], q[1..]);
      assert q == [q[0]] + q[1..];
      var p' := SurvivorPath(cs[i], sels, q[1..]);
      p := [i] + p';
      ChildPath(n, i, p');
      assert p[0] == i && p[1..] == p';
    }
  }

  /** Only matching subtrees go: every node of the cleaned tree is the cleaned
      image of an original node with no matching ancestor-or-self. */
  lemma OutputFromSurvivor(n: Node, sels: seq<Selector>, q: Path)
    requires ValidPath(RemoveAll(n, sels), q)
    ensures exists p :: && ValidPath(n, p) && Unmarked(n, sels, p)
                        && Relocate(n, sels, p) == q
                        && At(RemoveAll(n, sels), q) == RemoveAll(At(n, p), sels)
  {
    var p := SurvivorPath(n, sels, q);
  }

  /** The tree without the subtree at position `p` (`decompose` on that element). */
  function DeleteAt(n: Node, p: Path): (r: Node)
    requires |p| > 0 && ValidPath(n, p)
    ensures SameRoot(r, n)
    decreases p
  {
    var i := p[0];
    if |p| == 1 then Element(n.tag, n.classes, n.children[..i] + n.children[i + 1..])
    else Element(n.tag, n.classes, n.children[i := DeleteAt(n.children[i], p[1..])])
  }

  /** Deleting a subtree removes exactly its nodes. */
  lemma {:induction false} DeleteAtSize(n: Node, p: Path)
    requires |p| > 0 && ValidPath(n, p)
    ensures Size(DeleteAt(n, p)) + Size(At(n, p)) == Size(n)
    decreases p
  {
    var cs := n.children;
    var i := p[0];
    assert cs == cs[..i] + [cs[i]] + cs[i + 1..];
    SizeAllAppend(cs[..i] + [cs[i]], cs[i + 1..]);
    SizeAllAppend(cs[..i], [cs[i]]);
    if |p| == 1 {
      SizeAllAppend(cs[..i], cs[i + 1..]);
    } else {
      var x := DeleteAt(cs[i], p[1..]);
      DeleteAtSize(cs[i], p[1..]);
      assert cs[i := x] == cs[..i] + [x] + cs[i + 1..];
      SizeAllAppend(cs[..i] + [x], cs[i + 1..]);
      SizeAllAppend(cs[..i], [x]);
    }
  }

  /** `q` is a proper ancestor position of `p`. */
  predicate IsAncestor(q: Path, p: Path)
  {
    |q| < |p| && q == p[..|q|]
  }

  /** Where position `q` lies once the subtree at `p` is deleted: a later
      sibling of `p`, or anything inside one, moves one place to the left at
      the level of `p`; every other position outside the subtree stays put. */
  function AfterDelete(p: Path, q: Path): Path
    requires |p| > 0
    decreases p
  {
    if |q| == 0 then q
    else if |p| == 1 then (if q[0] > p[0] then [q[0] - 1] + q[1..] else q)
    else if q[0] == p[0] then [q[0]] + AfterDelete(p[1..], q[1..])
    else q
  }

  /** Deleting the subtree at `p` keeps every position outside it: the node
      found at its shifted position is the original one, except that an
      ancestor of `p` lost part of its subtree and keeps only its tag and
      classes. Positions before `p` do not move. */
  lemma {:induction false} DeleteAtKeepsRest(n: Node, p: Path, q: Path)
    requires |p| > 0 && ValidPath(n, p)
    requires ValidPath(n, q) && !(p <= q)
    ensures ValidPath(DeleteAt(n, p), AfterDelete(p, q))
    ensures SameRoot(At(DeleteAt(n, p), AfterDelete(p, q)), At(n, q))
    ensures !IsAncestor(q, p) ==> At(DeleteAt(n, p), AfterDelete(p, q)) == At(n, q)
    ensures Precedes(q, p) ==> AfterDelete(p, q) == q
    decreases p
  {
    if |q| > 0 {
      var cs := n.children;
      var i := p[0];
      var r := DeleteAt(n, p);
      var q' := AfterDelete(p, q);
      ChildPath(n, q[0], q[1..]);
      assert q == [q[0]] + q[1..];
      if |p| == 1 {
        assert q[0] != i;
        assert !IsAncestor(q, p);
        if q[0] < i {
          assert r.children[q[0]] == cs[q[0]];
          ChildPath(r, q[0], q[1..]);
        } else {
          assert r.children[q[0] - 1] == cs[q[0]];
          ChildPath(r, q[0] - 1, q[1..]);
          assert q'[0] == q[0] - 1 && q'[1..] == q[1..];
        }
      } else if q[0] != i {
        assert !IsAncestor(q, p);
        assert r.children[q[0]] == cs[q[0]];
        ChildPath(r, q[0], q[1..]);
      } else {
        assert p == [i] + p[1..];
        assert !(p[1..] <= q[1..]);
        DeleteAtKeepsRest(cs[i], p[1..], q[1..]);
        var s := AfterDelete(p[1..], q[1..]);
        assert q' == [i] + s && q'[0] == i && q'[1..] == s;
        ChildPath(r, i, s);
        if IsAncestor(q, p) {
          assert p[..|q|] == [i] + p[1..][..|q| - 1];
        }
        if IsAncestor(q[1..], p[1..]) {
          assert p[..|q|] == [i] + p[1..][..|q| - 1];
        }
      }
    }
  }

  /** The positions outside the deleted subtree keep their document order. */
  lemma {:induction false} AfterDeleteKeepsOrder(p: Path, q: Path, s: Path)
    requires |p| > 0 && !(p <= q) && !(p <= s)
    requires Precedes(q, s)
    ensures Precedes(AfterDelete(p, q), AfterDelete(p, s))
    decreases p
  {
    if |q| > 0 {
      if |p| == 1 {
        assert q[0] != p[0] && s[0] != p[0];
      } else if q[0] == p[0] && s[0] == p[0] {
        assert p == [p[0]] + p[1..];
        AfterDeleteKeepsOrder(p[1..], q[1..], s[1..]);
      }
    }
  }

  /** The number of strict descendants of `n` that `sel` matches: the length of
      the list `find_all` returns. */
  function CountMatches(n: Node, sel: Selector): nat
    decreases n
  {
    match n
    case Text(_) => 0
    case Element(_, _, children) => CountMatchesIn(children, sel)
  }

  /** Matches among the children `cs` and their subtrees. */
  function CountMatchesIn(cs: seq<Node>, sel: Selector): nat
    decreases cs
  {
    if |cs| == 0 then 0
    else (if Matches(cs[0], sel) then 1 else 0) + CountMatches(cs[0], sel) + CountMatchesIn(cs[1..], sel)
  }

  /** A subtree's share of the matches of its parent's children. */
  function Weight(c: Node, sel: Selector): nat
  {
    (if Matches(c, sel) then 1 else 0) + CountMatches(c, sel)
  }

  lemma {:induction false} CountMatchesInAppend(a: seq<Node>, b: seq<Node>, sel: Selector)
    ensures CountMatchesIn(a + b, sel) == CountMatchesIn(a, sel) + CountMatchesIn(b, sel)
  {
    if |a| == 0 {
      assert a + b == b;
    } else {
      assert (a + b)[0] == a[0];
      assert (a + b)[1..] == a[1..] + b;
      CountMatchesInAppend(a[1..], b, sel);
    }
  }

  lemma CountMatchesInAround(cs: seq<Node>, i: nat, sel: Selector)
    requires i < |cs|
    ensures CountMatchesIn(cs, sel)
            == CountMatchesIn(cs[..i], sel) + Weight(cs[i], sel) + CountMatchesIn(cs[i + 1..], sel)
  {
    assert cs == cs[..i] + [cs[i]] + cs[i + 1..];
    CountMatchesInAppend(cs[..i] + [cs[i]], cs[i + 1..], sel);
    CountMatchesInAppend(cs[..i], [cs[i]], sel);
    assert [cs[i]][1..] == [];
  }

  /** Deleting a subtree takes away exactly the matches it contained. */
  lemma {:induction false} DeleteAtCount(n: Node, p: Path, sel: Selector)
    requires |p| > 0 && ValidPath(n, p)
    ensures CountMatches(DeleteAt(n, p), sel) + Weight(At(n, p), sel) == CountMatches(n, sel)
    decreases p
  {
    var cs := n.children;
    var i := p[0];
    CountMatchesInAround(cs, i, sel);
    var r := DeleteAt(n, p);
    if |p| == 1 {
      CountMatchesInAppend(cs[..i], cs[i + 1..], sel);
    } else {
      var x := DeleteAt(cs[i], p[1..]);
      DeleteAtCount(cs[i], p[1..], sel);
      SameRootMatches(x, cs[i], sel);
      CountMatchesInAround(r.children, i, sel);
      assert r.children[..i] == cs[..i] && r.children[i + 1..] == cs[i + 1..];
    }
  }

  /** A tree with a positive count has a match position, and conversely. */
  lemma {:induction false} CountMatchesMeaning(n: Node, sel: Selector)
    ensures CountMatches(n, sel) > 0 <==> exists q :: IsMatchAt(n, sel, q)
    decreases n, 1
  {
    if n.Element? {
      CountMatchesInMeaning(n, sel, 0);
    } else {
      forall q | |q| > 0
        ensures !ValidPath(n, q)
      {
      }
    }
  }

  lemma {:induction false} CountMatchesInMeaning(n: Node, sel: Selector, i: nat)
    requires n.Element? && i <= |n.children|
    ensures CountMatchesIn(n.children[i..], sel) > 0
            <==> exists q :: IsMatchAt(n, sel, q) && q[0] >= i
    decreases n, 0, |n.children| - i
  {
    var cs := n.children;
    if i == |cs| {
      forall q | IsMatchAt(n, sel, q)
        ensures q[0] < i
      {
        MatchBelowChild(n, sel, q);
      }
    } else {
      var c := cs[i];
      assert cs[i..][0] == c && cs[i..][1..] == cs[i + 1..];
      CountMatchesMeaning(c, sel);
      CountMatchesInMeaning(n, sel, i + 1);
      if CountMatchesIn(cs[i..], sel) > 0 {
        if Matches(c, sel) {
          ChildPath(n, i, []);
          assert [i] + [] == [i];
          assert IsMatchAt(n, sel, [i]);
        } else if CountMatches(c, sel) > 0 {
          var q' :| IsMatchAt(c, sel, q');
          ChildPath(n, i, q');
          assert ([i] + q')[0] == i;
          assert IsMatchAt(n, sel, [i] + q');
        }
      }
      if exists q :: IsMatchAt(n, sel, q) && q[0] >= i {
        var q :| IsMatchAt(n, sel, q) && q[0] >= i;
        MatchBelowChild(n, sel, q);
      }
    }
  }

  /** The count is the length of the list `find_all` returns. */
  lemma {:induction false} FindAllLength(n: Node, sel: Selector)
    ensures |FindAll(n, sel)| == CountMatches(n, sel)
    decreases n, 1
  {
    if n.Element? {
      FindAllFromLength(n, sel, 0);
      assert n.children[0..] == n.children;
    }
  }

  lemma {:induction false} FindAllFromLength(n: Node, sel: Selector, i: nat)
    requires n.Element? && i <= |n.children|
    ensures |FindAllFrom(n, n.children, sel, i)| == CountMatchesIn(n.children[i..], sel)
    decreases n, 0, |n.children| - i
  {
    var cs := n.children;
    if i < |cs| {
      assert cs[i..][0] == cs[i] && cs[i..][1..] == cs[i + 1..];
      FindAllLength(cs[i], sel);
      FindAllFromLength(n, sel, i + 1);
    }
  }

  /** `remove_last_element`: `decompose` the last element `find_all` reports, if any. */
  function RemoveLast(n: Node, sel: Selector): (r: Node)
    ensures SameRoot(r, n)
  {
    match LastMatch(n, sel)
    case None => n
    case Some(p) => DeleteAt(n, p)
  }

  /** `remove_last_element` as written: take `find_all`'s list and, when it is
      not empty, `decompose` its last element. */
  lemma RemoveLastDeletesLastFound(n: Node, sel: Selector)
    ensures |FindAll(n, sel)| == 0 ==> RemoveLast(n, sel) == n
    ensures var elements := FindAll(n, sel);
            |elements| > 0 ==> && IsMatchAt(n, sel, elements[|elements| - 1])
                               && RemoveLast(n, sel) == DeleteAt(n, elements[|elements| - 1])
  {
    LastMatchIsLastFound(n, sel);
  }

  /** With no match nothing changes, and with a match something does. */
  lemma RemoveLastUnchangedIffNoMatch(n: Node, sel: Selector)
    ensures RemoveLast(n, sel) == n <==> forall q :: !IsMatchAt(n, sel, q)
  {
    LastMatchIsLast(n, sel);
    if LastMatch(n, sel).Some? {
      DeleteAtSize(n, LastMatch(n, sel).value);
    }
  }

  /** With a match, the subtree removed is the one at the last match position in
      document order. */
  lemma RemoveLastRemovesLastMatch(n: Node, sel: Selector)
    requires exists q :: IsMatchAt(n, sel, q)
    ensures exists p :: && IsMatchAt(n, sel, p)
                        && (forall q :: IsMatchAt(n, sel, q) ==> q == p || Precedes(q, p))
                        && RemoveLast(n, sel) == DeleteAt(n, p)
  {
    LastMatchIsLast(n, sel);
  }

  /** Every match but the last survives at its own position, still a match; one
      that encloses no other match is untouched. */
  lemma EarlierMatchesSurvive(n: Node, sel: Selector, q: Path, later: Path)
    requires IsMatchAt(n, sel, q) && IsMatchAt(n, sel, later) && Precedes(q, later)
    ensures IsMatchAt(RemoveLast(n, sel), sel, q)
    ensures (forall s :: IsMatchAt(n, sel, s) ==> !IsAncestor(q, s))
            ==> At(RemoveLast(n, sel), q) == At(n, q)
  {
    LastMatchIsLast(n, sel);
    var p := LastMatch(n, sel).value;
    if later != p {
      PrecedesTransitive(q, later, p);
    }
    PrecedesNotBelow(q, p);
    DeleteAtKeepsRest(n, p, q);
    SameRootMatches(At(DeleteAt(n, p), q), At(n, q), sel);
  }

  /** Nothing below the last match matches, since it would come later. */
  lemma NoMatchInsideLast(n: Node, sel: Selector, p: Path)
    requires IsMatchAt(n, sel, p)
    requires forall q :: IsMatchAt(n, sel, q) ==> q == p || Precedes(q, p)
    ensures CountMatches(At(n, p), sel) == 0
  {
    CountMatchesMeaning(At(n, p), sel);
    if CountMatches(At(n, p), sel) > 0 {
      var s :| IsMatchAt(At(n, p), sel, s);
      PathConcat(n, p, s);
      PrecedesDescendant(p, s);
      assert IsMatchAt(n, sel, p + s);
      if p + s != p {
        PrecedesTransitive(p, p + s, p);
      }
      PrecedesIrreflexive(p);
    }
  }

  /** Exactly one element that the search reports goes away: the search finds
      one element fewer afterwards, or the same number when it found none. */
  lemma RemoveLastRemovesOneMatch(n: Node, sel: Selector)
    ensures CountMatches(RemoveLast(n, sel), sel)
            == if CountMatches(n, sel) == 0 then 0 else CountMatches(n, sel) - 1
    ensures |FindAll(RemoveLast(n, sel), sel)|
            == if |FindAll(n, sel)| == 0 then 0 else |FindAll(n, sel)| - 1
  {
    FindAllLength(n, sel);
    FindAllLength(RemoveLast(n, sel), sel);
    LastMatchIsLast(n, sel);
    CountMatchesMeaning(n, sel);
    if LastMatch(n, sel).Some? {
      var p := LastMatch(n, sel).value;
      NoMatchInsideLast(n, sel, p);
      DeleteAtCount(n, p, sel);
    }
  }

  /** Deleting a subtree cannot introduce a match. */
  lemma {:induction false} DeleteAtKeepsClean(n: Node, p: Path, sels: seq<Selector>)
    requires |p| > 0 && ValidPath(n, p) && CleanBelow(n, sels)
    ensures CleanBelow(DeleteAt(n, p), sels)
    decreases p
  {
    var cs := n.children;
    var i := p[0];
    var r := DeleteAt(n, p);
    if |p| == 1 {
      forall k | 0 <= k < |r.children|
        ensures !MatchesAny(r.children[k], sels) && CleanBelow(r.children[k], sels)
      {
        if k < i {
          assert r.children[k] == cs[k];
        } else {
          assert r.children[k] == cs[k + 1];
        }
      }
    } else {
      var x := DeleteAt(cs[i], p[1..]);
      DeleteAtKeepsClean(cs[i], p[1..], sels);
      assert MatchesAny(x, sels) <==> MatchesAny(cs[i], sels) by {
        forall k | 0 <= k < |sels|
          ensures Matches(x, sels[k]) <==> Matches(cs[i], sels[k])
        {
          SameRootMatches(x, cs[i], sels[k]);
        }
      }
    }
  }
}
