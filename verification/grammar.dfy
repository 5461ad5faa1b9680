/**
 * The grammar side of the demonstration without its drawing: a sentential form
 * (one single-character symbol per cell), the derivation tree built alongside
 * it, one rewrite step that replaces the k-th occurrence of a nonterminal in
 * both, and the queries over the current form.
 */
module Grammar {
  import opened Wrappers
  import opened Data
  import Text

  /** The empty right-hand side. */
  const Eps: string := "ε"

  /** A node of the derivation tree. */
  datatype Node = Node(symbol: string, children: seq<Node>, level: int, id: string, isTerminal: bool)

  /** Child indices from the root down to a node. */
  type Path = seq<nat>

  /** `rightSide.split('')`, or nothing for ε. */
  function RightSymbols(right: string): (r: seq<string>)
    ensures right == Eps ==> r == []
    ensures right != Eps ==> r == Text.Chars(right)
  {
    if right == Eps then [] else Text.Chars(right)
  }

  // ---------------------------------------------------------------------------
  // Occurrences in the sentential form

  /** How many cells of `d` hold `s`. */
  function Count(d: seq<string>, s: string): nat
    decreases |d|
  {
    if d == [] then 0 else Count(d[..|d| - 1], s) + (if d[|d| - 1] == s then 1 else 0)
  }

  lemma {:induction false} CountConcat(a: seq<string>, b: seq<string>, s: string)
    ensures Count(a + b, s) == Count(a, s) + Count(b, s)
    decreases |b|
  {
    if b == [] {
      assert a + b == a;
    } else {
      assert (a + b)[..|a + b| - 1] == a + b[..|b| - 1];
      CountConcat(a, b[..|b| - 1], s);
    }
  }

  /** The index of the k-th (0-based) cell holding `s`, or -1 when there are
      not that many. */
  function KthIndex(d: seq<string>, s: string, k: int): (i: int)
    ensures -1 <= i < |d|
    ensures i >= 0 ==> d[i] == s && Count(d[..i], s) == k
    ensures i == -1 <==> k < 0 || Count(d, s) <= k
    decreases |d|
  {
    if d == [] then -1
    else if k < 0 then -1
    else
      CountConcat([d[0]], d[1..], s);
      assert [d[0]] + d[1..] == d;
      assert Count([d[0]], s) == (if d[0] == s then 1 else 0) by {
        assert [d[0]][..0] == [];
      }
      if d[0] == s && k == 0 then
        assert d[..0] == [];
        0
      else
        var j := KthIndex(d[1..], s, if d[0] == s then k - 1 else k);
        if j == -1 then -1
        else
          assert d[..j + 1] == [d[0]] + d[1..][..j];
          CountConcat([d[0]], d[1..][..j], s);
          j + 1
  }

  /** A prefix that reaches past an occurrence counts it. */
  lemma CountGrows(d: seq<string>, s: string, i: nat, j: nat)
    requires i < j <= |d| && d[i] == s
    ensures Count(d[..i], s) < Count(d[..j], s)
  {
    assert d[..j] == d[..i + 1] + d[i + 1..j];
    CountConcat(d[..i + 1], d[i + 1..j], s);
    assert d[..i + 1][..i] == d[..i];
  }

  /** Two indices that are both the k-th occurrence are the same index. */
  lemma KthIsUnique(d: seq<string>, s: string, i: nat, j: nat)
    requires i < |d| && j < |d| && d[i] == s && d[j] == s
    requires Count(d[..i], s) == Count(d[..j], s)
    ensures i == j
  {
    if i < j {
      CountGrows(d, s, i, j);
    } else if j < i {
      CountGrows(d, s, j, i);
    }
  }

  // ---------------------------------------------------------------------------
  // Derivation trees

  /** The leaves of the tree left to right, without ε leaves: the sentential
      form the tree stands for. */
  function Frontier(n: Node): seq<string>
    decreases n
  {
    if n.children == [] then (if n.symbol == Eps then [] else [n.symbol])
    else FrontierIn(n.children)
  }

  function FrontierIn(cs: seq<Node>): seq<string>
    decreases cs
  {
    if cs == [] then [] else FrontierIn(cs[..|cs| - 1]) + Frontier(cs[|cs| - 1])
  }

  /** The test `findTreeNode` applies to each node. */
  predicate IsCandidate(n: Node, s: string, nts: seq<string>)
  {
    n.symbol == s && s in nts && n.children == []
  }

  function Prefixed(i: nat, ps: seq<Path>): (r: seq<Path>)
    ensures |r| == |ps|
    ensures forall j :: 0 <= j < |ps| ==> r[j] == [i] + ps[j]
  {
    seq(|ps|, j requires 0 <= j < |ps| => [i] + ps[j])
  }

  /** The path to the node itself when it is a candidate. */
  function SelfCands(n: Node, s: string, nts: seq<string>): seq<Path>
  {
    if IsCandidate(n, s, nts) then [[]] else []
  }

  /** Paths to the candidate nodes of the tree, in preorder. */
  function Cands(n: Node, s: string, nts: seq<string>): seq<Path>
    decreases n
  {
    SelfCands(n, s, nts) + CandsIn(n.children, s, nts)
  }

  function CandsIn(cs: seq<Node>, s: string, nts: seq<string>): seq<Path>
    decreases cs
  {
    if cs == [] then []
    else CandsIn(cs[..|cs| - 1], s, nts) + Prefixed(|cs| - 1, Cands(cs[|cs| - 1], s, nts))
  }

  predicate ValidPath(n: Node, p: Path)
    decreases |p|
  {
    p == [] || (p[0] < |n.children| && ValidPath(n.children[p[0]], p[1..]))
  }

  function At(n: Node, p: Path): Node
    requires ValidPath(n, p)
    decreases |p|
  {
    if p == [] then n else At(n.children[p[0]], p[1..])
  }

  /** The tree with the children of the node at `p` overwritten by `cs`. */
  function Replace(n: Node, p: Path, cs: seq<Node>): Node
    requires ValidPath(n, p)
    decreases |p|
  {
    if p == [] then n.(children := cs)
    else n.(children := n.children[p[0] := Replace(n.children[p[0]], p[1..], cs)])
  }

  lemma {:induction false} CandsInPrefix(cs: seq<Node>, j: nat, s: string, nts: seq<string>)
    requires j <= |cs|
    ensures CandsIn(cs[..j], s, nts) <= CandsIn(cs, s, nts)
    decreases |cs|
  {
    if j < |cs| {
      assert cs[..|cs| - 1][..j] == cs[..j];
      CandsInPrefix(cs[..|cs| - 1], j, s, nts);
    } else {
      assert cs[..j] == cs;
    }
  }

  lemma CandsInStep(cs: seq<Node>, i: nat, s: string, nts: seq<string>)
    requires i < |cs|
    ensures CandsIn(cs[..i + 1], s, nts) == CandsIn(cs[..i], s, nts) + Prefixed(i, Cands(cs[i], s, nts))
  {
    assert cs[..i + 1][..i] == cs[..i];
  }

  /** A count that has passed the candidates before child `i` passes those of
      child `i` too once it has gone past that child's own. */
  lemma CandsInStepCount(cs: seq<Node>, i: nat, s: string, nts: seq<string>, base: int, before: int, after: int)
    requires i < |cs|
    requires before == base + |CandsIn(cs[..i], s, nts)|
    requires after == before + |Cands(cs[i], s, nts)|
    ensures after == base + |CandsIn(cs[..i + 1], s, nts)|
  {
    CandsInStep(cs, i, s, nts);
  }

  /** The candidates under child `i` follow those of the node itself and of the
      children before it. */
  lemma CandsOfChild(n: Node, s: string, nts: seq<string>, i: nat, j: nat)
    requires i < |n.children| && j < |Cands(n.children[i], s, nts)|
    ensures var off := |SelfCands(n, s, nts)| + |CandsIn(n.children[..i], s, nts)|;
      off + j < |Cands(n, s, nts)| && Cands(n, s, nts)[off + j] == [i] + Cands(n.children[i], s, nts)[j]
  {
    CandsInStep(n.children, i, s, nts);
    CandsInPrefix(n.children, i + 1, s, nts);
  }

  /** The same, counted from `c0`: the candidate numbered `occurrence` is the
      one under child `i` that its own numbering, started after the node and
      the children before it, reaches. */
  lemma CandOfChildAt(n: Node, s: string, nts: seq<string>, i: nat, c0: int, occurrence: int, q: Path)
    requires i < |n.children|
    requires var before := c0 + |SelfCands(n, s, nts)| + |CandsIn(n.children[..i], s, nts)|;
      && before <= occurrence < before + |Cands(n.children[i], s, nts)|
      && q == Cands(n.children[i], s, nts)[occurrence - before]
    ensures c0 <= occurrence < c0 + |Cands(n, s, nts)|
    ensures Cands(n, s, nts)[occurrence - c0] == [i] + q
  {
    var off := |SelfCands(n, s, nts)| + |CandsIn(n.children[..i], s, nts)|;
    CandsOfChild(n, s, nts, i, occurrence - c0 - off);
  }

  /** Every candidate path leads to a candidate node. */
  lemma {:induction false} CandsAreCandidates(n: Node, s: string, nts: seq<string>)
    ensures forall j :: 0 <= j < |Cands(n, s, nts)| ==>
      ValidPath(n, Cands(n, s, nts)[j]) && IsCandidate(At(n, Cands(n, s, nts)[j]), s, nts)
    decreases n
  {
    CandsInAreCandidates(n.children, s, nts);
    var self := SelfCands(n, s, nts);
    forall j | 0 <= j < |Cands(n, s, nts)|
      ensures ValidPath(n, Cands(n, s, nts)[j]) && IsCandidate(At(n, Cands(n, s, nts)[j]), s, nts)
    {
      if j >= |self| {
        var p := CandsIn(n.children, s, nts)[j - |self|];
        assert Cands(n, s, nts)[j] == p;
        assert p[1..] + [] == p[1..];
      }
    }
  }

  lemma {:induction false} CandsInAreCandidates(cs: seq<Node>, s: string, nts: seq<string>)
    ensures forall j :: 0 <= j < |CandsIn(cs, s, nts)| ==>
      var p := CandsIn(cs, s, nts)[j];
      |p| > 0 && p[0] < |cs| && ValidPath(cs[p[0]], p[1..]) && IsCandidate(At(cs[p[0]], p[1..]), s, nts)
    decreases cs
  {
    if cs != [] {
      var init := cs[..|cs| - 1];
      var last := cs[|cs| - 1];
      CandsInAreCandidates(init, s, nts);
      CandsAreCandidates(last, s, nts);
      var a := CandsIn(init, s, nts);
      forall j | 0 <= j < |CandsIn(cs, s, nts)|
        ensures var p := CandsIn(cs, s, nts)[j];
          |p| > 0 && p[0] < |cs| && ValidPath(cs[p[0]], p[1..]) && IsCandidate(At(cs[p[0]], p[1..]), s, nts)
      {
        var p := CandsIn(cs, s, nts)[j];
        if j < |a| {
          assert p == a[j];
          assert cs[p[0]] == init[p[0]];
        } else {
          LastCandPath(cs, s, nts, j);
        }
      }
    }
  }

  /** The candidates are exactly the occurrences of `s` in the frontier. */
  lemma {:induction false} CandsCount(n: Node, s: string, nts: seq<string>)
    requires s in nts && s != Eps
    ensures |Cands(n, s, nts)| == Count(Frontier(n), s)
    decreases n
  {
    CandsInCount(n.children, s, nts);
    if n.children == [] {
      if n.symbol != Eps {
        assert [n.symbol][..0] == [];
      }
    }
  }

  lemma {:induction false} CandsInCount(cs: seq<Node>, s: string, nts: seq<string>)
    requires s in nts && s != Eps
    ensures |CandsIn(cs, s, nts)| == Count(FrontierIn(cs), s)
    decreases cs
  {
    if cs != [] {
      CandsInCount(cs[..|cs| - 1], s, nts);
      CandsCount(cs[|cs| - 1], s, nts);
      CountConcat(FrontierIn(cs[..|cs| - 1]), Frontier(cs[|cs| - 1]), s);
    }
  }

  /** Moving a prefix into the first part of a three-part split. */
  lemma PrependSplit<T>(a: seq<T>, x: seq<T>, y: seq<T>, z: seq<T>)
    ensures a + (x + y + z) == (a + x) + y + z
  {
    assert a + (x + y + z) == a + x + y + z;
  }

  /** Moving a suffix into the last part of a three-part split. */
  lemma AppendSplit<T>(x: seq<T>, y: seq<T>, z: seq<T>, b: seq<T>)
    ensures (x + y + z) + b == x + y + (z + b)
  {
    assert x + y + (z + b) == x + y + z + b;
  }

  /** A three-part split read back as slices around the middle cell. */
  lemma SplitAt<T>(d: seq<T>, pre: seq<T>, x: T, post: seq<T>)
    requires d == pre + [x] + post
    ensures |pre| < |d| && d[|pre|] == x && d[..|pre|] == pre && d[|pre| + 1..] == post
  {
    assert d[..|pre|] == pre;
    assert d[|pre| + 1..] == post;
  }

  lemma FrontierInUpdateInit(cs: seq<Node>, j: nat, x: Node)
    requires j < |cs| - 1
    ensures FrontierIn(cs[j := x]) == FrontierIn(cs[..|cs| - 1][j := x]) + Frontier(cs[|cs| - 1])
  {
    assert cs[j := x][..|cs| - 1] == cs[..|cs| - 1][j := x];
  }

  lemma FrontierInUpdateLast(cs: seq<Node>, x: Node)
    requires cs != []
    ensures FrontierIn(cs[|cs| - 1 := x]) == FrontierIn(cs[..|cs| - 1]) + Frontier(x)
  {
    assert cs[|cs| - 1 := x][..|cs| - 1] == cs[..|cs| - 1];
  }

  /** Overwriting the children of the k-th candidate with `c` splices the
      frontier of `c` in place of the k-th occurrence of `s` in the frontier:
      the frontier splits as `pre + [s] + post` with `k` occurrences of `s` in
      `pre`, and the new frontier is `pre + FrontierIn(c) + post`. */
  lemma {:induction false} ReplaceSplices(n: Node, s: string, nts: seq<string>, k: nat, c: seq<Node>)
    returns (pre: seq<string>, post: seq<string>)
    requires s in nts && s != Eps && c != []
    requires k < |Cands(n, s, nts)|
    ensures ValidPath(n, Cands(n, s, nts)[k])
    ensures Frontier(n) == pre + [s] + post && Count(pre, s) == k
    ensures Frontier(Replace(n, Cands(n, s, nts)[k], c)) == pre + FrontierIn(c) + post
    decreases n
  {
    var p := Cands(n, s, nts)[k];
    if IsCandidate(n, s, nts) {
      assert CandsIn(n.children, s, nts) == [];
      assert p == [];
      assert Frontier(n) == [s];
      pre, post := [], [];
      assert [] + FrontierIn(c) + [] == FrontierIn(c);
    } else {
      assert n.children != [];
      assert p == CandsIn(n.children, s, nts)[k];
      pre, post := ReplaceSplicesIn(n.children, s, nts, k, c);
      var cs' := n.children[p[0] := Replace(n.children[p[0]], p[1..], c)];
      assert Replace(n, p, c) == n.(children := cs');
      assert cs' != [];
    }
  }

  /** The k-th candidate below `cs` lies under child `p[0]`, and overwriting its
      children with `c` splices the frontier of `c` in between `pre` and
      `post`, where the k-th occurrence of `s` stood. */
  predicate SplicedIn(cs: seq<Node>, s: string, nts: seq<string>, k: nat, c: seq<Node>,
                      pre: seq<string>, post: seq<string>)
    requires k < |CandsIn(cs, s, nts)|
  {
    var p := CandsIn(cs, s, nts)[k];
    && |p| > 0 && p[0] < |cs| && ValidPath(cs[p[0]], p[1..])
    && FrontierIn(cs) == pre + [s] + post && Count(pre, s) == k
    && FrontierIn(cs[p[0] := Replace(cs[p[0]], p[1..], c)]) == pre + FrontierIn(c) + post
  }

  lemma {:induction false} ReplaceSplicesIn(cs: seq<Node>, s: string, nts: seq<string>, k: nat, c: seq<Node>)
    returns (pre: seq<string>, post: seq<string>)
    requires s in nts && s != Eps && c != []
    requires k < |CandsIn(cs, s, nts)|
    ensures SplicedIn(cs, s, nts, k, c, pre, post)
    decreases cs, 1
  {
    if k < |CandsIn(cs[..|cs| - 1], s, nts)| {
      pre, post := ReplaceSplicesInInit(cs, s, nts, k, c);
    } else {
      pre, post := ReplaceSplicesInLast(cs, s, nts, k, c);
    }
  }

  /** `ReplaceSplicesIn` when the candidate sits under one of the first children. */
  lemma {:induction false} ReplaceSplicesInInit(cs: seq<Node>, s: string, nts: seq<string>, k: nat, c: seq<Node>)
    returns (pre: seq<string>, post: seq<string>)
    requires s in nts && s != Eps && c != []
    requires cs != [] && k < |CandsIn(cs[..|cs| - 1], s, nts)|
    ensures k < |CandsIn(cs, s, nts)| && SplicedIn(cs, s, nts, k, c, pre, post)
    decreases cs, 0
  {
    var init := cs[..|cs| - 1];
    var a := CandsIn(init, s, nts);
    var p := CandsIn(cs, s, nts)[k];
    var fl := Frontier(cs[|cs| - 1]);
    assert FrontierIn(cs) == FrontierIn(init) + fl;
    assert p == a[k];
    var pa, qa := ReplaceSplicesIn(init, s, nts, k, c);
    assert cs[p[0]] == init[p[0]];
    FrontierInUpdateInit(cs, p[0], Replace(init[p[0]], p[1..], c));
    AppendSplit(pa, [s], qa, fl);
    AppendSplit(pa, FrontierIn(c), qa, fl);
    pre, post := pa, qa + fl;
  }

  /** A candidate numbered past those of the earlier children lies in the
      last child, under that child's own numbering. */
  lemma LastCandPath(cs: seq<Node>, s: string, nts: seq<string>, k: nat)
    requires cs != [] && |CandsIn(cs[..|cs| - 1], s, nts)| <= k < |CandsIn(cs, s, nts)|
    ensures var a := |CandsIn(cs[..|cs| - 1], s, nts)|;
      var p := CandsIn(cs, s, nts)[k];
      && k - a < |Cands(cs[|cs| - 1], s, nts)|
      && |p| > 0 && p[0] == |cs| - 1 && p[1..] == Cands(cs[|cs| - 1], s, nts)[k - a]
  {
    var a := |CandsIn(cs[..|cs| - 1], s, nts)|;
    var q := Cands(cs[|cs| - 1], s, nts)[k - a];
    assert CandsIn(cs, s, nts)[k] == [|cs| - 1] + q;
    assert ([|cs| - 1] + q)[1..] == q;
  }

  /** A path into the last child rewrites that child only. */
  lemma ReplaceInLast(cs: seq<Node>, p: Path, q: Path, c: seq<Node>)
    requires cs != [] && |p| > 0 && p[0] == |cs| - 1 && p[1..] == q && ValidPath(cs[|cs| - 1], q)
    ensures ValidPath(cs[p[0]], p[1..])
    ensures cs[p[0] := Replace(cs[p[0]], p[1..], c)] == cs[|cs| - 1 := Replace(cs[|cs| - 1], q, c)]
  {
  }

  /** `ReplaceSplicesIn` when the candidate sits under the last child. */
  lemma {:induction false} ReplaceSplicesInLast(cs: seq<Node>, s: string, nts: seq<string>, k: nat, c: seq<Node>)
    returns (pre: seq<string>, post: seq<string>)
    requires s in nts && s != Eps && c != []
    requires cs != [] && |CandsIn(cs[..|cs| - 1], s, nts)| <= k < |CandsIn(cs, s, nts)|
    ensures SplicedIn(cs, s, nts, k, c, pre, post)
    decreases cs, 0
  {
    var init := cs[..|cs| - 1];
    var last := cs[|cs| - 1];
    var a := CandsIn(init, s, nts);
    var p := CandsIn(cs, s, nts)[k];
    var fa := FrontierIn(init);
    assert FrontierIn(cs) == fa + Frontier(last);
    LastCandPath(cs, s, nts, k);
    var q := Cands(last, s, nts)[k - |a|];
    var pl, ql := ReplaceSplices(last, s, nts, k - |a|, c);
    ReplaceInLast(cs, p, q, c);
    FrontierInUpdateLast(cs, Replace(last, q, c));
    CandsInCount(init, s, nts);
    CountConcat(fa, pl, s);
    PrependSplit(fa, pl, [s], ql);
    PrependSplit(fa, pl, FrontierIn(c), ql);
    pre, post := fa + pl, ql;
  }

  /** The children `updateDerivationTree` gives the expanded node. */
  function NewChildren(parent: Node, right: string, terminals: seq<string>): (r: seq<Node>)
    ensures right == Eps ==>
      r == [Node(Eps, [], parent.level + 1, parent.id + "_epsilon", true)]
    ensures right != Eps ==> |r| == |right| && forall i :: 0 <= i < |right| ==>
      && r[i].symbol == [right[i]]
      && r[i].children == []
      && r[i].level == parent.level + 1
      && (r[i].isTerminal <==> [right[i]] in terminals)
      && r[i].id == parent.id + "_" + Text.NatToString(i)
  {
    if right == Eps then
      [Node(Eps, [], parent.level + 1, parent.id + "_epsilon", true)]
    else
      seq(|right|, i requires 0 <= i < |right| =>
        Node([right[i]], [], parent.level + 1, parent.id + "_" + Text.NatToString(i), [right[i]] in terminals))
  }

  /** The new children never share an id: `<parent>_<i>` differ in `i`. */
  lemma NewChildIdsDistinct(parent: Node, right: string, terminals: seq<string>)
    ensures var c := NewChildren(parent, right, terminals);
      forall i, j :: 0 <= i < j < |c| ==> c[i].id != c[j].id
  {
    var c := NewChildren(parent, right, terminals);
    if right != Eps {
      var pre := parent.id + "_";
      forall i, j | 0 <= i < j < |c| ensures c[i].id != c[j].id {
        assert c[i].id[|pre|..] == Text.NatToString(i);
        assert c[j].id[|pre|..] == Text.NatToString(j);
        if Text.NatToString(i) == Text.NatToString(j) {
          Text.NatToStringInjective(i, j);
        }
      }
    }
  }

  /** A right-hand side whose step keeps tree and form in step: ε itself, or a
      non-empty string that does not contain the character ε. */
  predicate ProperRight(right: string)
  {
    right == Eps || (right != "" && 'ε' !in right)
  }

  lemma {:induction false} FrontierOfLeaves(cs: seq<Node>)
    requires forall i :: 0 <= i < |cs| ==> cs[i].children == [] && cs[i].symbol != Eps
    ensures FrontierIn(cs) == seq(|cs|, i requires 0 <= i < |cs| => cs[i].symbol)
    decreases |cs|
  {
    if cs != [] {
      FrontierOfLeaves(cs[..|cs| - 1]);
    }
  }

  lemma NewChildrenFrontier(parent: Node, right: string, terminals: seq<string>)
    requires ProperRight(right)
    ensures NewChildren(parent, right, terminals) != []
    ensures FrontierIn(NewChildren(parent, right, terminals)) == RightSymbols(right)
  {
    var c := NewChildren(parent, right, terminals);
    if right == Eps {
      assert c[..0] == [];
    } else {
      forall i | 0 <= i < |c| ensures c[i].children == [] && c[i].symbol != Eps {
        assert right[i] in right;
        assert c[i].symbol[0] == right[i];
      }
      FrontierOfLeaves(c);
    }
  }

  /** The tree after `updateDerivationTree`: the k-th candidate in preorder gets
      new children; without one the tree stays as it is. */
  function ExpandTree(t: Node, left: string, right: string, k: int, cfg: Cfg): (r: Node)
    ensures !(0 <= k < |Cands(t, left, cfg.nonTerminals)|) ==> r == t
    ensures 0 <= k < |Cands(t, left, cfg.nonTerminals)| ==>
      var p := Cands(t, left, cfg.nonTerminals)[k];
      && ValidPath(t, p)
      && IsCandidate(At(t, p), left, cfg.nonTerminals)
      && r == Replace(t, p, NewChildren(At(t, p), right, cfg.terminals))
  {
    var cands := Cands(t, left, cfg.nonTerminals);
    if 0 <= k < |cands| then
      CandsAreCandidates(t, left, cfg.nonTerminals);
      Replace(t, cands[k], NewChildren(At(t, cands[k]), right, cfg.terminals))
    else
      t
  }

  /** The grammar shape the tree/form correspondence needs: ε is neither the
      start symbol nor a declared nonterminal. */
  predicate ProperCfg(cfg: Cfg)
  {
    cfg.startSymbol != Eps && Eps !in cfg.nonTerminals
  }

  /** One derivation step keeps the tree's frontier equal to the sentential
      form: the occurrence rewritten in the form and the node expanded in the
      tree are the same one. */
  lemma StepKeepsFrontier(t: Node, d: seq<string>, cfg: Cfg, left: string, right: string, k: int)
    requires Frontier(t) == d
    requires ProperCfg(cfg) && ProperRight(right)
    requires left in cfg.nonTerminals && KthIndex(d, left, k) >= 0
    ensures 0 <= k < |Cands(t, left, cfg.nonTerminals)|
    ensures var i := KthIndex(d, left, k);
      Frontier(ExpandTree(t, left, right, k, cfg)) == d[..i] + RightSymbols(right) + d[i + 1..]
  {
    var nts := cfg.nonTerminals;
    var i := KthIndex(d, left, k);
    assert left != Eps;
    CandsCount(t, left, nts);
    var cands := Cands(t, left, nts);
    CandsAreCandidates(t, left, nts);
    var c := NewChildren(At(t, cands[k]), right, cfg.terminals);
    NewChildrenFrontier(At(t, cands[k]), right, cfg.terminals);
    var pre, post := ReplaceSplices(t, left, nts, k, c);
    SplitAt(d, pre, left, post);
    KthIsUnique(d, left, i, |pre|);
  }

  /** The form after cell `i` is replaced by the symbols of `right`: the
      cells before and after it are kept, shifted by the change in length. */
  function Spliced(d: seq<string>, i: int, right: string): (r: seq<string>)
    requires 0 <= i < |d|
    ensures |r| == |d| - 1 + |RightSymbols(right)|
    ensures r[..i] == d[..i] && r[i + |RightSymbols(right)|..] == d[i + 1..]
  {
    d[..i] + RightSymbols(right) + d[i + 1..]
  }

  /** Why `ProperRight` excludes the empty right-hand side: rewriting the start
      symbol by `""` empties the form, yet the expanded root has no children
      and so still spells the start symbol. */
  lemma EmptyRightDrifts(cfg: Cfg)
    requires ProperCfg(cfg) && cfg.startSymbol in cfg.nonTerminals
    ensures var root := Node(cfg.startSymbol, [], 0, "root", false);
      && Spliced([cfg.startSymbol], 0, "") == []
      && Frontier(ExpandTree(root, cfg.startSymbol, "", 0, cfg)) == [cfg.startSymbol]
  {
    var s := cfg.startSymbol;
    var root := Node(s, [], 0, "root", false);
    assert Text.Chars("") == [];
    assert Cands(root, s, cfg.nonTerminals) == [[]];
    assert NewChildren(root, "", cfg.terminals) == [];
    assert ExpandTree(root, s, "", 0, cfg) == root;
  }

  /** What one `applyProduction` does to the form and the tree when the
      occurrence exists: the form grows by the right side less one cell, and
      the tree's frontier follows it when the two agreed before. */
  lemma RewriteStep(t: Node, d: seq<string>, cfg: Cfg, left: string, right: string, k: int, i: int)
    requires left in cfg.nonTerminals && i == KthIndex(d, left, k) && i >= 0
    ensures i < |d|
    ensures Frontier(t) == d && ProperCfg(cfg) && ProperRight(right) ==>
      Frontier(ExpandTree(t, left, right, k, cfg)) == Spliced(d, i, right)
  {
    if Frontier(t) == d && ProperCfg(cfg) && ProperRight(right) {
      StepKeepsFrontier(t, d, cfg, left, right, k);
    }
  }

  // ---------------------------------------------------------------------------
  // Queries over a sentential form

  /** `isDerivationComplete`: every cell is a terminal or ε. */
  function IsComplete(d: seq<string>, cfg: Cfg): (r: bool)
    ensures r <==> forall i :: 0 <= i < |d| ==> d[i] in cfg.terminals || d[i] == Eps
  {
    forall i :: 0 <= i < |d| ==> d[i] in cfg.terminals || d[i] == Eps
  }

  /** `getCurrentDerivationString`: ε for the empty form, else the cells joined. */
  function DerivationString(d: seq<string>): (r: string)
    ensures d == [] ==> r == Eps
  {
    if |d| == 0 then Eps else Text.Concat(d)
  }

  /** For a non-empty form of single characters, splitting the printed form
      gives the form back. */
  lemma DerivationStringRoundTrip(d: seq<string>)
    requires d != [] && forall i :: 0 <= i < |d| ==> |d[i]| == 1
    ensures Text.Chars(DerivationString(d)) == d
  {
    Text.CharsOfConcat(d);
  }

  /** The cells that are declared nonterminals, in order. */
  function DeclaredIn(d: seq<string>, nts: seq<string>): (r: seq<string>)
    ensures forall x :: x in r <==> x in d && x in nts
    decreases |d|
  {
    if d == [] then []
    else DeclaredIn(d[..|d| - 1], nts) + (if d[|d| - 1] in nts then [d[|d| - 1]] else [])
  }

  predicate Distinct<T(==)>(s: seq<T>)
  {
    forall i, j :: 0 <= i < j < |s| ==> s[i] != s[j]
  }

  /** `[...new Set(s)]`: the distinct elements in order of first occurrence. */
  function Dedup(s: seq<string>): (r: seq<string>)
    ensures forall x :: x in r <==> x in s
    ensures Distinct(r)
    decreases |s|
  {
    if s == [] then []
    else
      var init := Dedup(s[..|s| - 1]);
      assert forall x :: x in s <==> x in s[..|s| - 1] || x == s[|s| - 1];
      if s[|s| - 1] in s[..|s| - 1] then init else init + [s[|s| - 1]]
  }

  /** `productions.filter(p => p.left === nt)`. */
  function ProductionsOf(ps: seq<Production>, nt: string): (r: seq<Production>)
    ensures forall p :: p in r <==> p in ps && p.left == nt
    ensures forall p :: multiset(r)[p] == if p.left == nt then multiset(ps)[p] else 0
    decreases |ps|
  {
    if ps == [] then []
    else
      assert ps == ps[..|ps| - 1] + [ps[|ps| - 1]];
      ProductionsOf(ps[..|ps| - 1], nt) + (if ps[|ps| - 1].left == nt then [ps[|ps| - 1]] else [])
  }

  /** The productions of each listed nonterminal, one group after another. */
  function ProductionsOfAll(ps: seq<Production>, nts: seq<string>): (r: seq<Production>)
    requires Distinct(nts)
    ensures forall p :: p in r <==> p in ps && p.left in nts
    ensures forall p :: multiset(r)[p] == if p.left in nts then multiset(ps)[p] else 0
    decreases |nts|
  {
    if nts == [] then []
    else
      var init := nts[..|nts| - 1];
      var last := nts[|nts| - 1];
      assert forall x :: x in nts <==> x in init || x == last;
      assert last !in init;
      ProductionsOfAll(ps, init) + ProductionsOf(ps, last)
  }

  /** `getAvailableProductions`. */
  function AvailableProductions(d: seq<string>, cfg: Cfg): (r: seq<Production>)
    ensures forall p :: p in r <==> p in cfg.productions && p.left in cfg.nonTerminals && p.left in d
    ensures forall p :: p in r ==> multiset(r)[p] == multiset(cfg.productions)[p]
  {
    ProductionsOfAll(cfg.productions, Dedup(DeclaredIn(d, cfg.nonTerminals)))
  }

  /** `indexOf`: the first index holding `x`, or -1. */
  function Position(s: seq<string>, x: string): (k: int)
    ensures -1 <= k < |s|
    ensures k >= 0 ==> s[k] == x && forall j :: 0 <= j < k ==> s[j] != x
    ensures k == -1 <==> x !in s
    decreases |s|
  {
    if s == [] then -1
    else if s[0] == x then 0
    else
      var k := Position(s[1..], x);
      if k == -1 then -1 else k + 1
  }

  lemma {:induction false} PositionAppendLeft(a: seq<string>, b: seq<string>, x: string)
    requires x in a
    ensures Position(a + b, x) == Position(a, x)
    decreases |a|
  {
    assert (a + b)[0] == a[0];
    if a[0] != x {
      assert (a + b)[1..] == a[1..] + b;
      PositionAppendLeft(a[1..], b, x);
    }
  }

  lemma {:induction false} PositionAppendRight(a: seq<string>, b: seq<string>, x: string)
    requires x !in a && x in b
    ensures Position(a + b, x) == |a| + Position(b, x)
    decreases |a|
  {
    if a == [] {
      assert a + b == b;
    } else {
      assert (a + b)[0] == a[0];
      assert (a + b)[1..] == a[1..] + b;
      PositionAppendRight(a[1..], b, x);
    }
  }

  /** Appending never moves an element that is already there; a new one lands
      after all of the first part. */
  lemma PositionAppend(a: seq<string>, b: seq<string>, x: string)
    ensures x in a ==> Position(a + b, x) == Position(a, x)
    ensures x !in a && x in b ==> Position(a + b, x) == |a| + Position(b, x)
  {
    if x in a {
      PositionAppendLeft(a, b, x);
    } else if x in b {
      PositionAppendRight(a, b, x);
    }
  }

  /** `new Set` keeps the order of first occurrence. */
  lemma {:induction false} DedupKeepsFirstOccurrenceOrder(s: seq<string>, x: string, y: string)
    requires x in s && y in s
    ensures Position(Dedup(s), x) < Position(Dedup(s), y) <==> Position(s, x) < Position(s, y)
    decreases |s|
  {
    var s0 := s[..|s| - 1];
    var last := s[|s| - 1];
    assert s == s0 + [last];
    var d0 := Dedup(s0);
    PositionAppend(s0, [last], x);
    PositionAppend(s0, [last], y);
    if last in s0 {
      assert x in s0 && y in s0;
      DedupKeepsFirstOccurrenceOrder(s0, x, y);
    } else {
      PositionAppend(d0, [last], x);
      PositionAppend(d0, [last], y);
      if x in s0 && y in s0 {
        DedupKeepsFirstOccurrenceOrder(s0, x, y);
      }
    }
  }

  /** Every production's left side comes no earlier in `nts` than those before it. */
  predicate GroupedBy(r: seq<Production>, nts: seq<string>)
  {
    forall i, j :: 0 <= i < j < |r| ==> Position(nts, r[i].left) <= Position(nts, r[j].left)
  }

  lemma GroupedAppend(a: seq<Production>, b: seq<Production>, init: seq<string>, last: string)
    requires GroupedBy(a, init) && last !in init
    requires forall i :: 0 <= i < |a| ==> a[i].left in init
    requires forall i :: 0 <= i < |b| ==> b[i].left == last
    ensures GroupedBy(a + b, init + [last])
  {
    var nts := init + [last];
    var r := a + b;
    forall x | x in init ensures Position(nts, x) == Position(init, x) < |init| {
      PositionAppend(init, [last], x);
    }
    PositionAppend(init, [last], last);
    forall i, j | 0 <= i < j < |r|
      ensures Position(nts, r[i].left) <= Position(nts, r[j].left)
    {
      if j < |a| {
        assert r[i] == a[i] && r[j] == a[j];
      } else if i >= |a| {
        assert r[i] == b[i - |a|] && r[j] == b[j - |a|];
      } else {
        assert r[i] == a[i] && r[j] == b[j - |a|];
      }
    }
  }

  /** The productions come in groups, one group per listed nonterminal, in the
      order the nonterminals are listed. */
  lemma DistinctInit<T>(s: seq<T>)
    requires Distinct(s) && s != []
    ensures Distinct(s[..|s| - 1]) && s[|s| - 1] !in s[..|s| - 1]
  {
  }

  lemma ProductionsOfLefts(ps: seq<Production>, nt: string)
    ensures forall i :: 0 <= i < |ProductionsOf(ps, nt)| ==> ProductionsOf(ps, nt)[i].left == nt
  {
    var r := ProductionsOf(ps, nt);
    assert forall i :: 0 <= i < |r| ==> r[i] in r;
  }

  lemma ProductionsOfAllLefts(ps: seq<Production>, nts: seq<string>)
    requires Distinct(nts)
    ensures forall i :: 0 <= i < |ProductionsOfAll(ps, nts)| ==> ProductionsOfAll(ps, nts)[i].left in nts
  {
    var r := ProductionsOfAll(ps, nts);
    assert forall i :: 0 <= i < |r| ==> r[i] in r;
  }

  lemma {:induction false} ProductionsOfAllGrouped(ps: seq<Production>, nts: seq<string>)
    requires Distinct(nts)
    ensures GroupedBy(ProductionsOfAll(ps, nts), nts)
    decreases |nts|
  {
    if nts != [] {
      var init := nts[..|nts| - 1];
      var last := nts[|nts| - 1];
      assert nts == init + [last];
      DistinctInit(nts);
      ProductionsOfAllGrouped(ps, init);
      ProductionsOfAllLefts(ps, init);
      ProductionsOfLefts(ps, last);
      GroupedAppend(ProductionsOfAll(ps, init), ProductionsOf(ps, last), init, last);
    }
  }

  /** Filtering keeps the relative order of first occurrences: among declared
      nonterminals of the form, one comes first in the filtered cells exactly
      when it comes first in the form. */
  lemma {:induction false} DeclaredInKeepsOrder(d: seq<string>, nts: seq<string>, x: string, y: string)
    requires x in d && x in nts && y in d && y in nts
    ensures Position(DeclaredIn(d, nts), x) < Position(DeclaredIn(d, nts), y) <==> Position(d, x) < Position(d, y)
    decreases |d|
  {
    var d0 := d[..|d| - 1];
    var l := d[|d| - 1];
    var c0 := DeclaredIn(d0, nts);
    var tail := if l in nts then [l] else [];
    assert d == d0 + [l];
    assert DeclaredIn(d, nts) == c0 + tail;
    PositionAppend(d0, [l], x);
    PositionAppend(d0, [l], y);
    PositionAppend(c0, tail, x);
    PositionAppend(c0, tail, y);
    if x in d0 && y in d0 {
      DeclaredInKeepsOrder(d0, nts, x, y);
    }
  }

  /** `getAvailableProductions` lists the productions of each nonterminal that
      occurs in the form together, the groups ordered by where each
      nonterminal first occurs. */
  lemma AvailableProductionsGrouped(d: seq<string>, cfg: Cfg, i: nat, j: nat)
    requires i < j < |AvailableProductions(d, cfg)|
    ensures var r := AvailableProductions(d, cfg);
      var cells := DeclaredIn(d, cfg.nonTerminals);
      r[i].left in cells && r[j].left in cells && Position(cells, r[i].left) <= Position(cells, r[j].left)
    ensures var r := AvailableProductions(d, cfg);
      r[i].left in d && r[j].left in d && Position(d, r[i].left) <= Position(d, r[j].left)
  {
    var r := AvailableProductions(d, cfg);
    var cells := DeclaredIn(d, cfg.nonTerminals);
    var u := Dedup(cells);
    ProductionsOfAllGrouped(cfg.productions, u);
    assert r[i] in r && r[j] in r;
    DedupKeepsFirstOccurrenceOrder(cells, r[j].left, r[i].left);
    DeclaredInKeepsOrder(d, cfg.nonTerminals, r[j].left, r[i].left);
  }

  /** When terminals and nonterminals are apart, a complete form offers no
      production and no occurrence to rewrite. */
  lemma CompleteMeansNothingApplies(d: seq<string>, cfg: Cfg, nt: string, k: int)
    requires ProperCfg(cfg)
    requires forall x :: x in cfg.terminals ==> x !in cfg.nonTerminals
    requires IsComplete(d, cfg)
    ensures AvailableProductions(d, cfg) == []
    ensures nt in cfg.nonTerminals ==> KthIndex(d, nt, k) == -1
  {
    var r := AvailableProductions(d, cfg);
    forall x | x in d ensures x !in cfg.nonTerminals {
      var i :| 0 <= i < |d| && d[i] == x;
    }
    assert forall p :: p !in r;
  }

  // ---------------------------------------------------------------------------
  // The visualizer's state

  /** `findTreeNode`'s shared occurrence counter. */
  class Counter {
    var count: int

    constructor ()
      ensures count == 0
    {
      count := 0;
    }
  }

  class CfgVisualizer {
    var cfg: Option<Cfg>
    var currentDerivation: seq<string>
    var derivationTree: Option<Node>

    /** A loaded grammar always comes with a tree. */
    ghost predicate Valid()
      reads this
    {
      cfg.Some? ==> derivationTree.Some?
    }

    /** The tree's frontier spells the current sentential form. */
    ghost predicate InSync()
      reads this
    {
      cfg.Some? && derivationTree.Some? && Frontier(derivationTree.value) == currentDerivation
    }

    constructor ()
      ensures Valid()
      ensures cfg == None && currentDerivation == [] && derivationTree == None
    {
      cfg := None;
      currentDerivation := [];
      derivationTree := None;
    }

    /** `setCFG`. */
    method SetCfg(c: Cfg)
      modifies this
      ensures Valid() && cfg == Some(c)
      ensures currentDerivation == [c.startSymbol]
      ensures derivationTree == Some(Node(c.startSymbol, [], 0, "root", false))
      ensures ProperCfg(c) ==> InSync()
    {
      cfg := Some(c);
      InitializeDerivation();
    }

    /** `initializeDerivation`: the form is the start symbol and the tree its root alone. */
    method InitializeDerivation()
      requires cfg.Some?
      modifies this
      ensures Valid() && cfg == old(cfg)
      ensures currentDerivation == [cfg.value.startSymbol]
      ensures derivationTree == Some(Node(cfg.value.startSymbol, [], 0, "root", false))
      ensures ProperCfg(cfg.value) ==> InSync()
    {
      currentDerivation := [cfg.value.startSymbol];
      derivationTree := Some(Node(cfg.value.startSymbol, [], 0, "root", false));
    }

    /** `reset`. */
    method Reset()
      requires cfg.Some?
      modifies this
      ensures Valid() && cfg == old(cfg)
      ensures currentDerivation == [cfg.value.startSymbol]
      ensures derivationTree == Some(Node(cfg.value.startSymbol, [], 0, "root", false))
      ensures ProperCfg(cfg.value) ==> InSync()
    {
      InitializeDerivation();
    }

    /** `findNonTerminalPosition`: the index of the k-th cell holding `nonTerminal`,
        counted only when it is a declared nonterminal; -1 otherwise. */
    method FindNonTerminalPosition(nonTerminal: string, occurrence: int) returns (index: int)
      requires cfg.Some?
      ensures index == if nonTerminal in cfg.value.nonTerminals
                       then KthIndex(currentDerivation, nonTerminal, occurrence) else -1
    {
      var d := currentDerivation;
      var nts := cfg.value.nonTerminals;
      var count := 0;
      var i := 0;
      while i < |d|
        invariant 0 <= i <= |d|
        invariant count == if nonTerminal in nts then Count(d[..i], nonTerminal) else 0
        invariant occurrence < 0 || count <= occurrence
      {
        assert d[..i + 1][..i] == d[..i];
        if d[i] in nts && d[i] == nonTerminal {
          if count == occurrence {
            CountGrows(d, nonTerminal, i, |d|);
            assert d[..|d|] == d;
            KthIsUnique(d, nonTerminal, i, KthIndex(d, nonTerminal, occurrence));
            return i;
          }
          count := count + 1;
        }
        i := i + 1;
      }
      assert d[..|d|] == d;
      return -1;
    }

    /** `findTreeNode`: preorder search for the k-th candidate, threading one
        counter through the recursion. */
    method FindTreeNode(node: Node, symbol: string, occurrence: int, counter: Counter)
      returns (found: Option<Path>)
      requires cfg.Some?
      modifies counter
      ensures var cands := Cands(node, symbol, cfg.value.nonTerminals);
        var c0 := old(counter.count);
        && (c0 <= occurrence < c0 + |cands| ==>
              found == Some(cands[occurrence - c0]) && counter.count == occurrence)
        && (!(c0 <= occurrence < c0 + |cands|) ==>
              found == None && counter.count == c0 + |cands|)
      decreases node
    {
      var nts := cfg.value.nonTerminals;
      ghost var c0 := counter.count;
      ghost var self := SelfCands(node, symbol, nts);
      if node.symbol == symbol && symbol in nts && |node.children| == 0 {
        if counter.count == occurrence {
          assert Cands(node, symbol, nts)[0] == [];
          return Some([]);
        }
        counter.count := counter.count + 1;
      }
      assert counter.count == c0 + |self|;
      assert node.children[..0] == [];
      var i := 0;
      while i < |node.children|
        invariant 0 <= i <= |node.children|
        invariant counter.count == c0 + |self| + |CandsIn(node.children[..i], symbol, nts)|
        invariant !(c0 <= occurrence < counter.count)
      {
        ghost var before := counter.count;
        ghost var here := |Cands(node.children[i], symbol, nts)|;
        var r := FindTreeNode(node.children[i], symbol, occurrence, counter);
        if r.Some? {
          assert before <= occurrence < before + here;
          CandOfChildAt(node, symbol, nts, i, c0, occurrence, r.value);
          return Some([i] + r.value);
        }
        assert counter.count == before + here;
        CandsInStepCount(node.children, i, symbol, nts, c0 + |self|, before, counter.count);
        i := i + 1;
      }
      assert node.children[..|node.children|] == node.children;
      return None;
    }

    /** `updateDerivationTree`. */
    method UpdateDerivationTree(leftSide: string, rightSide: string, position: int)
      requires cfg.Some? && derivationTree.Some?
      modifies this
      ensures cfg == old(cfg) && currentDerivation == old(currentDerivation)
      ensures derivationTree == Some(ExpandTree(old(derivationTree.value), leftSide, rightSide, position, cfg.value))
    {
      CandsAreCandidates(derivationTree.value, leftSide, cfg.value.nonTerminals);
      var counter := new Counter();
      var found := FindTreeNode(derivationTree.value, leftSide, position, counter);
      if found.None? {
        return;
      }
      var target := At(derivationTree.value, found.value);
      derivationTree := Some(Replace(derivationTree.value, found.value, NewChildren(target, rightSide, cfg.value.terminals)));
    }

    /** The rewriting half of `applyProduction`, once the occurrence has been
        found at cell `index`: the form is spliced and the tree expanded. */
    method Rewrite(leftSide: string, rightSide: string, position: int, index: int)
      requires cfg.Some? && derivationTree.Some?
      requires leftSide in cfg.value.nonTerminals && index == KthIndex(currentDerivation, leftSide, position)
      requires index >= 0
      modifies this
      ensures cfg == old(cfg) && derivationTree.Some?
      ensures currentDerivation == Spliced(old(currentDerivation), index, rightSide)
      ensures derivationTree == Some(ExpandTree(old(derivationTree.value), leftSide, rightSide, position, cfg.value))
      ensures old(InSync()) && ProperCfg(cfg.value) && ProperRight(rightSide) ==> InSync()
    {
      RewriteStep(derivationTree.value, currentDerivation, cfg.value, leftSide, rightSide, position, index);
      currentDerivation := Spliced(currentDerivation, index, rightSide);
      UpdateDerivationTree(leftSide, rightSide, position);
    }

    /** `applyProduction`: rewrite the k-th occurrence of `leftSide` in the
        form and expand the matching tree node; false and no change when the
        form has no such occurrence. */
    method ApplyProduction(leftSide: string, rightSide: string, position: int) returns (applied: bool)
      requires cfg.Some? && derivationTree.Some?
      modifies this
      ensures cfg == old(cfg) && derivationTree.Some?
      ensures var i := if leftSide in cfg.value.nonTerminals
                       then KthIndex(old(currentDerivation), leftSide, position) else -1;
        && (i == -1 ==> !applied && currentDerivation == old(currentDerivation)
                        && derivationTree == old(derivationTree))
        && (i >= 0 ==> applied
                        && currentDerivation == Spliced(old(currentDerivation), i, rightSide)
                        && derivationTree == Some(ExpandTree(old(derivationTree.value), leftSide, rightSide,
                                                             position, cfg.value)))
      ensures applied ==> |currentDerivation| == |old(currentDerivation)| - 1 + |RightSymbols(rightSide)|
      ensures old(InSync()) && ProperCfg(cfg.value) && ProperRight(rightSide) ==> InSync()
    {
      var index := FindNonTerminalPosition(leftSide, position);
      if index == -1 {
        return false;
      }
      Rewrite(leftSide, rightSide, position, index);
      return true;
    }

    /** `isDerivationComplete`. */
    function IsDerivationComplete(): (r: bool)
      reads this
      requires cfg.Some?
      ensures r <==> IsComplete(currentDerivation, cfg.value)
    {
      IsComplete(currentDerivation, cfg.value)
    }

    /** `getCurrentDerivationString`. */
    function CurrentDerivationString(): (r: string)
      reads this
      ensures r == DerivationString(currentDerivation)
      ensures currentDerivation == [] ==> r == Eps
      ensures currentDerivation != [] && (forall i :: 0 <= i < |currentDerivation| ==> |currentDerivation[i]| == 1) ==>
        Text.Chars(r) == currentDerivation
    {
      if currentDerivation != [] && forall i :: 0 <= i < |currentDerivation| ==> |currentDerivation[i]| == 1 then
        DerivationStringRoundTrip(currentDerivation);
        DerivationString(currentDerivation)
      else
        DerivationString(currentDerivation)
    }

    /** `getAvailableProductions`. */
    function CurrentAvailableProductions(): (r: seq<Production>)
      reads this
      requires cfg.Some?
      ensures forall p :: p in r <==>
        p in cfg.value.productions && p.left in cfg.value.nonTerminals && p.left in currentDerivation
    {
      AvailableProductions(currentDerivation, cfg.value)
    }
  }
}
