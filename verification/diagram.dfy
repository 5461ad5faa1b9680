/**
 * The discrete decisions the PDA diagram makes before it draws anything: which
 * transitions share an arrow (grouping by source and target state), whether the
 * opposite arrow exists, which of four shapes each group is drawn as, how the
 * labels of a self-loop are laid out, and the field updates of the visualizer.
 */
module Diagram {
  import opened Wrappers
  import opened Data

  // ---------------------------------------------------------------------------
  // Grouping transitions by (from, to)

  /** A group's key: source and target state id, kept apart. */
  datatype Key = Key(from: string, to: string)

  function KeyOf(t: Transition): Key
  {
    Key(t.from, t.to)
  }

  /** `states.find(s => s.id === id)`. */
  function FindState(states: seq<State>, id: string): (r: Option<State>)
    ensures r.Some? <==> exists i :: 0 <= i < |states| && states[i].id == id
    ensures r.Some? ==> r.value in states && r.value.id == id
    decreases |states|
  {
    if states == [] then None
    else if states[0].id == id then Some(states[0])
    else FindState(states[1..], id)
  }

  /** Both ends of the transition are states of the diagram. */
  predicate Drawable(states: seq<State>, t: Transition)
  {
    FindState(states, t.from).Some? && FindState(states, t.to).Some?
  }

  /** The transitions that are drawn at all, in source order. */
  function Kept(states: seq<State>, ts: seq<Transition>): (r: seq<Transition>)
    ensures forall t :: t in r <==> t in ts && Drawable(states, t)
    decreases |ts|
  {
    if ts == [] then []
    else
      var last := ts[|ts| - 1];
      assert forall t :: t in ts <==> t in ts[..|ts| - 1] || t == last;
      Kept(states, ts[..|ts| - 1]) + (if Drawable(states, last) then [last] else [])
  }

  predicate DistinctKeys(keys: seq<Key>)
  {
    forall i, j :: 0 <= i < j < |keys| ==> keys[i] != keys[j]
  }

  /** The keys of `ks` in order of first occurrence, each once. */
  function KeysOf(ks: seq<Transition>): (r: seq<Key>)
    ensures forall k :: k in r <==> exists t :: t in ks && KeyOf(t) == k
    ensures DistinctKeys(r)
    decreases |ks|
  {
    if ks == [] then []
    else
      var last := ks[|ks| - 1];
      var init := KeysOf(ks[..|ks| - 1]);
      assert forall t :: t in ks <==> t in ks[..|ks| - 1] || t == last;
      if KeyOf(last) in init then init else init + [KeyOf(last)]
  }

  /** The transitions of `ks` under one key, in source order. */
  function Members(ks: seq<Transition>, k: Key): (r: seq<Transition>)
    ensures forall t :: t in r <==> t in ks && KeyOf(t) == k
    ensures (forall t :: t in ks ==> KeyOf(t) != k) ==> r == []
    ensures |r| <= |ks|
    decreases |ks|
  {
    if ks == [] then []
    else
      var last := ks[|ks| - 1];
      assert forall t :: t in ks <==> t in ks[..|ks| - 1] || t == last;
      Members(ks[..|ks| - 1], k) + (if KeyOf(last) == k then [last] else [])
  }

  /** A group: its two state ids, its transitions and whether the opposite
      group exists. */
  datatype Group = Group(from: string, to: string, transitions: seq<Transition>, reverseExists: bool)

  /** The groups before the reverse flags are set: one per key, in order of
      first occurrence. */
  function Grouped(states: seq<State>, ts: seq<Transition>): (r: seq<Group>)
  {
    GroupsOf(Kept(states, ts))
  }

  /** One group per key of `ks`, holding that key's members. */
  function GroupsOf(ks: seq<Transition>): (r: seq<Group>)
    ensures |r| == |KeysOf(ks)|
    ensures forall i :: 0 <= i < |r| ==>
      r[i] == Group(KeysOf(ks)[i].from, KeysOf(ks)[i].to, Members(ks, KeysOf(ks)[i]), false)
  {
    var keys := KeysOf(ks);
    seq(|keys|, i requires 0 <= i < |keys| => Group(keys[i].from, keys[i].to, Members(ks, keys[i]), false))
  }

  /** `Map.has` on the groups: the first group with these ends, or -1. */
  function FindGroup(groups: seq<Group>, from: string, to: string): (k: int)
    ensures -1 <= k < |groups|
    ensures k == -1 <==> forall i :: 0 <= i < |groups| ==> !(groups[i].from == from && groups[i].to == to)
    ensures k >= 0 ==> groups[k].from == from && groups[k].to == to
    decreases |groups|
  {
    if groups == [] then -1
    else if groups[0].from == from && groups[0].to == to then 0
    else
      var k := FindGroup(groups[1..], from, to);
      if k == -1 then -1 else k + 1
  }

  /** The groups with their reverse flags set. */
  function WithReverse(groups: seq<Group>): (r: seq<Group>)
    ensures |r| == |groups|
    ensures forall i :: 0 <= i < |groups| ==>
      && r[i].from == groups[i].from && r[i].to == groups[i].to
      && r[i].transitions == groups[i].transitions
      && (r[i].reverseExists <==>
            exists j :: 0 <= j < |groups| && groups[j].from == groups[i].to && groups[j].to == groups[i].from)
  {
    seq(|groups|, i requires 0 <= i < |groups| =>
      groups[i].(reverseExists := FindGroup(groups, groups[i].to, groups[i].from) >= 0))
  }

  lemma KeptStep(states: seq<State>, ts: seq<Transition>, j: nat)
    requires j < |ts|
    ensures Kept(states, ts[..j + 1]) ==
      Kept(states, ts[..j]) + (if Drawable(states, ts[j]) then [ts[j]] else [])
  {
    assert ts[..j + 1][..j] == ts[..j];
  }

  /** A key that no transition of `ks` has has no members. */
  lemma NoMembersOfAbsentKey(ks: seq<Transition>, k: Key)
    requires k !in KeysOf(ks)
    ensures Members(ks, k) == []
  {
  }

  lemma KeysStep(ks: seq<Transition>, t: Transition)
    ensures KeysOf(ks + [t]) == if KeyOf(t) in KeysOf(ks) then KeysOf(ks) else KeysOf(ks) + [KeyOf(t)]
  {
    assert (ks + [t])[..|ks|] == ks;
  }

  lemma MembersStep(ks: seq<Transition>, t: Transition, k: Key)
    ensures Members(ks + [t], k) == Members(ks, k) + (if KeyOf(t) == k then [t] else [])
  {
    assert (ks + [t])[..|ks|] == ks;
  }

  lemma AppendAssoc<T>(x: seq<T>, y: seq<T>, z: seq<T>)
    ensures x + y + z == x + (y + z)
  {
  }

  lemma SnocExtensional<T>(a: seq<T>, b: seq<T>, x: T)
    requires |a| == |b| + 1 && a[..|b|] == b && a[|b|] == x
    ensures a == b + [x]
  {
    assert a == a[..|b|] + [a[|b|]];
  }

  /** Selecting one key distributes over concatenation: the members of a
      longer list are those of its first part followed by those of its second,
      so a group keeps its transitions in source order, repeats included. */
  lemma {:induction false} MembersOfAppend(a: seq<Transition>, b: seq<Transition>, k: Key)
    ensures Members(a + b, k) == Members(a, k) + Members(b, k)
    decreases |b|
  {
    if b == [] {
      assert a + b == a;
    } else {
      var b0 := b[..|b| - 1];
      var last := b[|b| - 1];
      var tail := if KeyOf(last) == k then [last] else [];
      assert b == b0 + [last];
      assert a + b == (a + b0) + [last];
      MembersStep(a + b0, last, k);
      MembersStep(b0, last, k);
      MembersOfAppend(a, b0, k);
      var ma, mb0 := Members(a, k), Members(b0, k);
      calc {
        Members(a + b, k);
        Members(a + b0, k) + tail;
        ma + mb0 + tail;
        { AppendAssoc(ma, mb0, tail); }
        ma + (mb0 + tail);
        ma + Members(b, k);
      }
    }
  }

  /** A single transition is its own group's member, or nobody's. */
  lemma MembersOfOne(t: Transition, k: Key)
    ensures Members([t], k) == if KeyOf(t) == k then [t] else []
  {
    assert [t][..0] == [];
  }

  /** Appending a transition keeps every existing group in place and adds it
      to the group of its own key. */
  lemma GroupsOfStepAt(ks: seq<Transition>, t: Transition, i: nat)
    requires i < |KeysOf(ks)|
    ensures i < |GroupsOf(ks + [t])|
    ensures var g := GroupsOf(ks)[i];
      GroupsOf(ks + [t])[i] == g.(transitions := g.transitions + (if KeyOf(t) == KeysOf(ks)[i] then [t] else []))
  {
    KeysStep(ks, t);
    MembersStep(ks, t, KeysOf(ks)[i]);
  }

  /** No group with the transition's ends means its key is new. */
  lemma UnfoundKeyIsNew(ks: seq<Transition>, t: Transition)
    requires FindGroup(GroupsOf(ks), t.from, t.to) == -1
    ensures KeyOf(t) !in KeysOf(ks)
  {
    var keys := KeysOf(ks);
    var g := GroupsOf(ks);
    assert forall i :: 0 <= i < |keys| ==> g[i].from == keys[i].from && g[i].to == keys[i].to;
  }

  /** A new key leaves the existing groups as they were. */
  lemma NewKeyKeepsGroups(ks: seq<Transition>, t: Transition)
    requires KeyOf(t) !in KeysOf(ks)
    ensures |GroupsOf(ks + [t])| == |GroupsOf(ks)| + 1
    ensures GroupsOf(ks + [t])[..|GroupsOf(ks)|] == GroupsOf(ks)
  {
    KeysStep(ks, t);
    forall i | 0 <= i < |GroupsOf(ks)|
      ensures GroupsOf(ks + [t])[i] == GroupsOf(ks)[i]
    {
      GroupsOfStepAt(ks, t, i);
    }
  }

  /** A new key's group holds the transition alone. */
  lemma NewKeyGroup(ks: seq<Transition>, t: Transition)
    requires KeyOf(t) !in KeysOf(ks)
    ensures |GroupsOf(ks + [t])| == |GroupsOf(ks)| + 1
    ensures GroupsOf(ks + [t])[|GroupsOf(ks)|] == Group(t.from, t.to, [t], false)
  {
    NoMembersOfAbsentKey(ks, KeyOf(t));
    KeysStep(ks, t);
    MembersStep(ks, t, KeyOf(t));
  }

  /** A new key opens a group at the end. */
  lemma GroupsOfNew(ks: seq<Transition>, t: Transition)
    requires FindGroup(GroupsOf(ks), t.from, t.to) == -1
    ensures GroupsOf(ks + [t]) == GroupsOf(ks) + [Group(t.from, t.to, [t], false)]
  {
    UnfoundKeyIsNew(ks, t);
    NewKeyKeepsGroups(ks, t);
    NewKeyGroup(ks, t);
    SnocExtensional(GroupsOf(ks + [t]), GroupsOf(ks), Group(t.from, t.to, [t], false));
  }

  /** A known key gets the transition appended to its group. */
  lemma GroupsOfKnown(ks: seq<Transition>, t: Transition, k: nat)
    requires k < |GroupsOf(ks)| && GroupsOf(ks)[k].from == t.from && GroupsOf(ks)[k].to == t.to
    ensures var g := GroupsOf(ks);
      GroupsOf(ks + [t]) == g[k := g[k].(transitions := g[k].transitions + [t])]
  {
    var keys := KeysOf(ks);
    var g := GroupsOf(ks);
    assert keys[k] == KeyOf(t);
    KeysStep(ks, t);
    var g' := GroupsOf(ks + [t]);
    assert |g'| == |g|;
    forall i | 0 <= i < |g'|
      ensures g'[i] == g[k := g[k].(transitions := g[k].transitions + [t])][i]
    {
      GroupsOfStepAt(ks, t, i);
    }
  }

  /** The grouping loop of `renderTransitions`: drawable transitions go into
      the group of their ends, a new group opening at the end. */
  method GroupDrawable(states: seq<State>, ts: seq<Transition>) returns (groups: seq<Group>)
    ensures groups == Grouped(states, ts)
  {
    groups := [];
    var j := 0;
    while j < |ts|
      invariant 0 <= j <= |ts|
      invariant groups == Grouped(states, ts[..j])
    {
      var t := ts[j];
      var fromState := FindState(states, t.from);
      var toState := FindState(states, t.to);
      ghost var ks := Kept(states, ts[..j]);
      KeptStep(states, ts, j);
      assert Drawable(states, t) ==> Kept(states, ts[..j + 1]) == ks + [t];
      assert !Drawable(states, t) ==> Kept(states, ts[..j + 1]) == ks;
      if fromState.Some? && toState.Some? {
        var k := FindGroup(groups, t.from, t.to);
        if k == -1 {
          GroupsOfNew(ks, t);
          groups := groups + [Group(t.from, t.to, [t], false)];
        } else {
          GroupsOfKnown(ks, t, k);
          groups := groups[k := groups[k].(transitions := groups[k].transitions + [t])];
        }
      }
      j := j + 1;
    }
    assert ts[..|ts|] == ts;
  }

  /** The flagging loop of `renderTransitions`: each group learns whether the
      opposite pair is also a group. */
  method FlagReverses(base: seq<Group>) returns (groups: seq<Group>)
    ensures groups == WithReverse(base)
  {
    groups := base;
    var i := 0;
    while i < |groups|
      invariant 0 <= i <= |groups| == |base|
      invariant forall m :: 0 <= m < i ==> groups[m] == WithReverse(base)[m]
      invariant forall m :: i <= m < |groups| ==> groups[m] == base[m]
    {
      var rk := FindGroup(base, groups[i].to, groups[i].from);
      groups := groups[i := groups[i].(reverseExists := rk >= 0)];
      i := i + 1;
    }
  }

  /** The grouping and flagging loops of `renderTransitions`. */
  method GroupTransitions(states: seq<State>, ts: seq<Transition>) returns (groups: seq<Group>)
    ensures groups == WithReverse(Grouped(states, ts))
  {
    var base := GroupDrawable(states, ts);
    groups := FlagReverses(base);
  }

  /** Every drawable transition lies in exactly one group, the one with its
      own ends; a transition naming a missing state lies in none. */
  lemma EachTransitionInOneGroup(states: seq<State>, ts: seq<Transition>, t: Transition)
    requires t in ts
    ensures var g := WithReverse(Grouped(states, ts));
      && (Drawable(states, t) ==>
            exists i :: 0 <= i < |g| && t in g[i].transitions && g[i].from == t.from && g[i].to == t.to)
      && (forall i, j :: 0 <= i < |g| && 0 <= j < |g| && t in g[i].transitions && t in g[j].transitions ==> i == j)
      && (!Drawable(states, t) ==> forall i :: 0 <= i < |g| ==> t !in g[i].transitions)
  {
    var ks := Kept(states, ts);
    var keys := KeysOf(ks);
    var g := WithReverse(Grouped(states, ts));
    assert forall i :: 0 <= i < |g| ==> g[i].transitions == Members(ks, keys[i]);
    if Drawable(states, t) {
      assert KeyOf(t) in keys;
      var i :| 0 <= i < |keys| && keys[i] == KeyOf(t);
      assert t in g[i].transitions;
    }
  }

  /** The index of the first transition of `ks` with key `k`, or `|ks|` when
      no transition has it. */
  function FirstAt(ks: seq<Transition>, k: Key): (r: nat)
    ensures r <= |ks|
    ensures r < |ks| ==> KeyOf(ks[r]) == k
    ensures forall i :: 0 <= i < r ==> KeyOf(ks[i]) != k
    decreases |ks|
  {
    if ks == [] then 0
    else if KeyOf(ks[0]) == k then 0
    else
      var r := FirstAt(ks[1..], k);
      assert forall i :: 1 <= i < r + 1 ==> ks[i] == ks[1..][i - 1];
      r + 1
  }

  /** A key of the list is found inside it. */
  lemma FirstAtOfKey(ks: seq<Transition>, k: Key)
    requires k in KeysOf(ks)
    ensures FirstAt(ks, k) < |ks|
  {
    var t :| t in ks && KeyOf(t) == k;
    var m :| 0 <= m < |ks| && ks[m] == t;
    assert FirstAt(ks, k) <= m;
  }

  lemma FirstAtPrefix(ks: seq<Transition>, t: Transition, k: Key)
    requires k in KeysOf(ks)
    ensures FirstAt(ks + [t], k) == FirstAt(ks, k)
  {
    FirstAtOfKey(ks, k);
    var a := FirstAt(ks, k);
    var b := FirstAt(ks + [t], k);
    assert (ks + [t])[a] == ks[a];
    assert b <= a;
    assert b < |ks| && (ks + [t])[b] == ks[b];
  }

  /** Keys are listed in the order in which they first occur. */
  lemma {:induction false} KeysInFirstOccurrenceOrder(ks: seq<Transition>)
    ensures var keys := KeysOf(ks);
      forall i, j :: 0 <= i < j < |keys| ==> FirstAt(ks, keys[i]) < FirstAt(ks, keys[j])
    decreases |ks|
  {
    if ks != [] {
      var init := ks[..|ks| - 1];
      var t := ks[|ks| - 1];
      assert ks == init + [t];
      KeysInFirstOccurrenceOrder(init);
      var ki := KeysOf(init);
      var keys := KeysOf(ks);
      forall i, j | 0 <= i < j < |keys| ensures FirstAt(ks, keys[i]) < FirstAt(ks, keys[j]) {
        FirstAtPrefix(init, t, keys[i]);
        if j < |ki| {
          FirstAtPrefix(init, t, keys[j]);
        } else {
          FirstAtOfKey(init, keys[i]);
          assert keys[j] == KeyOf(t) && keys[j] !in ki;
          assert forall m :: 0 <= m < |init| ==> ks[m] == init[m] && init[m] in init;
          assert FirstAt(ks, keys[j]) >= |init|;
        }
      }
    }
  }

  // ---------------------------------------------------------------------------
  // How a group is drawn

  datatype Shape = SelfLoop | Straight | Curved | Stacked

  /** The branch `renderTransitions` takes for a group. */
  function Classify(g: Group): (r: Shape)
    ensures r == SelfLoop <==> g.from == g.to
    ensures r == Straight <==> g.from != g.to && |g.transitions| == 1 && !g.reverseExists
    ensures r == Curved <==> g.from != g.to && g.reverseExists
    ensures r == Stacked <==> g.from != g.to && |g.transitions| != 1 && !g.reverseExists
  {
    if g.from == g.to then SelfLoop
    else if |g.transitions| == 1 && !g.reverseExists then Straight
    else if g.reverseExists then Curved
    else Stacked
  }

  /** Arrows drawn for a group: one per transition when curved, else one. */
  function ArrowCount(g: Group): (r: nat)
    ensures Classify(g) == Curved ==> r == |g.transitions|
    ensures Classify(g) != Curved ==> r == 1
  {
    if Classify(g) == Curved then |g.transitions| else 1
  }

  /** Every group holds at least one transition, so a stacked group holds at least two. */
  lemma GroupsAreNonEmpty(states: seq<State>, ts: seq<Transition>)
    ensures var g := WithReverse(Grouped(states, ts));
      forall i :: 0 <= i < |g| ==>
        (|g[i].transitions| >= 1 && (Classify(g[i]) == Stacked ==> |g[i].transitions| >= 2))
  {
    var ks := Kept(states, ts);
    var keys := KeysOf(ks);
    var g := WithReverse(Grouped(states, ts));
    forall i | 0 <= i < |g| ensures |g[i].transitions| >= 1 {
      assert keys[i] in keys;
      var t :| t in ks && KeyOf(t) == keys[i];
      assert t in Members(ks, keys[i]);
    }
  }

  /** Curved arrows come in opposite pairs: the group of the reverse direction
      exists and is curved too. */
  lemma CurvedComeInPairs(groups: seq<Group>, i: nat)
    requires i < |groups| && Classify(WithReverse(groups)[i]) == Curved
    ensures var g := WithReverse(groups);
      exists j :: 0 <= j < |g| && j != i && g[j].from == g[i].to && g[j].to == g[i].from
        && Classify(g[j]) == Curved
  {
    var g := WithReverse(groups);
    var j :| 0 <= j < |groups| && groups[j].from == groups[i].to && groups[j].to == groups[i].from;
    assert g[j].reverseExists;
  }

  // ---------------------------------------------------------------------------
  // Self-loop labels

  datatype LabelLayout = Vertical | CompactVertical | TwoColumn

  /** The layout `renderSelfLoop` picks for `n` transitions. */
  function SelfLoopLayout(n: nat): (r: LabelLayout)
    ensures r == Vertical <==> n <= 2
    ensures r == CompactVertical <==> 3 <= n <= 4
    ensures r == TwoColumn <==> n >= 5
  {
    if n <= 2 then Vertical else if n <= 4 then CompactVertical else TwoColumn
  }

  /** `filter((_, index) => index % 2 === 0)`. */
  function Evens<T>(ts: seq<T>): (r: seq<T>)
    ensures |r| == (|ts| + 1) / 2
    ensures forall i :: 0 <= i < |r| ==> r[i] == ts[2 * i]
    decreases |ts|
  {
    if ts == [] then []
    else Evens(ts[..|ts| - 1]) + (if (|ts| - 1) % 2 == 0 then [ts[|ts| - 1]] else [])
  }

  /** `filter((_, index) => index % 2 === 1)`. */
  function Odds<T>(ts: seq<T>): (r: seq<T>)
    ensures |r| == |ts| / 2
    ensures forall i :: 0 <= i < |r| ==> r[i] == ts[2 * i + 1]
    decreases |ts|
  {
    if ts == [] then []
    else Odds(ts[..|ts| - 1]) + (if (|ts| - 1) % 2 == 1 then [ts[|ts| - 1]] else [])
  }

  /** Taking the two columns in turn gives the transitions back. */
  function Interleave<T>(left: seq<T>, right: seq<T>): (r: seq<T>)
    requires |right| <= |left| <= |right| + 1
    ensures |r| == |left| + |right|
    ensures forall i :: 0 <= i < |r| ==> r[i] == if i % 2 == 0 then left[i / 2] else right[i / 2]
    decreases |left| + |right|
  {
    if left == [] then []
    else [left[0]] + Interleave(right, left[1..])
  }

  lemma ColumnsPartition<T>(ts: seq<T>)
    ensures |Evens(ts)| + |Odds(ts)| == |ts|
    ensures Interleave(Evens(ts), Odds(ts)) == ts
  {
    var r := Interleave(Evens(ts), Odds(ts));
    forall i | 0 <= i < |ts| ensures r[i] == ts[i] {
      if i % 2 == 0 {
        assert 2 * (i / 2) == i;
      } else {
        assert 2 * (i / 2) + 1 == i;
      }
    }
  }

  datatype Column = Left | Right

  /** A label: its column, its row and the transition it shows. */
  datatype Label = Label(column: Column, row: nat, transition: Transition)

  /** The labels of the two columns: the left column first, then the right. */
  function ColumnLabels(ts: seq<Transition>): (r: seq<Label>)
    ensures |r| == |ts|
    ensures forall m :: 0 <= m < (|ts| + 1) / 2 ==> r[m] == Label(Left, m, ts[2 * m])
    ensures forall m :: (|ts| + 1) / 2 <= m < |ts| ==>
      r[m] == Label(Right, m - (|ts| + 1) / 2, ts[2 * (m - (|ts| + 1) / 2) + 1])
  {
    var left := Evens(ts);
    var right := Odds(ts);
    seq(|left|, m requires 0 <= m < |left| => Label(Left, m, left[m]))
      + seq(|right|, m requires 0 <= m < |right| => Label(Right, m, right[m]))
  }

  /** Row indices 0 .. n-1. */
  function Rows(n: nat): (r: seq<nat>)
    ensures |r| == n && forall i :: 0 <= i < n ==> r[i] == i
  {
    seq(n, i requires 0 <= i < n => i)
  }

  /** The discrete part of `createTwoColumnLayout`: labels in two columns and
      a separator on each row that has both. */
  method TwoColumnLayout(transitions: seq<Transition>) returns (labels: seq<Label>, separators: seq<nat>)
    ensures labels == ColumnLabels(transitions)
    ensures separators == Rows(|transitions| / 2)
  {
    var left := Evens(transitions);
    var right := Odds(transitions);
    labels := [];
    var i := 0;
    while i < |left|
      invariant 0 <= i <= |left|
      invariant labels == seq(i, m requires 0 <= m < i => Label(Left, m, left[m]))
    {
      labels := labels + [Label(Left, i, left[i])];
      i := i + 1;
    }
    i := 0;
    while i < |right|
      invariant 0 <= i <= |right|
      invariant labels == seq(|left|, m requires 0 <= m < |left| => Label(Left, m, left[m]))
                          + seq(i, m requires 0 <= m < i => Label(Right, m, right[m]))
    {
      labels := labels + [Label(Right, i, right[i])];
      i := i + 1;
    }
    separators := [];
    var minRows := if |left| < |right| then |left| else |right|;
    i := 0;
    while i < minRows
      invariant 0 <= i <= minRows
      invariant separators == Rows(i)
    {
      separators := separators + [i];
      i := i + 1;
    }
  }

  /** Every transition gets the label of its parity and half-index: even
      indices in the left column, odd indices in the right. */
  lemma ColumnLabelsPlaceEveryTransition(ts: seq<Transition>)
    ensures forall k :: 0 <= k < |ts| ==>
      Label(if k % 2 == 0 then Left else Right, k / 2, ts[k]) in ColumnLabels(ts)
  {
    var labels := ColumnLabels(ts);
    var nl := (|ts| + 1) / 2;
    forall k | 0 <= k < |ts|
      ensures Label(if k % 2 == 0 then Left else Right, k / 2, ts[k]) in labels
    {
      if k % 2 == 0 {
        assert 2 * (k / 2) == k;
        assert labels[k / 2] == Label(Left, k / 2, ts[k]);
      } else {
        assert 2 * (k / 2) + 1 == k;
        assert labels[nl + k / 2] == Label(Right, k / 2, ts[k]);
      }
    }
  }

  /** Every label shows the transition its column and row stand for, and no
      row lies beyond the longer column. */
  lemma ColumnLabelsShowTheirTransition(ts: seq<Transition>)
    ensures forall l :: l in ColumnLabels(ts) ==>
      (l.row < (|ts| + 1) / 2 &&
       (l.column == Left ==> l.transition == ts[2 * l.row]) &&
       (l.column == Right ==> 2 * l.row + 1 < |ts| && l.transition == ts[2 * l.row + 1]))
  {
    var labels := ColumnLabels(ts);
    var nl := (|ts| + 1) / 2;
    forall l | l in labels
      ensures l.row < nl &&
        (l.column == Left ==> l.transition == ts[2 * l.row]) &&
        (l.column == Right ==> 2 * l.row + 1 < |ts| && l.transition == ts[2 * l.row + 1])
    {
      var m :| 0 <= m < |labels| && labels[m] == l;
      if m >= nl {
        assert l == Label(Right, m - nl, ts[2 * (m - nl) + 1]);
      }
    }
  }

  /** Each separator row holds a label in both columns: an even-indexed
      transition on the left and the transition after it on the right. */
  lemma SeparatorRowsAreFull(ts: seq<Transition>)
    ensures forall row :: 0 <= row < |ts| / 2 ==>
      && Label(Left, row, ts[2 * row]) in ColumnLabels(ts)
      && Label(Right, row, ts[2 * row + 1]) in ColumnLabels(ts)
  {
    var labels := ColumnLabels(ts);
    var nl := (|ts| + 1) / 2;
    forall row | 0 <= row < |ts| / 2
      ensures Label(Left, row, ts[2 * row]) in labels && Label(Right, row, ts[2 * row + 1]) in labels
    {
      assert labels[row] == Label(Left, row, ts[2 * row]);
      assert labels[nl + row] == Label(Right, row, ts[2 * row + 1]);
    }
  }

  /** No right-column label lies below the separator rows, so the rows with
      a separator are exactly the rows with two labels. */
  lemma RightColumnEndsAtSeparators(ts: seq<Transition>)
    ensures forall l :: l in ColumnLabels(ts) && l.column == Right ==> l.row < |ts| / 2
  {
    var labels := ColumnLabels(ts);
    var nl := (|ts| + 1) / 2;
    forall l | l in labels && l.column == Right
      ensures l.row < |ts| / 2
    {
      var m :| 0 <= m < |labels| && labels[m] == l;
      assert m >= nl;
    }
  }

  // ---------------------------------------------------------------------------
  // The visualizer's fields

  class PdaVisualizer {
    var pda: Option<Pda>
    var currentState: Option<string>
    var currentTransition: Option<string>
    var currentStack: seq<string>
    var remainingInput: string

    /** The constructor followed by `initialize`, which empties the stack and
        the input. */
    constructor ()
      ensures pda == None && currentState == None && currentTransition == None
      ensures currentStack == [] && remainingInput == ""
    {
      pda := None;
      currentState := None;
      currentTransition := None;
      currentStack := [];
      remainingInput := "";
    }

    /** `setPDA`: the diagram starts at the start state. */
    method SetPda(p: Pda)
      modifies this
      ensures pda == Some(p) && currentState == Some(p.startState)
      ensures currentTransition == old(currentTransition)
      ensures currentStack == old(currentStack) && remainingInput == old(remainingInput)
    {
      pda := Some(p);
      currentState := Some(p.startState);
    }

    /** `updateState`: a missing stack or input is stored as empty. */
    method UpdateState(stateName: string, transitionLabel: Option<string>,
                       stackContents: Option<seq<string>>, input: Option<string>)
      modifies this
      ensures pda == old(pda)
      ensures currentState == Some(stateName) && currentTransition == transitionLabel
      ensures currentStack == (if stackContents.Some? then stackContents.value else [])
      ensures remainingInput == (if input.Some? then input.value else "")
    {
      currentState := Some(stateName);
      currentTransition := transitionLabel;
      currentStack := if stackContents.Some? then stackContents.value else [];
      remainingInput := if input.Some? then input.value else "";
    }

    /** `reset`: without a PDA nothing; with one, back to its start state with
        no transition, an empty stack and no input. */
    method Reset()
      modifies this
      ensures pda == old(pda)
      ensures old(pda).None? ==>
        && currentState == old(currentState) && currentTransition == old(currentTransition)
        && currentStack == old(currentStack) && remainingInput == old(remainingInput)
      ensures old(pda).Some? ==>
        && currentState == Some(pda.value.startState) && currentTransition == None
        && currentStack == [] && remainingInput == ""
    {
      if pda.Some? {
        currentState := Some(pda.value.startState);
        currentTransition := None;
        currentStack := [];
        remainingInput := "";
      }
    }
  }

  // ---------------------------------------------------------------------------
  // The key as written

  /** The key `renderTransitions` builds: the two ids joined by a dash. */
  function KeyTextAsWritten(from: string, to: string): (r: string)
    ensures |r| == |from| + 1 + |to|
    ensures r[..|from|] == from && r[|from|] == '-' && r[|from| + 1..] == to
  {
    from + "-" + to
  }

  /** Ids that contain a dash collide: the pairs (a-b, c) and (a, b-c) get the
      same key text, so their transitions would share one group and one arrow. */
  lemma DashedIdsCollide()
    ensures KeyTextAsWritten("a-b", "c") == KeyTextAsWritten("a", "b-c")
    ensures Key("a-b", "c") != Key("a", "b-c")
  {
  }

  /** With pair keys, two groups never share ends. */
  lemma GroupEndsAreDistinct(states: seq<State>, ts: seq<Transition>)
    ensures var g := WithReverse(Grouped(states, ts));
      forall i, j :: 0 <= i < j < |g| ==> Key(g[i].from, g[i].to) != Key(g[j].from, g[j].to)
  {
    var keys := KeysOf(Kept(states, ts));
    var g := WithReverse(Grouped(states, ts));
    assert forall i :: 0 <= i < |g| ==> Key(g[i].from, g[i].to) == keys[i];
  }
}
