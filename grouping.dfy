/** Grouping a sequence into runs that each start at a "head" element: the
    shape of a listing in which a header line opens a new section and the
    lines after it belong to that section until the next header. */
module Grouping {

  /** A head element and the elements after it up to the next head. */
  datatype Group<T> = Group(head: T, body: seq<T>)

  /** `gs` with `x` appended to the body of its last group. */
  function Extend<T>(gs: seq<Group<T>>, x: T): (r: seq<Group<T>>)
    requires gs != []
    ensures |r| == |gs| && r[..|gs| - 1] == gs[..|gs| - 1]
    ensures r[|gs| - 1] == Group(gs[|gs| - 1].head, gs[|gs| - 1].body + [x])
  {
    var last := gs[|gs| - 1];
    gs[..|gs| - 1] + [Group(last.head, last.body + [x])]
  }

  /** A property of every group carries over to `Extend` when the grown last
      group has it too. */
  lemma ExtendKeeps<T>(gs: seq<Group<T>>, x: T, P: Group<T> -> bool)
    requires gs != [] && forall j :: 0 <= j < |gs| ==> P(gs[j])
    requires P(Group(gs[|gs| - 1].head, gs[|gs| - 1].body + [x]))
    ensures forall j :: 0 <= j < |gs| ==> P(Extend(gs, x)[j])
  {
    var r := Extend(gs, x);
    forall j | 0 <= j < |gs|
      ensures P(r[j])
    {
      if j < |gs| - 1 {
        assert r[j] == r[..|gs| - 1][j];
      }
    }
  }

  /** A sequence that agrees with `rs` except at its last position. */
  lemma ReplaceLast<R>(rs: seq<R>, rs': seq<R>, c: R)
    requires |rs'| == |rs| > 0
    requires forall j :: 0 <= j < |rs| - 1 ==> rs'[j] == rs[j]
    requires rs'[|rs| - 1] == c
    ensures rs' == rs[..|rs| - 1] + [c]
  {
  }

  /** The groups of `xs`, read element by element: a head opens a new group,
      any other element joins the last group, or belongs to no group when no
      head has come yet. */
  function Groups<T>(xs: seq<T>, isHead: T -> bool): seq<Group<T>>
  {
    if xs == [] then []
    else
      var gs, x := Groups(xs[..|xs| - 1], isHead), xs[|xs| - 1];
      if isHead(x) then gs + [Group(x, [])]
      else if gs == [] then []
      else Extend(gs, x)
  }

  lemma GroupsSnoc<T>(xs: seq<T>, isHead: T -> bool, x: T)
    ensures Groups(xs + [x], isHead) ==
      if isHead(x) then Groups(xs, isHead) + [Group(x, [])]
      else if Groups(xs, isHead) == [] then []
      else Extend(Groups(xs, isHead), x)
  {
    assert (xs + [x])[..|xs|] == xs;
  }

  /** The number of elements before the first head. */
  function Lead<T>(xs: seq<T>, isHead: T -> bool): (n: nat)
    ensures n <= |xs|
    ensures forall k :: 0 <= k < n ==> !isHead(xs[k])
    ensures n < |xs| ==> isHead(xs[n])
  {
    if xs != [] && !isHead(xs[0]) then 1 + Lead(xs[1..], isHead) else 0
  }

  lemma {:induction false} LeadIs<T>(xs: seq<T>, isHead: T -> bool, n: nat)
    requires n <= |xs|
    requires forall k :: 0 <= k < n ==> !isHead(xs[k])
    requires n < |xs| ==> isHead(xs[n])
    ensures Lead(xs, isHead) == n
    decreases n
  {
    if n > 0 {
      LeadIs(xs[1..], isHead, n - 1);
    }
  }

  /** The elements of the groups laid end to end. */
  function Flatten<T>(gs: seq<Group<T>>): seq<T> {
    if gs == [] then [] else Flatten(gs[..|gs| - 1]) + [gs[|gs| - 1].head] + gs[|gs| - 1].body
  }

  lemma FlattenExtend<T>(gs: seq<Group<T>>, x: T)
    requires gs != []
    ensures Flatten(Extend(gs, x)) == Flatten(gs) + [x]
  {
    var r := Extend(gs, x);
    assert r[..|r| - 1] == gs[..|gs| - 1];
  }

  /** The group starts with a head and its body holds none. */
  predicate WellGrouped<T>(g: Group<T>, isHead: T -> bool) {
    isHead(g.head) && forall k :: 0 <= k < |g.body| ==> !isHead(g.body[k])
  }

  /** The groups partition everything from the first head on: laid end to end
      they give back `xs` without its leading non-heads, and each starts with
      a head and holds no other (`GroupsWellGrouped`). Cut points at the heads
      are the only ones with that property, so this pins the grouping down. */
  lemma {:induction false} GroupsPartition<T>(xs: seq<T>, isHead: T -> bool)
    ensures Flatten(Groups(xs, isHead)) == xs[Lead(xs, isHead)..]
    ensures Groups(xs, isHead) == [] <==> Lead(xs, isHead) == |xs|
  {
    if xs != [] {
      var init, x := xs[..|xs| - 1], xs[|xs| - 1];
      assert xs == init + [x];
      GroupsPartition(init, isHead);
      PartitionStep(init, isHead, x);
    }
  }

  /** One element more keeps the partition. */
  lemma PartitionStep<T>(init: seq<T>, isHead: T -> bool, x: T)
    requires Flatten(Groups(init, isHead)) == init[Lead(init, isHead)..]
    requires Groups(init, isHead) == [] <==> Lead(init, isHead) == |init|
    ensures Flatten(Groups(init + [x], isHead)) == (init + [x])[Lead(init + [x], isHead)..]
    ensures Groups(init + [x], isHead) == [] <==> Lead(init + [x], isHead) == |init| + 1
  {
    var n := Lead(init, isHead);
    if n < |init| {
      PartitionAfterHead(init, isHead, x, n);
    } else {
      PartitionBeforeHead(init, isHead, x);
    }
  }

  lemma PartitionBeforeHead<T>(init: seq<T>, isHead: T -> bool, x: T)
    requires Lead(init, isHead) == |init| && Groups(init, isHead) == []
    ensures Flatten(Groups(init + [x], isHead)) == (init + [x])[Lead(init + [x], isHead)..]
    ensures Groups(init + [x], isHead) == [] <==> Lead(init + [x], isHead) == |init| + 1
  {
    GroupsSnoc(init, isHead, x);
    if isHead(x) {
      LeadIs(init + [x], isHead, |init|);
      FlattenSnoc([], Group(x, []));
      assert (init + [x])[|init|..] == [x];
    } else {
      LeadIs(init + [x], isHead, |init| + 1);
    }
  }

  lemma PartitionAfterHead<T>(init: seq<T>, isHead: T -> bool, x: T, n: nat)
    requires n == Lead(init, isHead) && n < |init|
    requires Groups(init, isHead) != [] && Flatten(Groups(init, isHead)) == init[n..]
    ensures Lead(init + [x], isHead) == n
    ensures Groups(init + [x], isHead) != []
    ensures Flatten(Groups(init + [x], isHead)) == (init + [x])[n..]
  {
    GroupsSnocFlatten(init, isHead, x);
    LeadIs(init + [x], isHead, n);
    SliceSnoc(init, x, n);
  }

  lemma SliceSnoc<T>(s: seq<T>, x: T, n: nat)
    requires n <= |s|
    ensures (s + [x])[n..] == s[n..] + [x]
  {
  }

  lemma FlattenSnoc<T>(gs: seq<Group<T>>, g: Group<T>)
    ensures Flatten(gs + [g]) == Flatten(gs) + [g.head] + g.body
  {
    assert (gs + [g])[..|gs|] == gs;
  }

  /** Once there is a group, every further element lands in the groups. */
  lemma GroupsSnocFlatten<T>(init: seq<T>, isHead: T -> bool, x: T)
    requires Groups(init, isHead) != []
    ensures Groups(init + [x], isHead) != []
    ensures Flatten(Groups(init + [x], isHead)) == Flatten(Groups(init, isHead)) + [x]
  {
    GroupsSnoc(init, isHead, x);
    var gs := Groups(init, isHead);
    if isHead(x) {
      FlattenSnoc(gs, Group(x, []));
    } else {
      FlattenExtend(gs, x);
    }
  }

  lemma {:induction false} GroupsWellGrouped<T>(xs: seq<T>, isHead: T -> bool)
    ensures forall j :: 0 <= j < |Groups(xs, isHead)| ==> WellGrouped(Groups(xs, isHead)[j], isHead)
  {
    if xs != [] {
      var init, x := xs[..|xs| - 1], xs[|xs| - 1];
      GroupsWellGrouped(init, isHead);
      var gs := Groups(init, isHead);
      if isHead(x) {
        var r := gs + [Group(x, [])];
        assert forall j :: 0 <= j < |gs| ==> r[j] == gs[j];
      } else if gs != [] {
        ExtendWellGrouped(gs, isHead, x);
      }
    }
  }

  lemma ExtendWellGrouped<T>(gs: seq<Group<T>>, isHead: T -> bool, x: T)
    requires gs != [] && !isHead(x)
    requires forall j :: 0 <= j < |gs| ==> WellGrouped(gs[j], isHead)
    ensures forall j :: 0 <= j < |gs| ==> WellGrouped(Extend(gs, x)[j], isHead)
  {
    var r := Extend(gs, x);
    forall j | 0 <= j < |gs|
      ensures WellGrouped(r[j], isHead)
    {
      if j < |gs| - 1 {
        assert r[j] == r[..|gs| - 1][j];
      } else {
        var b := gs[j].body + [x];
        assert forall k :: 0 <= k < |b| ==> b[k] == x || b[k] == gs[j].body[k];
      }
    }
  }

  /** The heads of `xs`, in order. */
  function Heads<T>(xs: seq<T>, isHead: T -> bool): (hs: seq<T>)
    ensures forall j :: 0 <= j < |hs| ==> isHead(hs[j])
  {
    if xs == [] then []
    else
      var last := xs[|xs| - 1];
      Heads(xs[..|xs| - 1], isHead) + (if isHead(last) then [last] else [])
  }

  /** One group per head, in the order of the heads, and a property every
      element has is one every head and every body element has. */
  lemma {:induction false} GroupsFacts<T>(xs: seq<T>, isHead: T -> bool, p: T -> bool)
    requires forall k :: 0 <= k < |xs| ==> p(xs[k])
    ensures |Groups(xs, isHead)| == |Heads(xs, isHead)|
    ensures forall j :: 0 <= j < |Groups(xs, isHead)| ==> Groups(xs, isHead)[j].head == Heads(xs, isHead)[j]
    ensures forall j :: 0 <= j < |Groups(xs, isHead)| ==> AllOf(Groups(xs, isHead)[j], p)
  {
    if xs != [] {
      var init, x := xs[..|xs| - 1], xs[|xs| - 1];
      GroupsFacts(init, isHead, p);
      var gs := Groups(init, isHead);
      if !isHead(x) && gs != [] {
        var last := gs[|gs| - 1];
        assert AllOf(last, p);
        assert AllOf(Group(last.head, last.body + [x]), p);
      }
    }
  }

  /** Every element of the group satisfies `p`. */
  predicate AllOf<T>(g: Group<T>, p: T -> bool) {
    p(g.head) && forall k :: 0 <= k < |g.body| ==> p(g.body[k])
  }
}
