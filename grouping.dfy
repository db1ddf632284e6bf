/** The helper `group_consecutive_idx`, which splits an ascending list of
    token indices into its maximal runs of consecutive indices. */
module Grouping {

  /** Strictly ascending integers, as a list of candidate indices is: each
      element is below the next. */
  ghost predicate StrictlyAscending(xs: seq<int>) {
    |xs| <= 1 || (xs[0] < xs[1] && StrictlyAscending(xs[1..]))
  }

  /** `g` counts upwards by one from its first element. */
  ghost predicate Consecutive(g: seq<int>) {
    forall j :: 0 <= j < |g| ==> g[j] == g[0] + j
  }

  /** Non-empty runs of consecutive integers, each ending at least two below
      the start of the next one. */
  ghost predicate SeparatedRuns(gs: seq<seq<int>>) {
    && (forall k :: 0 <= k < |gs| ==> |gs[k]| > 0 && Consecutive(gs[k]))
    && (forall k :: 0 <= k < |gs| - 1 ==> Last(gs[k]) + 1 < gs[k + 1][0])
  }

  function Last(g: seq<int>): int
    requires |g| > 0
  {
    g[|g| - 1]
  }

  /** The integers `lo`, `lo + 1`, ..., `hi - 1`. */
  function Range(lo: int, hi: int): (r: seq<int>)
    requires lo <= hi
    ensures |r| == hi - lo
    ensures forall j :: 0 <= j < |r| ==> r[j] == lo + j
  {
    seq(hi - lo, j => lo + j)
  }

  /** Concatenation of the groups, in order. */
  function Flatten(gs: seq<seq<int>>): seq<int> {
    if gs == [] then [] else gs[0] + Flatten(gs[1..])
  }

  /** Splits `xs` into groups of consecutive integers: non-empty runs that
      count upwards by one, with a gap between each run and the next, the
      first one starting at the first element. GroupsPartition and
      GroupIsMaximal below state the rest of what the grouping promises. */
  function GroupConsecutive(xs: seq<int>): (gs: seq<seq<int>>)
    requires StrictlyAscending(xs)
    ensures |gs| == 0 <==> |xs| == 0
    ensures SeparatedRuns(gs)
    ensures |xs| > 0 ==> gs[0][0] == xs[0]
  {
    if |xs| == 0 then []
    else
      var x, tail := xs[0], xs[1..];
      var rest := GroupConsecutive(tail);
      if |rest| > 0 && rest[0][0] == x + 1 then
        var head := [x] + rest[0];
        assert Last(head) == Last(rest[0]);
        [head] + rest[1..]
      else
        assert |rest| > 0 ==> rest[0][0] == tail[0];
        [[x]] + rest
  }

  /** The groups concatenate back to `xs`: together they are a partition of
      `xs` that keeps its order. */
  lemma {:induction false} GroupsPartition(xs: seq<int>)
    requires StrictlyAscending(xs)
    ensures Flatten(GroupConsecutive(xs)) == xs
  {
    if |xs| > 0 {
      var rest := GroupConsecutive(xs[1..]);
      GroupsPartition(xs[1..]);
      if |rest| > 0 && rest[0][0] == xs[0] + 1 {
        assert rest == [rest[0]] + rest[1..];
        assert Flatten(rest) == rest[0] + Flatten(rest[1..]);
        assert ([[xs[0]] + rest[0]] + rest[1..])[1..] == rest[1..];
      } else {
        assert ([[xs[0]]] + rest)[1..] == rest;
      }
    }
  }

  /** In separated runs, every element of an earlier run lies more than one
      below every element of a later run. */
  lemma {:induction false} RunsAscending(gs: seq<seq<int>>, k: nat, l: nat)
    requires SeparatedRuns(gs)
    requires k < l < |gs|
    ensures Last(gs[k]) + 1 < gs[l][0]
    decreases l - k
  {
    if k + 1 < l {
      RunsAscending(gs, k + 1, l);
      assert gs[k + 1][0] <= Last(gs[k + 1]);
    }
  }

  /** No element of a separated run is the integer just before, or just
      after, another (or the same) run. */
  lemma RunBoundaryNotInRuns(gs: seq<seq<int>>, k: nat, l: nat, j: nat)
    requires SeparatedRuns(gs)
    requires k < |gs| && l < |gs| && j < |gs[l]|
    ensures gs[l][j] != gs[k][0] - 1 && gs[l][j] != Last(gs[k]) + 1
  {
    if l < k {
      RunsAscending(gs, l, k);
    } else if k < l {
      RunsAscending(gs, k, l);
    }
  }

  /** One element of one group is an element of `xs`: the per-element step,
      by induction on `xs`, that GroupWithin quantifies over a whole group. */
  lemma {:induction false} GroupMemberIn(xs: seq<int>, k: nat, j: nat)
    requires StrictlyAscending(xs)
    requires k < |GroupConsecutive(xs)| && j < |GroupConsecutive(xs)[k]|
    ensures GroupConsecutive(xs)[k][j] in xs
  {
    var x, tail := xs[0], xs[1..];
    var rest := GroupConsecutive(tail);
    var gs := GroupConsecutive(xs);
    if |rest| > 0 && rest[0][0] == x + 1 {
      assert gs == [[x] + rest[0]] + rest[1..];
      if k == 0 && j > 0 {
        GroupMemberIn(tail, 0, j - 1);
      } else if k > 0 {
        GroupMemberIn(tail, k, j);
      }
    } else {
      assert gs == [[x]] + rest;
      if k > 0 {
        GroupMemberIn(tail, k - 1, j);
      }
    }
  }

  /** Every element of `xs` sits in some group. */
  lemma {:induction false} FindInGroups(xs: seq<int>, v: int) returns (k: nat, j: nat)
    requires StrictlyAscending(xs)
    requires v in xs
    ensures k < |GroupConsecutive(xs)| && j < |GroupConsecutive(xs)[k]|
    ensures GroupConsecutive(xs)[k][j] == v
  {
    var x, tail := xs[0], xs[1..];
    var rest := GroupConsecutive(tail);
    var gs := GroupConsecutive(xs);
    if v == x {
      k, j := 0, 0;
    } else {
      assert v in tail;
      var k', j' := FindInGroups(tail, v);
      if |rest| > 0 && rest[0][0] == x + 1 {
        assert gs == [[x] + rest[0]] + rest[1..];
        k, j := k', if k' == 0 then j' + 1 else j';
      } else {
        assert gs == [[x]] + rest;
        k, j := k' + 1, j';
      }
    }
  }

  /** Every element of group `k` is an element of `xs`. */
  lemma GroupWithin(xs: seq<int>, k: nat)
    requires StrictlyAscending(xs)
    requires k < |GroupConsecutive(xs)|
    ensures forall j :: 0 <= j < |GroupConsecutive(xs)[k]| ==> GroupConsecutive(xs)[k][j] in xs
  {
    forall j | 0 <= j < |GroupConsecutive(xs)[k]| ensures GroupConsecutive(xs)[k][j] in xs {
      GroupMemberIn(xs, k, j);
    }
  }

  /** Each group is a maximal run of `xs`: the integer just before it and the
      integer just after it are not in `xs`. */
  lemma GroupIsMaximal(xs: seq<int>, k: nat)
    requires StrictlyAscending(xs)
    requires k < |GroupConsecutive(xs)|
    ensures GroupConsecutive(xs)[k][0] - 1 !in xs
    ensures Last(GroupConsecutive(xs)[k]) + 1 !in xs
  {
    var gs := GroupConsecutive(xs);
    if gs[k][0] - 1 in xs {
      var l, j := FindInGroups(xs, gs[k][0] - 1);
      RunBoundaryNotInRuns(gs, k, l, j);
      assert false;
    }
    if Last(gs[k]) + 1 in xs {
      var l, j := FindInGroups(xs, Last(gs[k]) + 1);
      RunBoundaryNotInRuns(gs, k, l, j);
      assert false;
    }
  }

  /** Every element of `xs` whose predecessor is missing from `xs` starts one
      of the groups. */
  lemma GroupStartingAt(xs: seq<int>, x: int) returns (k: nat)
    requires StrictlyAscending(xs)
    requires x in xs && x - 1 !in xs
    ensures k < |GroupConsecutive(xs)| && GroupConsecutive(xs)[k][0] == x
  {
    var j;
    k, j := FindInGroups(xs, x);
    if j > 0 {
      GroupMemberIn(xs, k, j - 1);
      assert false;
    }
  }
}
