/** `guess_ingredient_name`: when the tagger gave no token the NAME label,
    promote one run of consecutive tokens whose NAME confidence reaches the
    threshold to NAME. */
module NameRecovery {
  import opened Types
  import opened Grouping

  /** NAME confidence at or above which a token is a name candidate. */
  const NameThreshold: real := 0.2

  /** The indices from `from` on whose NAME confidence reaches the
      threshold, in ascending order. */
  function CandidatesFrom(nameScores: seq<real>, from: nat): (r: seq<int>)
    requires from <= |nameScores|
    ensures StrictlyAscending(r)
    ensures |r| > 0 ==> from <= r[0]
    ensures forall i :: i in r <==> from <= i < |nameScores| && nameScores[i] >= NameThreshold
    decreases |nameScores| - from
  {
    if from == |nameScores| then []
    else
      var rest := CandidatesFrom(nameScores, from + 1);
      if nameScores[from] >= NameThreshold then
        assert ([from] + rest)[1..] == rest;
        [from] + rest
      else rest
  }

  /** `candidate_indices`: the positions whose NAME confidence reaches the
      threshold, in ascending order. */
  function Candidates(nameScores: seq<real>): (r: seq<int>)
    ensures StrictlyAscending(r)
    ensures forall i :: i in r <==> 0 <= i < |nameScores| && nameScores[i] >= NameThreshold
  {
    CandidatesFrom(nameScores, 0)
  }

  ghost predicate SortedByLength(gs: seq<seq<int>>) {
    forall i, j :: 0 <= i < j < |gs| ==> |gs[i]| <= |gs[j]|
  }

  /** Puts `g` in front of the first group that is at least as long as it,
      so `g` stays ahead of the groups of equal length. */
  function InsertByLength(g: seq<int>, sorted: seq<seq<int>>): (r: seq<seq<int>>)
    ensures |r| == |sorted| + 1
  {
    if sorted == [] || |g| <= |sorted[0]| then [g] + sorted
    else [sorted[0]] + InsertByLength(g, sorted[1..])
  }

  /** `sorted(groups, key=len)`: a stable ascending sort by length. Any
      stable sort returns this same sequence. */
  function SortByLength(gs: seq<seq<int>>): (r: seq<seq<int>>)
    ensures |r| == |gs|
  {
    if gs == [] then [] else InsertByLength(gs[0], SortByLength(gs[1..]))
  }

  /** A length bound shared by `g` and every group of `sorted` holds for
      every group after the insertion. */
  lemma {:induction false} InsertByLengthBound(g: seq<int>, sorted: seq<seq<int>>, m: nat)
    requires m <= |g|
    requires forall j :: 0 <= j < |sorted| ==> m <= |sorted[j]|
    ensures forall j :: 0 <= j < |InsertByLength(g, sorted)| ==> m <= |InsertByLength(g, sorted)[j]|
  {
    if sorted != [] && |g| > |sorted[0]| {
      InsertByLengthBound(g, sorted[1..], m);
    }
  }

  /** Insertion keeps a sequence sorted by length. */
  lemma {:induction false} InsertByLengthSorted(g: seq<int>, sorted: seq<seq<int>>)
    requires SortedByLength(sorted)
    ensures SortedByLength(InsertByLength(g, sorted))
  {
    if sorted != [] && |g| > |sorted[0]| {
      var tail := sorted[1..];
      InsertByLengthSorted(g, tail);
      InsertByLengthBound(g, tail, |sorted[0]|);
    }
  }

  /** Insertion adds `g` and loses nothing. */
  lemma {:induction false} InsertByLengthPermutes(g: seq<int>, sorted: seq<seq<int>>)
    ensures multiset(InsertByLength(g, sorted)) == multiset(sorted) + multiset{g}
  {
    if sorted != [] && |g| > |sorted[0]| {
      InsertByLengthPermutes(g, sorted[1..]);
      assert sorted == [sorted[0]] + sorted[1..];
    }
  }

  /** The sort by length permutes the groups and leaves them in ascending
      order of length. */
  lemma {:induction false} SortByLengthSorts(gs: seq<seq<int>>)
    ensures SortedByLength(SortByLength(gs))
    ensures multiset(SortByLength(gs)) == multiset(gs)
  {
    if gs != [] {
      SortByLengthSorts(gs[1..]);
      InsertByLengthSorted(gs[0], SortByLength(gs[1..]));
      InsertByLengthPermutes(gs[0], SortByLength(gs[1..]));
      assert gs == [gs[0]] + gs[1..];
    }
  }

  /** Index of the first group among those of least length. */
  ghost function FirstShortest(gs: seq<seq<int>>): (k: nat)
    requires |gs| > 0
    ensures k < |gs|
    ensures forall j :: 0 <= j < |gs| ==> |gs[k]| <= |gs[j]|
    ensures forall j :: 0 <= j < k ==> |gs[k]| < |gs[j]|
  {
    if |gs| == 1 then 0
    else
      var k' := FirstShortest(gs[1..]);
      if |gs[0]| <= |gs[1 + k']| then 0 else 1 + k'
  }

  /** The element at position 0 of the stable sort by length is the first
      of the shortest groups. */
  lemma {:induction false} SortByLengthHead(gs: seq<seq<int>>)
    requires |gs| > 0
    ensures |SortByLength(gs)| == |gs|
    ensures SortByLength(gs)[0] == gs[FirstShortest(gs)]
  {
    if |gs| > 1 {
      SortByLengthHead(gs[1..]);
    }
  }

  /** The run whose tokens get the NAME label, if any: the candidates are
      grouped into runs of consecutive indices and element 0 of the runs
      sorted by length is taken. */
  function ChosenRun(nameScores: seq<real>): (r: Option<seq<int>>)
    ensures r.Some? <==> |Candidates(nameScores)| > 0
  {
    var candidates := Candidates(nameScores);
    if |candidates| == 0 then None
    else
      var groups := GroupConsecutive(candidates);
      Some(SortByLength(groups)[0])
  }

  /** Positions `lo` to `hi - 1` form a maximal run of name candidates: all
      reach the threshold, and neither neighbour exists or reaches it. */
  ghost predicate IsMaximalRun(nameScores: seq<real>, lo: int, hi: int) {
    && 0 <= lo < hi <= |nameScores|
    && (forall i :: lo <= i < hi ==> nameScores[i] >= NameThreshold)
    && (lo == 0 || nameScores[lo - 1] < NameThreshold)
    && (hi == |nameScores| || nameScores[hi] < NameThreshold)
  }

  /** A run is chosen exactly when some position reaches the threshold. */
  lemma ChosenRunExistsIffCandidate(nameScores: seq<real>)
    ensures ChosenRun(nameScores).Some? <==>
      exists i :: 0 <= i < |nameScores| && nameScores[i] >= NameThreshold
  {
    var c := Candidates(nameScores);
    if |c| > 0 {
      assert c[0] in c;
    }
  }

  /** The chosen run is one of the runs the grouping produced, namely the
      first of the shortest ones. */
  lemma ChosenRunIsFirstShortestGroup(nameScores: seq<real>) returns (k: nat)
    requires ChosenRun(nameScores).Some?
    ensures var groups := GroupConsecutive(Candidates(nameScores));
      && k < |groups|
      && ChosenRun(nameScores).value == groups[k]
      && (forall j :: 0 <= j < |groups| ==> |groups[k]| <= |groups[j]|)
      && (forall j :: 0 <= j < k ==> |groups[k]| < |groups[j]|)
  {
    var groups := GroupConsecutive(Candidates(nameScores));
    SortByLengthHead(groups);
    k := FirstShortest(groups);
  }

  /** The chosen run is a non-empty maximal run of consecutive candidate
      positions. */
  lemma ChosenRunIsMaximal(nameScores: seq<real>)
    requires ChosenRun(nameScores).Some?
    ensures var run := ChosenRun(nameScores).value;
      && |run| > 0
      && run == Range(run[0], run[0] + |run|)
      && IsMaximalRun(nameScores, run[0], run[0] + |run|)
  {
    var k := ChosenRunIsFirstShortestGroup(nameScores);
    GroupIsMaximalRun(nameScores, k, ChosenRun(nameScores).value);
  }

  /** Each group of the candidates is a maximal run of candidate positions. */
  lemma GroupIsMaximalRun(nameScores: seq<real>, k: nat, g: seq<int>)
    requires k < |GroupConsecutive(Candidates(nameScores))|
    requires g == GroupConsecutive(Candidates(nameScores))[k]
    ensures |g| > 0
    ensures g == Range(g[0], g[0] + |g|)
    ensures IsMaximalRun(nameScores, g[0], g[0] + |g|)
  {
    var c := Candidates(nameScores);
    GroupWithin(c, k);
    GroupIsMaximal(c, k);
    CandidateRunIsMaximal(nameScores, g);
  }

  /** A run of consecutive candidate positions whose two neighbours are not
      candidates is a maximal run. */
  lemma CandidateRunIsMaximal(nameScores: seq<real>, g: seq<int>)
    requires |g| > 0 && Consecutive(g)
    requires forall j :: 0 <= j < |g| ==> g[j] in Candidates(nameScores)
    requires g[0] - 1 !in Candidates(nameScores) && Last(g) + 1 !in Candidates(nameScores)
    ensures g == Range(g[0], g[0] + |g|)
    ensures IsMaximalRun(nameScores, g[0], g[0] + |g|)
  {
    var c := Candidates(nameScores);
    var lo, hi := g[0], g[0] + |g|;
    assert g[0] in c && g[|g| - 1] in c;
    assert Last(g) == hi - 1;
    forall i | lo <= i < hi ensures 0 <= i < |nameScores| && nameScores[i] >= NameThreshold {
      assert g[i - lo] == i && g[i - lo] in c;
    }
  }

  /** An integer at or above the start of a consecutive run whose elements
      all lie in `c`, but which is itself missing from `c`, lies past the run. */
  lemma RunEndsBefore(g: seq<int>, c: seq<int>, v: int)
    requires |g| > 0 && Consecutive(g)
    requires forall j :: 0 <= j < |g| ==> g[j] in c
    requires g[0] <= v && v !in c
    ensures g[0] + |g| <= v
  {
    var j := if v - g[0] < |g| then v - g[0] else 0;
    assert g[j] in c;
  }

  /** Every maximal run of candidates is one of the groups, with the same
      length. */
  lemma MaximalRunIsGroup(nameScores: seq<real>, lo: int, hi: int) returns (l: nat)
    requires IsMaximalRun(nameScores, lo, hi)
    ensures var groups := GroupConsecutive(Candidates(nameScores));
      l < |groups| && groups[l][0] == lo && |groups[l]| == hi - lo
  {
    var c := Candidates(nameScores);
    assert lo in c && lo - 1 !in c;
    l := GroupStartingAt(c, lo);
    var g := GroupConsecutive(c)[l];
    GroupWithin(c, l);
    GroupIsMaximal(c, l);
    assert hi !in c;
    RunEndsBefore(g, c, hi);
    assert Last(g) + 1 == lo + |g| && lo + |g| !in c;
    var m := if lo + |g| < hi then lo + |g| else lo;
    assert nameScores[m] >= NameThreshold && m in c;
  }

  /** Element 0 of the runs sorted by length is the SHORTEST maximal run, and
      among runs of that length the earliest one. (The comment beside the
      selection calls it the longest; the sort is ascending, so it is not.) */
  lemma ChosenRunIsShortest(nameScores: seq<real>, lo: int, hi: int)
    requires ChosenRun(nameScores).Some?
    requires IsMaximalRun(nameScores, lo, hi)
    ensures var run := ChosenRun(nameScores).value;
      && |run| <= hi - lo
      && (|run| == hi - lo ==> run[0] <= lo)
  {
    var groups := GroupConsecutive(Candidates(nameScores));
    var k := ChosenRunIsFirstShortestGroup(nameScores);
    var l := MaximalRunIsGroup(nameScores, lo, hi);
    if k < l {
      RunsAscending(groups, k, l);
    }
  }

  /** Three candidate positions in two runs, confidences 0.5, 0.5, 0.0, 0.5:
      the lone position 3 is chosen, not the longer run at positions 0 and 1. */
  lemma ChosenRunNotLongest(s: seq<real>)
    requires |s| == 4 && s[0] == 0.5 && s[1] == 0.5 && s[2] == 0.0 && s[3] == 0.5
    ensures IsMaximalRun(s, 0, 2)
    ensures ChosenRun(s) == Some([3])
  {
    ChosenRunExistsIffCandidate(s);
    assert s[0] >= NameThreshold;
    ChosenRunIsMaximal(s);
    var run := ChosenRun(s).value;
    assert IsMaximalRun(s, 3, 4);
    ChosenRunIsShortest(s, 3, 4);
    var lo := run[0];
    assert IsMaximalRun(s, lo, lo + 1);
    assert lo == 3;
    assert run == [3];
  }

  /** `labels` with every position listed in `run` set to NAME. */
  function Promote(labels: seq<Label>, run: seq<int>): (r: seq<Label>)
    ensures |r| == |labels|
  {
    seq(|labels|, i requires 0 <= i < |labels| => if i in run then NameLabel else labels[i])
  }

  /** `scores` with every position listed in `run` set to its NAME
      confidence. */
  function Rescore(scores: seq<real>, nameScores: seq<real>, run: seq<int>): (r: seq<real>)
    requires |scores| == |nameScores|
    ensures |r| == |scores|
  {
    seq(|scores|, i requires 0 <= i < |scores| => if i in run then nameScores[i] else scores[i])
  }

  /** The labels and scores `guess_ingredient_name` hands back: every position
      of the chosen run gets NAME and its NAME confidence, the rest are kept. */
  function GuessName(labels: seq<Label>, scores: seq<real>, nameScores: seq<real>): (r: (seq<Label>, seq<real>))
    requires |labels| == |scores| == |nameScores|
    ensures |r.0| == |labels| && |r.1| == |scores|
  {
    match ChosenRun(nameScores)
    case None => (labels, scores)
    case Some(run) => (Promote(labels, run), Rescore(scores, nameScores, run))
  }

  /** What name recovery changes: nothing without a candidate; otherwise the
      positions of the chosen run, and no other position. */
  lemma GuessNameEffect(labels: seq<Label>, scores: seq<real>, nameScores: seq<real>)
    requires |labels| == |scores| == |nameScores|
    ensures var (labels', scores') := GuessName(labels, scores, nameScores);
      && |labels'| == |labels| && |scores'| == |scores|
      && ((forall i :: 0 <= i < |nameScores| ==> nameScores[i] < NameThreshold) ==>
            labels' == labels && scores' == scores)
      && (ChosenRun(nameScores).Some? ==>
            var run := ChosenRun(nameScores).value;
            forall i :: 0 <= i < |labels| ==>
              if i in run
              then labels'[i] == NameLabel && scores'[i] == nameScores[i]
              else labels'[i] == labels[i] && scores'[i] == scores[i])
  {
    ChosenRunExistsIffCandidate(nameScores);
  }

  /** After name recovery some label is NAME exactly when one already was or
      some position reaches the NAME threshold. */
  lemma GuessNameFindsName(labels: seq<Label>, scores: seq<real>, nameScores: seq<real>)
    requires |labels| == |scores| == |nameScores|
    ensures HasName(GuessName(labels, scores, nameScores).0) <==>
      HasName(labels) || exists i :: 0 <= i < |nameScores| && nameScores[i] >= NameThreshold
  {
    var labels' := GuessName(labels, scores, nameScores).0;
    GuessNameEffect(labels, scores, nameScores);
    ChosenRunExistsIffCandidate(nameScores);
    if ChosenRun(nameScores).Some? {
      ChosenRunIsMaximal(nameScores);
      var run := ChosenRun(nameScores).value;
      assert labels'[run[0]] == NameLabel;
      if HasName(labels) {
        var i :| 0 <= i < |labels| && labels[i] == NameLabel;
        assert labels'[i] == NameLabel;
      }
    }
  }

  /** The worked example: NAME confidences 0.05, 0.25, 0.3, 0.1 put positions
      1 and 2, and only those, in the chosen run. */
  lemma ChosenRunExample(s: seq<real>)
    requires |s| == 4 && s[0] == 0.05 && s[1] == 0.25 && s[2] == 0.3 && s[3] == 0.1
    ensures ChosenRun(s) == Some([1, 2])
  {
    ChosenRunExistsIffCandidate(s);
    assert s[1] >= NameThreshold;
    ChosenRunIsMaximal(s);
    var run := ChosenRun(s).value;
    var lo, hi := run[0], run[0] + |run|;
    assert IsMaximalRun(s, lo, hi);
    assert lo == 1 && hi == 3;
    assert run == [1, 2];
  }

  /** Listing one more position promotes that one position as well. */
  lemma PromoteOneMore(labels: seq<Label>, scores: seq<real>, nameScores: seq<real>, run: seq<int>, i: int)
    requires |labels| == |scores| == |nameScores| && 0 <= i < |labels|
    ensures Promote(labels, run + [i]) == Promote(labels, run)[i := NameLabel]
    ensures Rescore(scores, nameScores, run + [i]) == Rescore(scores, nameScores, run)[i := nameScores[i]]
  {
  }

  /** `guess_ingredient_name` on the tagger's label and score lists, which it
      updates in place. */
  method GuessIngredientName(labels: array<Label>, scores: array<real>, nameScores: seq<real>)
    requires labels.Length == scores.Length == |nameScores|
    modifies labels, scores
    ensures (labels[..], scores[..]) == GuessName(old(labels[..]), old(scores[..]), nameScores)
  {
    var candidates := Candidates(nameScores);
    if |candidates| == 0 {
      return;
    }
    var groups := GroupConsecutive(candidates);
    var indices := SortByLength(groups)[0];
    ChosenRunIsMaximal(nameScores);
    assert ChosenRun(nameScores) == Some(indices);
    for j := 0 to |indices|
      invariant labels[..] == Promote(old(labels[..]), indices[..j])
      invariant scores[..] == Rescore(old(scores[..]), nameScores, indices[..j])
    {
      var i := indices[j];
      PromoteOneMore(old(labels[..]), old(scores[..]), nameScores, indices[..j], i);
      labels[i] := NameLabel;
      scores[i] := nameScores[i];
      assert indices[..j + 1] == indices[..j] + [i];
    }
    assert indices[..|indices|] == indices;
  }
}
