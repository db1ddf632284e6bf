/** Plural restoration: the preprocessor singularised some tokens before
    tagging; afterwards every one of them that was not tagged UNIT is turned
    back into its plural form, in place. */
module Plurals {
  import opened Types

  /** Every index points into a token list of length `n`. */
  ghost predicate IndicesBelow(idxs: seq<int>, n: int) {
    forall k :: 0 <= k < |idxs| ==> 0 <= idxs[k] < n
  }

  ghost predicate Distinct(idxs: seq<int>) {
    forall a, b :: 0 <= a < b < |idxs| ==> idxs[a] != idxs[b]
  }

  /** One pass of the loop body: the token at `idx` is pluralised unless its
      label is UNIT. */
  function RestoreAt(tokens: seq<string>, labels: seq<Label>, idx: int, pluralise: string -> string): (r: seq<string>)
    requires 0 <= idx < |tokens| == |labels|
    ensures |r| == |tokens|
    ensures forall i :: 0 <= i < |tokens| && i != idx ==> r[i] == tokens[i]
  {
    if labels[idx] != UnitLabel then tokens[idx := pluralise(tokens[idx])] else tokens
  }

  /** The tokens once the loop has visited every index of `idxs`, in order. */
  function Repluralised(tokens: seq<string>, labels: seq<Label>, idxs: seq<int>, pluralise: string -> string): (r: seq<string>)
    requires |tokens| == |labels| && IndicesBelow(idxs, |tokens|)
    ensures |r| == |tokens|
  {
    if idxs == [] then tokens
    else
      var n := |idxs| - 1;
      RestoreAt(Repluralised(tokens, labels, idxs[..n], pluralise), labels, idxs[n], pluralise)
  }

  /** With each singularised index listed once, a token ends up pluralised
      exactly when its index is listed and its label is not UNIT; every other
      token is unchanged. */
  lemma {:induction false} RepluralisedAt(tokens: seq<string>, labels: seq<Label>, idxs: seq<int>, pluralise: string -> string)
    requires |tokens| == |labels| && IndicesBelow(idxs, |tokens|) && Distinct(idxs)
    ensures forall i :: 0 <= i < |tokens| ==>
      Repluralised(tokens, labels, idxs, pluralise)[i] ==
        if i in idxs && labels[i] != UnitLabel then pluralise(tokens[i]) else tokens[i]
  {
    if idxs != [] {
      var n := |idxs| - 1;
      RepluralisedAt(tokens, labels, idxs[..n], pluralise);
      assert forall i :: i in idxs <==> i in idxs[..n] || i == idxs[n] by {
        assert idxs == idxs[..n] + [idxs[n]];
      }
      assert idxs[n] !in idxs[..n];
    }
  }

  /** An index listed twice is pluralised twice: the loop walks a list, not
      a set. */
  lemma RepluralisedTwice(tokens: seq<string>, labels: seq<Label>, idxs: seq<int>, pluralise: string -> string)
    requires |tokens| == |labels| && |idxs| == 2 && idxs[0] == idxs[1]
    requires 0 <= idxs[0] < |tokens| && labels[idxs[0]] != UnitLabel
    ensures Repluralised(tokens, labels, idxs, pluralise)[idxs[0]] == pluralise(pluralise(tokens[idxs[0]]))
  {
    var i := idxs[0];
    var first := idxs[..1];
    assert first[..0] == [];
    assert IndicesBelow(first, |tokens|);
    assert Repluralised(tokens, labels, first[..0], pluralise) == tokens;
    var once := Repluralised(tokens, labels, first, pluralise);
    assert once == RestoreAt(Repluralised(tokens, labels, first[..0], pluralise), labels, first[0], pluralise);
    assert once[i] == pluralise(tokens[i]);
  }

  /** The re-pluralising loop, on the token list it updates in place. */
  method RestorePlurals(tokens: array<string>, labels: seq<Label>, singularised: seq<int>, pluralise: string -> string)
    requires |labels| == tokens.Length && IndicesBelow(singularised, tokens.Length)
    modifies tokens
    ensures tokens[..] == Repluralised(old(tokens[..]), labels, singularised, pluralise)
  {
    for k := 0 to |singularised|
      invariant tokens[..] == Repluralised(old(tokens[..]), labels, singularised[..k], pluralise)
    {
      var idx := singularised[k];
      var token := tokens[idx];
      var tag := labels[idx];
      if tag != UnitLabel {
        tokens[idx] := pluralise(token);
      }
      assert singularised[..k + 1][..k] == singularised[..k];
    }
    assert singularised[..|singularised|] == singularised;
  }
}
