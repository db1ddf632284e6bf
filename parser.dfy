/** `parse_ingredient_en` / `inspect_parser_en` up to the hand-over to the
    post-processor, and the lazy, load-once model initialisation. */
module Parser {
  import opened Types
  import opened NameRecovery
  import opened Plurals

  /** Outcome of the tagger's `info()` readiness probe. */
  datatype Probe = ModelInfo | RuntimeError

  /** The process-wide CRF tagger, seen only through whether a model file has
      been opened into it. */
  class Tagger {
    var loaded: bool
    /** How many times a model file has been opened into this tagger. */
    ghost var opens: nat

    /** A fresh tagger holds no model. */
    constructor ()
      ensures !loaded && opens == 0
    {
      loaded := false;
      opens := 0;
    }

    /** `info()`: fails with RuntimeError exactly while no model is open. */
    method Info() returns (p: Probe)
      ensures p == RuntimeError <==> !loaded
    {
      p := if loaded then ModelInfo else RuntimeError;
    }

    /** `open(path)`: reads the bundled model file into the tagger. */
    method Open()
      modifies this
      ensures loaded && opens == old(opens) + 1
    {
      loaded := true;
      opens := opens + 1;
    }
  }

  /** Opens the model only when the readiness probe fails; afterwards the
      model is loaded, and a tagger that was loaded is not opened again. */
  method LoadModelIfNotLoaded(tagger: Tagger)
    modifies tagger
    ensures tagger.loaded
    ensures tagger.opens == if old(tagger.loaded) then old(tagger.opens) else old(tagger.opens) + 1
  {
    var probe := tagger.Info();
    if probe == RuntimeError {
      tagger.Open();
    }
  }

  /** Two parses in a row, starting from an unloaded tagger, open the model
      file once. */
  method LoadTwiceOpensOnce(tagger: Tagger)
    requires !tagger.loaded
    modifies tagger
    ensures tagger.loaded && tagger.opens == old(tagger.opens) + 1
  {
    LoadModelIfNotLoaded(tagger);
    LoadModelIfNotLoaded(tagger);
  }

  /** The labels and scores handed to the post-processor: the tagger's own
      when some token is NAME, otherwise those name recovery returns. */
  function RepairLabels(tagged: seq<Label>, tagScores: seq<real>, nameScores: seq<real>): (r: (seq<Label>, seq<real>))
    requires |tagged| == |tagScores| == |nameScores|
    ensures |r.0| == |tagged| && |r.1| == |tagScores|
  {
    if HasName(tagged) then (tagged, tagScores) else GuessName(tagged, tagScores, nameScores)
  }

  /** A tagging that already has a NAME passes through untouched; after the
      repair some token is NAME exactly when the tagger gave one or some
      position reaches the NAME threshold. */
  lemma RepairLabelsEffect(tagged: seq<Label>, tagScores: seq<real>, nameScores: seq<real>)
    requires |tagged| == |tagScores| == |nameScores|
    ensures |RepairLabels(tagged, tagScores, nameScores).0| == |tagged|
    ensures |RepairLabels(tagged, tagScores, nameScores).1| == |tagScores|
    ensures HasName(tagged) ==> RepairLabels(tagged, tagScores, nameScores) == (tagged, tagScores)
    ensures HasName(RepairLabels(tagged, tagScores, nameScores).0) <==>
      HasName(tagged) || exists i :: 0 <= i < |nameScores| && nameScores[i] >= NameThreshold
  {
    GuessNameEffect(tagged, tagScores, nameScores);
    GuessNameFindsName(tagged, tagScores, nameScores);
  }

  /** The pipeline: load the model if needed, take the tagger's labels and
      scores, re-pluralise the singularised tokens in place, and recover a
      name when no token was tagged NAME. The tagger's output (labels, the
      score of each assigned label, and each position's NAME confidence) is
      given, as is the pluraliser. */
  method ParseIngredient(tagger: Tagger, tokens: array<string>, singularised: seq<int>,
                         tagged: seq<Label>, tagScores: seq<real>, nameScores: seq<real>,
                         pluralise: string -> string)
    returns (labels: array<Label>, scores: array<real>)
    requires |tagged| == |tagScores| == |nameScores| == tokens.Length
    requires IndicesBelow(singularised, tokens.Length)
    modifies tagger, tokens
    ensures tagger.loaded
    ensures tagger.opens == if old(tagger.loaded) then old(tagger.opens) else old(tagger.opens) + 1
    ensures fresh(labels) && fresh(scores)
    ensures tokens[..] == Repluralised(old(tokens[..]), tagged, singularised, pluralise)
    ensures (labels[..], scores[..]) == RepairLabels(tagged, tagScores, nameScores)
  {
    LoadModelIfNotLoaded(tagger);
    labels := new Label[|tagged|](i requires 0 <= i < |tagged| => tagged[i]);
    scores := new real[|tagScores|](i requires 0 <= i < |tagScores| => tagScores[i]);
    assert labels[..] == tagged && scores[..] == tagScores;
    RestorePlurals(tokens, labels[..], singularised, pluralise);
    if !HasName(labels[..]) {
      GuessIngredientName(labels, scores, nameScores);
    }
  }
}
