/** Shared vocabulary of the label-repair pipeline: the two labels the pipeline
    itself inspects, and an optional value. */
module Types {

  /** A label produced by the CRF tagger. The tagger's label set is open-ended
      text from the pipeline's point of view; only two values are inspected. */
  type Label = string

  /** Label of the tokens that make up the ingredient name. */
  const NameLabel: Label := "NAME"

  /** Label of unit tokens; they are not re-pluralised after tagging. */
  const UnitLabel: Label := "UNIT"

  /** Some token carries the NAME label. */
  predicate HasName(labels: seq<Label>) {
    exists i :: 0 <= i < |labels| && labels[i] == NameLabel
  }

  datatype Option<T> = None | Some(value: T)
}
