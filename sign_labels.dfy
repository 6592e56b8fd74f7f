/**
 * The ordered label table of the hands-only pipeline. A label's position is
 * its one-hot index in training and its output index in the classifier.
 */
module SignLabels {

  const Actions: seq<string> := [
    "hello", "thank_you", "yes", "no", "please",
    "help", "sorry", "nice_to_meet_you", "how_are_you", "Excuse_Me"
  ]

  /** No label of the table contains a hyphen. */
  lemma NoHyphenInActions(i: nat)
    requires i < |Actions|
    ensures '-' !in Actions[i]
  {
  }
}
