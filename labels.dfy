/** Kubernetes label selectors (`k8s.io/apimachinery/pkg/labels`), kept abstract:
    a selector is its printed form together with the predicate it decides on a
    label set. Parsing a selector expression is an oracle of the caller. */
module Labels {

  type LabelSet = map<string, string>

  datatype Selector = Selector(text: string, matches: LabelSet -> bool)

  /** `labels.Everything()`: prints as "" and matches every label set. */
  function Everything(): (s: Selector)
    ensures s.text == ""
    ensures forall l: LabelSet :: s.matches(l)
  {
    Selector("", _ => true)
  }
}
