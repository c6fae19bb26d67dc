/**
 The label record of a GitHub repository and the name-keyed maps the tool
 builds from label lists: one from the local labels file (desired state) and
 one from the repository's label listing (remote state).
 */
module Labels {

  /** A repository label: its unique name and its display colour (a hex code). */
  datatype Label = Label(name: string, color: string)

  /** Labels keyed by name. */
  type LabelMap = map<string, Label>

  /** Every entry is stored under its own name. Maps built from label lists
      always have this shape; the reconciler relies on it to address labels by name. */
  predicate WellKeyed(m: LabelMap)
  {
    forall k | k in m :: m[k].name == k
  }
}
