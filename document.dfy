/**
 * The program document loaded once at start-up: an ordered sequence of themes,
 * each holding an ordered sequence of propositions. Optional JSON fields are
 * `Option`s (`None` is an absent field, which JavaScript reads as `undefined`);
 * an absent `propositions` or `related` list is the empty sequence, as the
 * site's `?? []` defaults make it.
 */
module Document {
  import opened Wrappers

  datatype Proposition = Proposition(
    id: string,
    title: Option<string>,
    summary: Option<string>,
    detail: Option<string>,
    mel: bool,
    related: seq<string>)

  datatype Theme = Theme(
    id: string,
    title: Option<string>,
    description: Option<string>,
    color: Option<string>,
    icon: Option<string>,
    propositions: seq<Proposition>)

  /** The document's `meta` block is display text only and is not part of this model. */
  datatype Program = Program(themes: seq<Theme>)

  /** Some proposition in `props` has identifier `id` (`props.some(p => p.id === id)`). */
  predicate HasPropId(props: seq<Proposition>, id: string)
  {
    exists j :: 0 <= j < |props| && props[j].id == id
  }

}
