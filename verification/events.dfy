/**
 The `Event` node type and its one computed field.

 An event carries the fields the theme declares for it; its `slug` is not
 stored but resolved from the name on demand.
 */
module Events {
  import opened Runs
  import opened Slug

  /**
   An event as the content source supplies it. Dates are kept as the raw text
   of `start_date` and `end_date`; their parsing belongs to the host framework.
   */
  datatype Event = Event(
    id: string,
    name: string,
    location: string,
    startDate: string,
    endDate: string,
    url: string
  )

  /**
   The `slug` field of an event: defined for every event, and a root-level path
   whose text holds the name's letters and digits, lower-cased, in order,
   separated by single hyphens.
   */
  function ResolveSlug(e: Event): (r: string)
    ensures |r| > 0 && r[0] == '/'
    ensures forall i :: 1 <= i < |r| ==> r[i] != '/'
    ensures NormalSlug(r[1..])
    ensures Keep(r[1..], IsSeparator) == Keep(Lower(e.name), IsSeparator)
  {
    SlugifyAlphabet(e.name);
    Slugify(e.name)
  }

  /** The `slug` field is `/` followed by the event name's lower-cased words joined by single hyphens. */
  lemma ResolveSlugWords(e: Event)
    ensures ResolveSlug(e) == "/" + JoinedWords(Lower(e.name))
  {
    SlugifyMatchesWords(e.name);
  }
}
