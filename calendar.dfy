/** The calendar feed: one event per entry, labelled by title or by an excerpt of the text. */
module Calendar {
  import opened Text
  import opened Tables

  /** One element of the `/api/events` JSON array. */
  datatype Event = Event(title: string, start: string, allDay: bool)

  /** How many characters of the stripped content an untitled entry shows. */
  const EXCERPT_LENGTH: nat := 24

  /** The label of an entry with neither title nor text. */
  const DEFAULT_LABEL := "Entry"

  /** `(title or (content or "").strip()[:24]) or "Entry"`. */
  function Label(title: string, content: string): string
  {
    if title != "" then title
    else
      var excerpt := Take(Strip(content), EXCERPT_LENGTH);
      if excerpt != "" then excerpt else DEFAULT_LABEL
  }

  /**
   * The label is never empty. It is the title when there is one; otherwise,
   * when the text is not all whitespace, the first 24 characters of the
   * stripped text (which therefore starts with a non-space); otherwise "Entry".
   */
  lemma LabelRule(title: string, content: string)
    ensures Label(title, content) != ""
    ensures title != "" ==> Label(title, content) == title
    ensures title == "" && !AllSpace(content) ==>
      var l := Label(title, content);
      && |l| == (if |Strip(content)| <= EXCERPT_LENGTH then |Strip(content)| else EXCERPT_LENGTH)
      && l == Strip(content)[..|l|]
      && !IsSpace(l[0])
    ensures title == "" && AllSpace(content) ==> Label(title, content) == DEFAULT_LABEL
  {
    StripEmptyIff(content);
    StripShape(content);
  }

  /** The event `api_events` emits for one row. */
  function EventOf(e: Entry): (ev: Event)
    ensures ev.start == e.date && ev.allDay && ev.title != ""
  {
    LabelRule(e.title, e.content);
    Event(Label(e.title, e.content), e.date, true)
  }

  /** The entry of the end-to-end scenario is labelled by its title. */
  lemma TitledLabel()
    ensures Label("Trip", "") == "Trip"
  {
  }

  /** The untitled entry " Beach " is labelled by its stripped text, which is short enough to be kept whole. */
  lemma UntitledLabel()
    ensures Label("", " Beach ") == "Beach"
  {
    assert " Beach " == " " + "Beach" + " ";
    StripOf(" ", "Beach", " ");
  }

  /** An entry with neither title nor text is labelled "Entry". */
  lemma BlankLabel()
    ensures Label("", "\t\n ") == DEFAULT_LABEL
  {
    assert AllSpace("\t\n ");
    LabelRule("", "\t\n ");
  }
}
