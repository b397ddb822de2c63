/** The advice record as the React components hold it (the sample records of
    the two dashboards, plus the media fields the card reads). */
module ClientAdvice {
  import opened Wrappers

  /** The `userType` prop of the card and the modal. */
  datatype UserType = Father | Child

  /** One advice in a dashboard's list. */
  datatype Advice = Advice(
    id: int,
    category: string,
    targetAge: int,
    content: string,
    date: string,
    isRead: bool,
    isFavorite: bool,
    author: string,
    mediaUrl: Option<string>,
    mediaType: Option<string>)

  /** JavaScript truthiness of `advice.media_url`: present and non-empty. */
  predicate HasMedia(a: Advice)
  {
    a.mediaUrl.Some? && a.mediaUrl.value != ""
  }

  /** JavaScript's `value || fallback` on a property that may be undefined. */
  function OrElse(value: Option<string>, fallback: string): string
  {
    if value.Some? && value.value != "" then value.value else fallback
  }
}
