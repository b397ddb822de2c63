/** The father's dashboard (advice-frontend/src/components/FatherDashboard.tsx):
    the list of advices he has written, newest first, a filter over it, three
    counters, and the modal opened by a click. */
module FatherDashboard {
  import opened Wrappers
  import opened Seqs
  import opened ClientAdvice
  import AdviceForm
  import AdviceCard

  /** The component state: the list, the filter key, the clicked advice and
      whether the modal is open. */
  datatype State = State(
    advices: seq<Advice>,
    filter: string,
    selected: Option<Advice>,
    showModal: bool)

  /** The fields `handleAddAdvice` writes after spreading its argument: the
      new id, the date, both flags cleared and the author set to the father,
      whatever the argument carried in those fields. Every other field is
      taken from the argument. */
  function Stamp(incoming: Advice, id: int, date: string, userId: string): (r: Advice)
    ensures r.id == id && r.date == date && r.author == userId
    ensures !r.isRead && !r.isFavorite
    ensures r.(id := incoming.id, date := incoming.date, isRead := incoming.isRead,
               isFavorite := incoming.isFavorite, author := incoming.author) == incoming
  {
    incoming.(id := id, date := date, isRead := false, isFavorite := false, author := userId)
  }

  /** `handleAddAdvice` on the list: the stamped record goes in front and the
      previous list follows unchanged. `id` stands for `Date.now()` and `date`
      for the formatted current date. */
  function AddAdvice(advices: seq<Advice>, incoming: Advice, id: int, date: string, userId: string): (r: seq<Advice>)
    ensures |r| == |advices| + 1
    ensures r[1..] == advices
    ensures r[0] == Stamp(incoming, id, date, userId)
  {
    [Stamp(incoming, id, date, userId)] + advices
  }

  /** The record the form hands over: only category, target age and content
      are set; the media fields are absent. The other fields are placeholders
      that `Stamp` overwrites. */
  function FromDraft(d: AdviceForm.Draft): (r: Advice)
    ensures r.category == d.category && r.targetAge == d.targetAge && r.content == d.content
    ensures r.mediaUrl.None? && r.mediaType.None?
  {
    Advice(0, d.category, d.targetAge, d.content, "", false, false, "", None, None)
  }

  /** A draft from the form becomes an unread, unfavourited advice by this
      father at the head of the list. */
  lemma AddedDraftIsFresh(advices: seq<Advice>, d: AdviceForm.Draft, id: int, date: string, userId: string)
    ensures var r := AddAdvice(advices, FromDraft(d), id, date, userId);
            r[0] == Advice(id, d.category, d.targetAge, d.content, date, false, false, userId, None, None)
            && r[1..] == advices
  {
  }

  /** One element of `filteredAdvices`: "all" keeps everything, "read" and
      "unread" keep by the flag, any other key keeps the advices of that
      category. */
  predicate Keeps(filter: string, a: Advice)
  {
    if filter == "all" then true
    else if filter == "read" then a.isRead
    else if filter == "unread" then !a.isRead
    else a.category == filter
  }

  /** `filteredAdvices`: the advices the filter keeps, in list order. */
  function FilteredAdvices(advices: seq<Advice>, filter: string): (r: seq<Advice>)
    ensures IsSubsequence(r, advices)
    ensures forall a :: a in r <==> a in advices && Keeps(filter, a)
    ensures forall a :: multiset(r)[a] == (if Keeps(filter, a) then multiset(advices)[a] else 0)
  {
    FilterIsSubsequence(advices, (a: Advice) => Keeps(filter, a));
    Filter(advices, (a: Advice) => Keeps(filter, a))
  }

  /** The three counters above the list. */
  datatype Counts = Counts(total: nat, read: nat, unread: nat)

  /** `stats`: the number of advices, of read ones and of unread ones. */
  function Stats(advices: seq<Advice>): (r: Counts)
    ensures r.total == |advices|
    ensures r.read == |FilteredAdvices(advices, "read")|
    ensures r.unread == |FilteredAdvices(advices, "unread")|
    ensures r.read + r.unread == r.total
  {
    var read := Filter(advices, (a: Advice) => a.isRead);
    var unread := Filter(advices, (a: Advice) => !a.isRead);
    assert read == FilteredAdvices(advices, "read") by {
      FilterExtensional(advices, (a: Advice) => a.isRead, (a: Advice) => Keeps("read", a));
    }
    assert unread == FilteredAdvices(advices, "unread") by {
      FilterExtensional(advices, (a: Advice) => !a.isRead, (a: Advice) => Keeps("unread", a));
    }
    FilterPartition(advices, (a: Advice) => a.isRead, (a: Advice) => !a.isRead);
    Counts(|advices|, |read|, |unread|)
  }

  /** The filter "all" shows the whole list. */
  lemma AllShowsEverything(advices: seq<Advice>)
    ensures FilteredAdvices(advices, "all") == advices
  {
    FilterAll(advices, (a: Advice) => Keeps("all", a));
  }

  /** The "read" and "unread" views split the list: every advice is in
      exactly one of them, with its multiplicity. */
  lemma ReadUnreadPartition(advices: seq<Advice>)
    ensures var read := FilteredAdvices(advices, "read");
            var unread := FilteredAdvices(advices, "unread");
            && |read| + |unread| == |advices|
            && multiset(read) + multiset(unread) == multiset(advices)
            && (forall a :: a in read ==> a !in unread)
  {
    FilterPartition(advices, (a: Advice) => Keeps("read", a), (a: Advice) => Keeps("unread", a));
  }

  /** A key other than the three special ones keeps exactly the advices of
      that category, in list order. */
  lemma OtherKeyFiltersByCategory(advices: seq<Advice>, key: string)
    requires key != "all" && key != "read" && key != "unread"
    ensures FilteredAdvices(advices, key) == Filter(advices, (a: Advice) => a.category == key)
  {
    FilterExtensional(advices, (a: Advice) => Keeps(key, a), (a: Advice) => a.category == key);
  }

  /** None of the form's nine category keys collides with a special key, so
      every category button filters by category. */
  lemma FormKeysFilterByCategory(advices: seq<Advice>, i: nat)
    requires i < |AdviceForm.Categories|
    ensures var key := AdviceForm.Categories[i].0;
            FilteredAdvices(advices, key) == Filter(advices, (a: Advice) => a.category == key)
  {
    var key := AdviceForm.Categories[i].0;
    assert key[0] != 'a' && key[0] != 'r' && key[0] != 'u';
    OtherKeyFiltersByCategory(advices, key);
  }

  /** Adding an advice raises the total and the unread counter by one and
      leaves the read counter alone. */
  lemma AddingCountsAsUnread(advices: seq<Advice>, incoming: Advice, id: int, date: string, userId: string)
    ensures var before := Stats(advices);
            var after := Stats(AddAdvice(advices, incoming, id, date, userId));
            after == Counts(before.total + 1, before.read, before.unread + 1)
  {
    var r := AddAdvice(advices, incoming, id, date, userId);
    assert r == [r[0]] + advices;
    FilterConcat([r[0]], advices, (a: Advice) => a.isRead);
    FilterConcat([r[0]], advices, (a: Advice) => !a.isRead);
    FilterExtensional(r, (a: Advice) => a.isRead, (a: Advice) => Keeps("read", a));
    FilterExtensional(r, (a: Advice) => !a.isRead, (a: Advice) => Keeps("unread", a));
    FilterExtensional(advices, (a: Advice) => a.isRead, (a: Advice) => Keeps("read", a));
    FilterExtensional(advices, (a: Advice) => !a.isRead, (a: Advice) => Keeps("unread", a));
  }

  /** `handleAdviceClick`: remember the clicked advice and open the modal.
      The list is not touched; a father's click marks nothing read. */
  function HandleAdviceClick(st: State, a: Advice): (r: State)
    ensures r.advices == st.advices && r.filter == st.filter
    ensures r.selected == Some(a) && r.showModal
  {
    st.(selected := Some(a), showModal := true)
  }

  /** The modal is rendered when it is open and an advice is selected. */
  function ModalAdvice(st: State): (r: Option<Advice>)
    ensures r.Some? <==> st.showModal && st.selected.Some?
    ensures r.Some? ==> r == st.selected
  {
    if st.showModal && st.selected.Some? then st.selected else None
  }

  /** Clicking an advice opens the modal on that advice, whatever was open
      before. */
  lemma ClickOpensModal(st: State, a: Advice)
    ensures ModalAdvice(HandleAdviceClick(st, a)) == Some(a)
    ensures Stats(HandleAdviceClick(st, a).advices) == Stats(st.advices)
  {
  }

  /** Cards on the father's dashboard are rendered with `userType="father"`
      and no toggle handler: no star control and no favourite badge, even on
      an advice the child has favourited. */
  lemma FatherCardsHaveNoFavoriteMarks(a: Advice)
    ensures AdviceCard.RenderCard(a, Father, false).favoriteControl.None?
    ensures !AdviceCard.RenderCard(a, Father, false).favoriteBadge
  {
  }
}
