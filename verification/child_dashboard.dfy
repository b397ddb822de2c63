/** The child's dashboard (advice-frontend/src/components/ChildDashboard.tsx):
    the advices from the father split by the child's age, a filter over them,
    opening an advice and starring it. */
module ChildDashboard {
  import opened Wrappers
  import opened Seqs
  import opened ClientAdvice
  import AdviceCard

  /** The component state. `currentAge` is fixed when the component mounts. */
  datatype State = State(
    advices: seq<Advice>,
    filter: string,
    selected: Option<Advice>,
    showModal: bool,
    currentAge: int)

  /** The advice is due: its target age has been reached. */
  predicate Due(currentAge: int, a: Advice)
  {
    a.targetAge <= currentAge
  }

  /** One element of `filteredAdvices`: "available" keeps the due advices,
      "future" the others, "favorites" the starred ones, any other key
      everything. */
  predicate Keeps(filter: string, currentAge: int, a: Advice)
  {
    if filter == "available" then a.targetAge <= currentAge
    else if filter == "future" then a.targetAge > currentAge
    else if filter == "favorites" then a.isFavorite
    else true
  }

  /** `filteredAdvices`: the advices the filter keeps, in list order. */
  function FilteredAdvices(advices: seq<Advice>, filter: string, currentAge: int): (r: seq<Advice>)
    ensures IsSubsequence(r, advices)
    ensures forall a :: a in r <==> a in advices && Keeps(filter, currentAge, a)
    ensures forall a :: multiset(r)[a] == (if Keeps(filter, currentAge, a) then multiset(advices)[a] else 0)
  {
    FilterIsSubsequence(advices, (a: Advice) => Keeps(filter, currentAge, a));
    Filter(advices, (a: Advice) => Keeps(filter, currentAge, a))
  }

  /** `availableAdvices`: the due advices, in list order. */
  function Available(advices: seq<Advice>, currentAge: int): (r: seq<Advice>)
    ensures IsSubsequence(r, advices)
    ensures forall a :: a in r <==> a in advices && Due(currentAge, a)
    ensures forall a :: multiset(r)[a] == (if Due(currentAge, a) then multiset(advices)[a] else 0)
  {
    FilterIsSubsequence(advices, (a: Advice) => a.targetAge <= currentAge);
    Filter(advices, (a: Advice) => a.targetAge <= currentAge)
  }

  /** `futureAdvices`: the advices not yet due, in list order. */
  function Future(advices: seq<Advice>, currentAge: int): (r: seq<Advice>)
    ensures IsSubsequence(r, advices)
    ensures forall a :: a in r <==> a in advices && !Due(currentAge, a)
    ensures forall a :: multiset(r)[a] == (if Due(currentAge, a) then 0 else multiset(advices)[a])
  {
    FilterIsSubsequence(advices, (a: Advice) => a.targetAge > currentAge);
    Filter(advices, (a: Advice) => a.targetAge > currentAge)
  }

  /** `favoriteAdvices`: the starred advices, due or not, in list order. */
  function Favorites(advices: seq<Advice>): (r: seq<Advice>)
    ensures IsSubsequence(r, advices)
    ensures forall a :: a in r <==> a in advices && a.isFavorite
    ensures forall a :: multiset(r)[a] == (if a.isFavorite then multiset(advices)[a] else 0)
  {
    FilterIsSubsequence(advices, (a: Advice) => a.isFavorite);
    Filter(advices, (a: Advice) => a.isFavorite)
  }

  /** For a fixed age every advice is either available or in the future,
      never both, and the two counters add up to the list's length. */
  lemma AvailableFuturePartition(advices: seq<Advice>, currentAge: int)
    ensures |Available(advices, currentAge)| + |Future(advices, currentAge)| == |advices|
    ensures multiset(Available(advices, currentAge)) + multiset(Future(advices, currentAge)) == multiset(advices)
  {
    FilterPartition(advices, (a: Advice) => a.targetAge <= currentAge, (a: Advice) => a.targetAge > currentAge);
  }

  /** The list shown for each of the three filter buttons is the list behind
      the matching counter; any other key shows the whole list. */
  lemma ViewsMatchCounters(advices: seq<Advice>, currentAge: int, filter: string)
    ensures filter == "available" ==> FilteredAdvices(advices, filter, currentAge) == Available(advices, currentAge)
    ensures filter == "future" ==> FilteredAdvices(advices, filter, currentAge) == Future(advices, currentAge)
    ensures filter == "favorites" ==> FilteredAdvices(advices, filter, currentAge) == Favorites(advices)
    ensures (filter != "available" && filter != "future" && filter != "favorites") ==>
              FilteredAdvices(advices, filter, currentAge) == advices
  {
    var keep := (a: Advice) => Keeps(filter, currentAge, a);
    if filter == "available" {
      FilterExtensional(advices, keep, (a: Advice) => a.targetAge <= currentAge);
    } else if filter == "future" {
      FilterExtensional(advices, keep, (a: Advice) => a.targetAge > currentAge);
    } else if filter == "favorites" {
      FilterExtensional(advices, keep, (a: Advice) => a.isFavorite);
    } else {
      FilterAll(advices, keep);
    }
  }

  /** The favourites view does not look at the age: a starred advice that is
      not yet due is listed there, and the favourites split into due and
      not-yet-due ones. */
  lemma FavoritesIgnoreAge(advices: seq<Advice>, currentAge: int)
    ensures forall a | a in advices && a.isFavorite && !Due(currentAge, a) :: a in FilteredAdvices(advices, "favorites", currentAge)
    ensures |Favorites(advices)| == |Favorites(Available(advices, currentAge))| + |Favorites(Future(advices, currentAge))|
  {
    FilterSplitCount(advices, (a: Advice) => a.targetAge <= currentAge, (a: Advice) => a.targetAge > currentAge,
                     (a: Advice) => a.isFavorite);
  }

  /** The list update of `handleAdviceClick`: every entry with the clicked
      id is marked read; length, order and every other field stay. */
  function MarkOpened(advices: seq<Advice>, id: int): (r: seq<Advice>)
    ensures |r| == |advices|
    ensures forall i | 0 <= i < |r| :: r[i].isRead == (advices[i].isRead || advices[i].id == id)
    ensures forall i | 0 <= i < |r| :: r[i].(isRead := advices[i].isRead) == advices[i]
  {
    seq(|advices|, i requires 0 <= i < |advices| =>
      if advices[i].id == id then advices[i].(isRead := true) else advices[i])
  }

  /** Opening the same advice twice is the same as opening it once. */
  lemma OpenTwiceSameAsOnce(advices: seq<Advice>, id: int)
    ensures MarkOpened(MarkOpened(advices, id), id) == MarkOpened(advices, id)
  {
    var once := MarkOpened(advices, id);
    var twice := MarkOpened(once, id);
    forall i | 0 <= i < |advices|
      ensures twice[i] == once[i]
    {
      assert twice[i].(isRead := once[i].isRead) == once[i];
    }
  }

  /** `handleAdviceClick`: mark the advice read in the list, remember it as
      it was clicked and open the modal. */
  function HandleAdviceClick(st: State, a: Advice): (r: State)
    ensures r.advices == MarkOpened(st.advices, a.id)
    ensures r.selected == Some(a) && r.showModal
    ensures r.filter == st.filter && r.currentAge == st.currentAge
  {
    st.(advices := MarkOpened(st.advices, a.id), selected := Some(a), showModal := true)
  }

  /** No age gate: an advice that is not yet due, clicked in the view that
      shows it, is marked read all the same. */
  lemma NoAgeGate(st: State, i: nat)
    requires i < |st.advices|
    requires !Due(st.currentAge, st.advices[i])
    requires st.advices[i] in FilteredAdvices(st.advices, st.filter, st.currentAge)
    ensures HandleAdviceClick(st, st.advices[i]).advices[i].isRead
    ensures st.filter != "available"
  {
  }

  /** The list update of `handleToggleFavorite`: the star of every entry with
      the id is flipped; length, order and every other field stay. */
  function FlipFavorite(advices: seq<Advice>, id: int): (r: seq<Advice>)
    ensures |r| == |advices|
    ensures forall i | 0 <= i < |r| :: r[i].isFavorite == (if advices[i].id == id then !advices[i].isFavorite else advices[i].isFavorite)
    ensures forall i | 0 <= i < |r| :: r[i].(isFavorite := advices[i].isFavorite) == advices[i]
  {
    seq(|advices|, i requires 0 <= i < |advices| =>
      if advices[i].id == id then advices[i].(isFavorite := !advices[i].isFavorite) else advices[i])
  }

  /** Starring twice restores the list. */
  lemma FlipTwiceRestores(advices: seq<Advice>, id: int)
    ensures FlipFavorite(FlipFavorite(advices, id), id) == advices
  {
    var once := FlipFavorite(advices, id);
    var twice := FlipFavorite(once, id);
    forall i | 0 <= i < |advices|
      ensures twice[i] == advices[i]
    {
      assert once[i].id == advices[i].id by {
        assert once[i].(isFavorite := advices[i].isFavorite) == advices[i];
      }
    }
  }

  /** `handleToggleFavorite`: only the list changes. */
  function HandleToggleFavorite(st: State, id: int): (r: State)
    ensures r.advices == FlipFavorite(st.advices, id)
    ensures r.(advices := st.advices) == st
  {
    st.(advices := FlipFavorite(st.advices, id))
  }

  /** Starring an advice moves it into or out of the favourites view and
      leaves the age split alone. */
  lemma ToggleMovesFavoritesOnly(advices: seq<Advice>, id: int, currentAge: int)
    ensures |Available(FlipFavorite(advices, id), currentAge)| == |Available(advices, currentAge)|
    ensures |Future(FlipFavorite(advices, id), currentAge)| == |Future(advices, currentAge)|
  {
    var r := FlipFavorite(advices, id);
    assert forall i | 0 <= i < |r| :: r[i].targetAge == advices[i].targetAge by {
      forall i | 0 <= i < |r|
        ensures r[i].targetAge == advices[i].targetAge
      {
        assert r[i].(isFavorite := advices[i].isFavorite) == advices[i];
      }
    }
    SameAgesSameCounts(r, advices, currentAge);
  }

  /** Two lists with the same target ages entry by entry have the same number
      of due advices. */
  lemma {:induction false} SameAgesSameCounts(s: seq<Advice>, t: seq<Advice>, currentAge: int)
    requires |s| == |t|
    requires forall i | 0 <= i < |s| :: s[i].targetAge == t[i].targetAge
    ensures |Available(s, currentAge)| == |Available(t, currentAge)|
    ensures |Future(s, currentAge)| == |Future(t, currentAge)|
    decreases |s|
  {
    if |s| > 0 {
      SameAgesSameCounts(s[1..], t[1..], currentAge);
    }
  }

  /** Cards on the child's dashboard get `userType="child"` and a toggle
      handler: every card has the star control, filled exactly for a
      favourite. */
  lemma ChildCardsHaveStar(a: Advice)
    ensures AdviceCard.RenderCard(a, Child, true).favoriteControl.Some?
    ensures AdviceCard.RenderCard(a, Child, true).favoriteControl.value == "⭐" <==> a.isFavorite
  {
  }
}
