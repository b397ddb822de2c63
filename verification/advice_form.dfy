/** The advice form (advice-frontend/src/components/AdviceForm.tsx): a
    category picked from nine buttons, a target age and a text, with a submit
    handler that rejects an empty age or a blank text and otherwise hands a
    normalised draft to the dashboard and clears the two inputs. */
module AdviceForm {
  import opened Wrappers
  import opened Text
  import AdviceCard

  /** The `categories` list: the key each button sets and the button label. */
  const Categories: seq<(string, string)> := [
    ("life", "💡 인생 조언"),
    ("love", "💕 사랑 이야기"),
    ("career", "💼 진로/직업"),
    ("health", "🏃‍♂️ 건강"),
    ("money", "💰 돈 관리"),
    ("friendship", "👥 인간관계"),
    ("study", "📚 공부/학습"),
    ("hobby", "🎨 취미/여가"),
    ("dream", "🌟 꿈과 목표")
  ]

  /** The key of one of the category buttons. */
  predicate IsCategoryKey(c: string)
  {
    exists i | 0 <= i < |Categories| :: Categories[i].0 == c
  }

  /** The three pieces of component state. */
  datatype FormState = FormState(category: string, targetAge: string, content: string)

  /** The state on mount: category "life", both inputs empty. */
  const Initial: FormState := FormState("life", "", "")

  /** What the dashboard's `onAddAdvice` receives. */
  datatype Draft = Draft(category: string, targetAge: int, content: string)

  /** The state after a submit event and the draft handed on, if any. */
  datatype Submitted = Submitted(state: FormState, draft: Option<Draft>)

  /** The `disabled` condition of the submit button: `!targetAge || !content.trim()`. */
  function SubmitDisabled(st: FormState): (r: bool)
    ensures r <==> st.targetAge == "" || Blank(st.content, IsJsSpace)
  {
    st.targetAge == "" || JsTrim(st.content) == ""
  }

  /** `handleSubmit`. `parsedAge` is `parseInt(targetAge)`, computed outside
      the model. A rejected submit changes nothing and sends nothing; an
      accepted one sends the category, the parsed age and the trimmed
      content, with no range check on the age, then clears the age and the
      content but keeps the category. */
  function HandleSubmit(st: FormState, parsedAge: int): (r: Submitted)
    ensures r.draft.None? <==> (st.targetAge == "" || Blank(st.content, IsJsSpace))
    ensures r.draft.None? ==> r.state == st
    ensures r.draft.Some? ==>
              && r.draft.value.category == st.category
              && r.draft.value.targetAge == parsedAge
              && r.draft.value.content == JsTrim(st.content)
              && r.draft.value.content != ""
              && Trimmed(r.draft.value.content, IsJsSpace)
              && r.state == FormState(st.category, "", "")
  {
    if st.targetAge == "" || JsTrim(st.content) == "" then Submitted(st, None)
    else
      Submitted(
        FormState(st.category, "", ""),
        Some(Draft(st.category, parsedAge, JsTrim(st.content))))
  }

  /** The button is disabled exactly when the handler would reject. */
  lemma DisabledExactlyWhenRejected(st: FormState, parsedAge: int)
    ensures SubmitDisabled(st) <==> HandleSubmit(st, parsedAge).draft.None?
  {
  }

  /** The `min`/`max` attributes of the age input are not checked by the
      handler: ages 150 and -1 go through. */
  lemma NoAgeRangeCheck()
    ensures HandleSubmit(FormState("life", "150", "x"), 150).draft == Some(Draft("life", 150, "x"))
    ensures HandleSubmit(FormState("life", "-1", "x"), -1).draft == Some(Draft("life", -1, "x"))
  {
    assert !IsJsSpace('x');
    assert JsTrim("x") == "x" by {
      TrimOfTrimmed("x", IsJsSpace);
    }
  }

  /** The user events the form reacts to: a category button, typing in either
      input, submitting. */
  datatype Event =
    | PickCategory(index: nat)
    | TypeAge(text: string)
    | TypeContent(text: string)
    | Submit(parsedAge: int)

  /** An event the rendered form can produce: buttons exist only for the nine categories. */
  predicate Possible(e: Event)
  {
    e.PickCategory? ==> e.index < |Categories|
  }

  /** The state after one event. */
  function Step(st: FormState, e: Event): (r: FormState)
    requires Possible(e)
    ensures e.PickCategory? ==> r.category == Categories[e.index].0
    ensures !e.PickCategory? ==> r.category == st.category
  {
    match e
    case PickCategory(i) => st.(category := Categories[i].0)
    case TypeAge(text) => st.(targetAge := text)
    case TypeContent(text) => st.(content := text)
    case Submit(n) => HandleSubmit(st, n).state
  }

  /** The state after a sequence of events. */
  function Run(st: FormState, events: seq<Event>): FormState
    requires forall i | 0 <= i < |events| :: Possible(events[i])
    decreases |events|
  {
    if |events| == 0 then st else Run(Step(st, events[0]), events[1..])
  }

  /** Whatever the user does, the selected category stays one of the nine keys. */
  lemma {:induction false} CategoryAlwaysAKey(st: FormState, events: seq<Event>)
    requires IsCategoryKey(st.category)
    requires forall i | 0 <= i < |events| :: Possible(events[i])
    ensures IsCategoryKey(Run(st, events).category)
    decreases |events|
  {
    if |events| > 0 {
      var next := Step(st, events[0]);
      if events[0].PickCategory? {
        assert Categories[events[0].index].0 == next.category;
      }
      CategoryAlwaysAKey(next, events[1..]);
    }
  }

  /** The buttons list the card's nine keys in the card's order, and each
      label is the card's emoji, a space and the card's name. */
  lemma ButtonsFollowCardTables()
    ensures |Categories| == |AdviceCard.EmojiTable| == |AdviceCard.NameTable|
    ensures forall i | 0 <= i < |Categories| ::
              && Categories[i].0 == AdviceCard.EmojiTable[i].0 == AdviceCard.NameTable[i].0
              && Categories[i].1 == AdviceCard.EmojiTable[i].1 + " " + AdviceCard.NameTable[i].1
  {
  }

  /** Every draft the form sends, starting from its initial state, carries a
      category that both lookup tables of the card know. */
  lemma DraftCategoryIsKnown(events: seq<Event>, parsedAge: int)
    requires forall i | 0 <= i < |events| :: Possible(events[i])
    ensures var d := HandleSubmit(Run(Initial, events), parsedAge).draft;
            d.Some? ==> AdviceCard.KnownCategory(d.value.category)
  {
    assert Categories[0].0 == Initial.category;
    CategoryAlwaysAKey(Initial, events);
    var c := Run(Initial, events).category;
    var i :| 0 <= i < |Categories| && Categories[i].0 == c;
    ButtonsFollowCardTables();
    assert AdviceCard.EmojiTable[i].0 == c;
  }

  /** Each button label is the card's emoji for that key, a space, and the
      card's name for it. */
  lemma LabelsMatchCard(i: nat)
    requires i < |Categories|
    ensures Categories[i].1 == AdviceCard.CategoryEmoji(Categories[i].0) + " " + AdviceCard.CategoryName(Categories[i].0)
  {
    ButtonsFollowCardTables();
    AdviceCard.KnownCategoryLookup(i);
  }
}
