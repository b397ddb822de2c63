/** The decisions the advice modal makes when it renders
    (advice-frontend/src/components/AdviceModal.tsx). The modal carries its
    own copies of the category tables; they are written out again here so
    that their agreement with the card's is a proved fact, not a definition. */
module AdviceModal {
  import opened Seqs
  import opened ClientAdvice
  import AdviceCard

  /** The emoji shown for a category that is not in the table. */
  const FallbackEmoji: string := "💝"

  /** The modal's `emojis` object. */
  const EmojiTable: seq<(string, string)> := [
    ("life", "💡"),
    ("love", "💕"),
    ("career", "💼"),
    ("health", "🏃‍♂️"),
    ("money", "💰"),
    ("friendship", "👥"),
    ("study", "📚"),
    ("hobby", "🎨"),
    ("dream", "🌟")
  ]

  /** The modal's `names` object. */
  const NameTable: seq<(string, string)> := [
    ("life", "인생 조언"),
    ("love", "사랑 이야기"),
    ("career", "진로/직업"),
    ("health", "건강"),
    ("money", "돈 관리"),
    ("friendship", "인간관계"),
    ("study", "공부/학습"),
    ("hobby", "취미/여가"),
    ("dream", "꿈과 목표")
  ]

  /** The modal's `getCategoryEmoji`. */
  function CategoryEmoji(c: string): (r: string)
    ensures r == AdviceCard.CategoryEmoji(c)
  {
    assert EmojiTable == AdviceCard.EmojiTable;
    assert FallbackEmoji == AdviceCard.FallbackEmoji;
    OrElse(Lookup(EmojiTable, c), FallbackEmoji)
  }

  /** The modal's `getCategoryName`. */
  function CategoryName(c: string): (r: string)
    ensures r == AdviceCard.CategoryName(c)
  {
    assert NameTable == AdviceCard.NameTable;
    OrElse(Lookup(NameTable, c), c)
  }

  /** The modal's duplicate lookups give the card's answer on every input:
      the table entry for the nine keys, the fallback emoji or the category
      itself for anything else. */
  lemma ModalAgreesWithCard(c: string)
    ensures CategoryEmoji(c) == FallbackEmoji <==> !AdviceCard.KnownCategory(c)
    ensures CategoryName(c) == c <==> !AdviceCard.KnownCategory(c)
  {
  }

  /** What the open modal shows. */
  datatype ModalView = ModalView(
    emoji: string,
    categoryName: string,
    targetAge: int,
    recipient: string,
    date: string,
    content: string,
    footer: string)

  /** The phrase naming the recipient: "우리 아이" for a father, "나" for a child. */
  function Recipient(userType: UserType): string
  {
    if userType == Father then "우리 아이" else "나"
  }

  /** The footer caption, chosen by `userType` alone. */
  function Footer(userType: UserType): string
  {
    if userType == Father then "아이에게 전하는 아버지의 마음" else "아버지가 전하는 특별한 메시지"
  }

  /** The modal for `a`. Only the recipient phrase and the footer depend on
      who is viewing; everything else comes from the advice. */
  function RenderModal(a: Advice, userType: UserType): (r: ModalView)
    ensures r.recipient == (if userType == Father then "우리 아이" else "나")
    ensures r.emoji == AdviceCard.CategoryEmoji(a.category)
    ensures r.categoryName == AdviceCard.CategoryName(a.category)
    ensures r.targetAge == a.targetAge && r.content == a.content && r.date == a.date
    ensures r.footer == (if userType == Father then "아이에게 전하는 아버지의 마음" else "아버지가 전하는 특별한 메시지")
  {
    ModalView(
      CategoryEmoji(a.category),
      CategoryName(a.category),
      a.targetAge,
      Recipient(userType),
      a.date,
      a.content,
      Footer(userType))
  }

  /** A father and a child opening the same advice see the same modal except
      for the recipient phrase and the footer, and those two differ. */
  lemma ViewersDifferOnlyInPhrasing(a: Advice)
    ensures var f := RenderModal(a, Father);
            var c := RenderModal(a, Child);
            && f.(recipient := c.recipient, footer := c.footer) == c
            && f.recipient != c.recipient
            && f.footer != c.footer
  {
  }
}
