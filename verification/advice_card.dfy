/** The decisions the advice card makes when it renders
    (advice-frontend/src/components/AdviceCard.tsx). */
module AdviceCard {
  import opened Wrappers
  import opened Seqs
  import opened ClientAdvice

  /** The emoji shown for a category that is not in the table. */
  const FallbackEmoji: string := "💝"

  /** The `emojis` object of `getCategoryEmoji`. */
  const EmojiTable: seq<(string, string)> := [
    ("life", "💡"),
    ("love", "💕"),
    ("career", "💼"),
    ("health", "🏃‍♂️"),
    ("money", "💰"),
    ("friendship", "👥"),
    ("study", "📚"),
    ("hobby", "🎨"),
    ("dream", "🌟")
  ]

  /** The `names` object of `getCategoryName`. */
  const NameTable: seq<(string, string)> := [
    ("life", "인생 조언"),
    ("love", "사랑 이야기"),
    ("career", "진로/직업"),
    ("health", "건강"),
    ("money", "돈 관리"),
    ("friendship", "인간관계"),
    ("study", "공부/학습"),
    ("hobby", "취미/여가"),
    ("dream", "꿈과 목표")
  ]

  /** The category is a key of the tables. */
  predicate KnownCategory(c: string)
  {
    exists i | 0 <= i < |EmojiTable| :: EmojiTable[i].0 == c
  }

  /** `getCategoryEmoji`: `emojis[category] || '💝'`. The fallback appears
      exactly for categories outside the table. */
  function CategoryEmoji(c: string): (r: string)
    ensures r == FallbackEmoji <==> !KnownCategory(c)
    ensures KnownCategory(c) ==> (c, r) in EmojiTable
  {
    OrElse(Lookup(EmojiTable, c), FallbackEmoji)
  }

  /** No label is empty or equal to its own key. */
  lemma NamesDifferFromKeys()
    ensures forall e | e in NameTable :: e.1 != "" && e.1 != e.0
  {
    forall e | e in NameTable
      ensures e.1 != "" && e.1 != e.0
    {
      assert e.0[0] < 'z' < e.1[0];
    }
  }

  /** `getCategoryName`: `names[category] || category`. A category outside
      the table is shown as it is. */
  function CategoryName(c: string): (r: string)
    ensures r == c <==> !KnownCategory(c)
    ensures KnownCategory(c) ==> (c, r) in NameTable
  {
    NameLookupFacts(c);
    OrElse(Lookup(NameTable, c), c)
  }

  /** The name table's answer for `c`: a label different from `c` for a key,
      nothing otherwise. */
  lemma NameLookupFacts(c: string)
    ensures Lookup(NameTable, c).Some? <==> KnownCategory(c)
    ensures Lookup(NameTable, c).Some? ==> Lookup(NameTable, c).value != "" && Lookup(NameTable, c).value != c
  {
    NamesDifferFromKeys();
    TablesShareKeys();
  }

  /** Both tables list the same nine keys, in the same order, once each. */
  lemma TablesShareKeys()
    ensures |EmojiTable| == |NameTable| == 9
    ensures forall i | 0 <= i < 9 :: EmojiTable[i].0 == NameTable[i].0
    ensures DistinctKeys(EmojiTable) && DistinctKeys(NameTable)
  {
  }

  /** Every key maps to its own entry of each table. */
  lemma KnownCategoryLookup(i: nat)
    requires i < |EmojiTable|
    ensures CategoryEmoji(EmojiTable[i].0) == EmojiTable[i].1
    ensures CategoryName(NameTable[i].0) == NameTable[i].1
  {
    TablesShareKeys();
    LookupEntry(EmojiTable, i);
    LookupEntry(NameTable, i);
  }

  /** What the media block of the card shows. */
  datatype MediaBlock = NoMedia | Image(src: string) | Video(src: string) | Attachment(url: string)

  /** The media block: nothing when `media_url` is falsy, otherwise an image
      for media type "image", a video for "video", and a generic attachment
      for anything else (including a missing type). */
  function MediaBlockOf(a: Advice): (r: MediaBlock)
    ensures r.NoMedia? <==> !HasMedia(a)
    ensures r.Image? <==> HasMedia(a) && a.mediaType == Some("image")
    ensures r.Video? <==> HasMedia(a) && a.mediaType == Some("video")
    ensures r.Attachment? <==> HasMedia(a) && a.mediaType != Some("image") && a.mediaType != Some("video")
    ensures r.Image? ==> Some(r.src) == a.mediaUrl
    ensures r.Video? ==> Some(r.src) == a.mediaUrl
    ensures r.Attachment? ==> Some(r.url) == a.mediaUrl
  {
    if !HasMedia(a) then NoMedia
    else if a.mediaType == Some("image") then Image(a.mediaUrl.value)
    else if a.mediaType == Some("video") then Video(a.mediaUrl.value)
    else Attachment(a.mediaUrl.value)
  }

  /** What one rendered card shows. */
  datatype CardView = CardView(
    emoji: string,
    categoryName: string,
    targetAge: int,
    content: string,
    favoriteControl: Option<string>,
    media: MediaBlock,
    date: string,
    favoriteBadge: bool)

  /** The card for `a`; `hasToggle` says whether `onToggleFavorite` was passed.
      The star control appears only for a child with a toggle handler and
      shows a filled star exactly for a favourite; the favourite badge appears
      only for a child and a favourite. */
  function RenderCard(a: Advice, userType: UserType, hasToggle: bool): (r: CardView)
    ensures r.favoriteControl.Some? <==> userType == Child && hasToggle
    ensures r.favoriteControl.Some? ==> (r.favoriteControl.value == "⭐" <==> a.isFavorite)
    ensures r.favoriteBadge <==> userType == Child && a.isFavorite
    ensures r.emoji == CategoryEmoji(a.category) && r.categoryName == CategoryName(a.category)
    ensures r.media.NoMedia? <==> !HasMedia(a)
    ensures r.media == MediaBlockOf(a)
    ensures r.favoriteControl.Some? ==> r.favoriteControl.value == (if a.isFavorite then "⭐" else "☆")
    ensures r.targetAge == a.targetAge && r.content == a.content && r.date == a.date
  {
    CardView(
      CategoryEmoji(a.category),
      CategoryName(a.category),
      a.targetAge,
      a.content,
      if userType == Child && hasToggle then Some(if a.isFavorite then "⭐" else "☆") else None,
      MediaBlockOf(a),
      a.date,
      userType == Child && a.isFavorite)
  }
}
