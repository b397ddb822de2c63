/** The rule logic of the FastAPI backend (advice-backend/main.py). The two
    Supabase tables become the sequences of an in-memory `Store`, the
    authenticated caller is passed in as a `Principal`, and every endpoint is a
    pure function returning either the error it raises or its new store and
    result. */
module Backend {
  import opened Wrappers
  import opened Seqs

  /** The two `user_type` values the rules test for; registration accepts any string. */
  const Father: string := "father"
  const Child: string := "child"

  /** A row of the users table. */
  datatype UserRow = UserRow(
    userId: string,
    passwordHash: string,
    userType: string,
    name: string,
    fatherId: Option<string>)

  /** The caller as `get_current_user` returns it. */
  datatype Principal = Principal(
    userId: string,
    userType: string,
    name: string,
    fatherId: Option<string>)

  /** A row of the advices table. */
  datatype Advice = Advice(
    id: string,
    authorId: string,
    category: string,
    targetAge: int,
    content: string,
    isRead: bool,
    isFavorite: bool,
    mediaUrl: Option<string>)

  /** The two tables. */
  datatype Store = Store(users: seq<UserRow>, advices: seq<Advice>)

  /** The `HTTPException`s the rules raise, one per distinct detail message. */
  datatype ApiError =
    | DuplicateUserId
    | UnknownFather
    | OnlyFathersWrite
    | OnlyChildrenFavorite
    | AccessDenied
    | AdviceNotFound

  /** The HTTP status code each error is raised with: 400 for the two
      registration errors, 404 for an unknown advice id, 403 for the rest. */
  function Status(e: ApiError): (r: int)
    ensures r == 400 <==> e == DuplicateUserId || e == UnknownFather
    ensures r == 404 <==> e == AdviceNotFound
    ensures r == 403 <==> e == OnlyFathersWrite || e == OnlyChildrenFavorite || e == AccessDenied
  {
    match e
    case DuplicateUserId | UnknownFather => 400
    case OnlyFathersWrite | OnlyChildrenFavorite | AccessDenied => 403
    case AdviceNotFound => 404
  }

  /** Python truthiness of an optional string: present and non-empty. */
  predicate Truthy(s: Option<string>)
  {
    s.Some? && s.value != ""
  }

  /** Python truthiness of an optional integer: present and non-zero. */
  predicate TruthyInt(n: Option<int>)
  {
    n.Some? && n.value != 0
  }

  // ----- registration -----

  /** The body of a registration request. */
  datatype Registration = Registration(
    userId: string,
    password: string,
    userType: string,
    name: string,
    fatherId: Option<string>)

  /** Some user row already has this `user_id`. */
  predicate UserIdTaken(users: seq<UserRow>, userId: string)
  {
    exists i | 0 <= i < |users| :: users[i].userId == userId
  }

  /** Some user row has this `user_id` and `user_type` "father". */
  predicate FatherRegistered(users: seq<UserRow>, userId: string)
  {
    exists i | 0 <= i < |users| :: users[i].userId == userId && users[i].userType == Father
  }

  /** No two user rows share a `user_id`. */
  predicate UniqueUserIds(users: seq<UserRow>)
  {
    forall i, j | 0 <= i < j < |users| :: users[i].userId != users[j].userId
  }

  /** A successful registration: the new tables and the token subject. */
  datatype Registered = Registered(store: Store, subject: string)

  /** `POST /auth/register`. The bcrypt hash of the password is computed
      outside the model and passed in; the access token is represented by its
      subject. The duplicate check comes first; a child with a non-empty
      `father_id` must name an existing father; anything else is accepted. */
  function Register(store: Store, reg: Registration, passwordHash: string): (r: Result<Registered, ApiError>)
    ensures UserIdTaken(store.users, reg.userId) ==> r == Err(DuplicateUserId)
    ensures (!UserIdTaken(store.users, reg.userId) && reg.userType == Child && Truthy(reg.fatherId))
            ==> (r.Ok? <==> FatherRegistered(store.users, reg.fatherId.value))
    ensures (!UserIdTaken(store.users, reg.userId) && !(reg.userType == Child && Truthy(reg.fatherId)))
            ==> r.Ok?
    ensures r.Err? ==> r.error == DuplicateUserId || r.error == UnknownFather
    ensures r == Err(DuplicateUserId) ==> UserIdTaken(store.users, reg.userId)
    ensures r.Err? ==> Status(r.error) == 400
    ensures r == Err(UnknownFather) ==>
              && !UserIdTaken(store.users, reg.userId)
              && reg.userType == Child && Truthy(reg.fatherId)
              && !FatherRegistered(store.users, reg.fatherId.value)
    ensures r.Ok? ==>
              && r.value.subject == reg.userId
              && r.value.store.advices == store.advices
              && |r.value.store.users| == |store.users| + 1
              && r.value.store.users[..|store.users|] == store.users
              && r.value.store.users[|store.users|]
                 == UserRow(reg.userId, passwordHash, reg.userType, reg.name, reg.fatherId)
  {
    if UserIdTaken(store.users, reg.userId) then Err(DuplicateUserId)
    else if reg.userType == Child && Truthy(reg.fatherId) && !FatherRegistered(store.users, reg.fatherId.value) then
      Err(UnknownFather)
    else
      var row := UserRow(reg.userId, passwordHash, reg.userType, reg.name, reg.fatherId);
      Ok(Registered(Store(store.users + [row], store.advices), reg.userId))
  }

  /** Registration never creates a second user with the same `user_id`. */
  lemma RegisterKeepsUserIdsUnique(store: Store, reg: Registration, passwordHash: string)
    requires UniqueUserIds(store.users)
    ensures var r := Register(store, reg, passwordHash);
            r.Ok? ==> UniqueUserIds(r.value.store.users)
  {
    var r := Register(store, reg, passwordHash);
    if r.Ok? {
      var users := r.value.store.users;
      forall i, j | 0 <= i < j < |users|
        ensures users[i].userId != users[j].userId
      {
        if j == |store.users| {
          assert users[i] == store.users[i];
        } else {
          assert users[i] == store.users[i] && users[j] == store.users[j];
        }
      }
    }
  }

  // ----- access rule -----

  /** The author whose advice a caller may see: fathers see their own,
      everyone else sees their father's. */
  function ScopeAuthor(user: Principal): Option<string>
  {
    if user.userType == Father then Some(user.userId) else user.fatherId
  }

  /** The role-based access rule of the single-advice endpoints: it admits
      exactly the advices of the caller's scope author, so a non-father
      without a father id sees nothing. */
  function CanAccess(user: Principal, a: Advice): (r: bool)
    ensures r <==> ScopeAuthor(user) == Some(a.authorId)
    ensures user.userType != Father && user.fatherId.None? ==> !r
  {
    if user.userType == Father then a.authorId == user.userId
    else user.fatherId == Some(a.authorId)
  }

  // ----- advice creation -----

  /** The body of an advice-creation request. */
  datatype AdviceInput = AdviceInput(category: string, targetAge: int, content: string)

  /** A successful creation: the new tables and the stored row. */
  datatype Created = Created(store: Store, advice: Advice)

  /** `POST /advices`. The database assigns the id, passed in as `newId`. */
  function CreateAdvice(store: Store, user: Principal, input: AdviceInput, newId: string): (r: Result<Created, ApiError>)
    ensures user.userType != Father <==> r == Err(OnlyFathersWrite)
    ensures r.Err? ==> r.error == OnlyFathersWrite
    ensures r.Err? ==> Status(r.error) == 403
    ensures r.Ok? ==>
              var a := r.value.advice;
              && a.id == newId
              && a.authorId == user.userId
              && !a.isRead && !a.isFavorite
              && a.category == input.category && a.targetAge == input.targetAge && a.content == input.content
              && a.mediaUrl.None?
              && r.value.store.users == store.users
              && r.value.store.advices == store.advices + [a]
  {
    if user.userType != Father then Err(OnlyFathersWrite)
    else
      var a := Advice(newId, user.userId, input.category, input.targetAge, input.content, false, false, None);
      Ok(Created(Store(store.users, store.advices + [a]), a))
  }

  /** A father can read back, through the single-advice rule, every advice he
      creates. */
  lemma CreatedAdviceIsAccessible(store: Store, user: Principal, input: AdviceInput, newId: string)
    requires user.userType == Father
    ensures var r := CreateAdvice(store, user, input, newId);
            r.Ok? && CanAccess(user, r.value.advice)
  {
  }

  // ----- single-advice lookup -----

  /** The index of the first advice with this id (`response.data[0]`). */
  function FindAdvice(advices: seq<Advice>, id: string): (r: Option<nat>)
    ensures r.None? <==> forall i | 0 <= i < |advices| :: advices[i].id != id
    ensures r.Some? ==>
              && r.value < |advices|
              && advices[r.value].id == id
              && forall j | 0 <= j < r.value :: advices[j].id != id
    decreases |advices|
  {
    if |advices| == 0 then None
    else if advices[0].id == id then Some(0)
    else match FindAdvice(advices[1..], id)
      case None => None
      case Some(k) => Some(k + 1)
  }

  /** The shared prologue of `get_advice` and `mark_advice_as_read`: 404 when
      no advice has the id, then 403 when the caller may not see the first
      one; otherwise the index of that advice. */
  function CheckAccess(store: Store, user: Principal, id: string): (r: Result<nat, ApiError>)
    ensures r == Err(AdviceNotFound) <==> forall i | 0 <= i < |store.advices| :: store.advices[i].id != id
    ensures r.Err? ==> r.error == AdviceNotFound || r.error == AccessDenied
    ensures r.Err? ==> (Status(r.error) == 404 <==> forall i | 0 <= i < |store.advices| :: store.advices[i].id != id)
    ensures r.Err? ==> Status(r.error) == 403 || Status(r.error) == 404
    ensures r.Ok? ==>
              && r.value < |store.advices|
              && store.advices[r.value].id == id
              && CanAccess(user, store.advices[r.value])
    ensures r.Ok? ==> FindAdvice(store.advices, id) == Some(r.value)
    ensures r == Err(AccessDenied) <==>
              && FindAdvice(store.advices, id).Some?
              && !CanAccess(user, store.advices[FindAdvice(store.advices, id).value])
  {
    match FindAdvice(store.advices, id)
    case None => Err(AdviceNotFound)
    case Some(i) => if CanAccess(user, store.advices[i]) then Ok(i) else Err(AccessDenied)
  }

  /** When ids are unique, access is decided by the one advice with the id. */
  lemma CheckAccessUnique(store: Store, user: Principal, i: nat)
    requires UniqueAdviceIds(store.advices)
    requires i < |store.advices|
    ensures var r := CheckAccess(store, user, store.advices[i].id);
            (r.Ok? <==> CanAccess(user, store.advices[i])) && (r.Ok? ==> r.value == i)
  {
  }

  /** `GET /advices/{advice_id}`. */
  function GetAdvice(store: Store, user: Principal, id: string): (r: Result<Advice, ApiError>)
    ensures r.Ok? ==> r.value in store.advices && r.value.id == id && CanAccess(user, r.value)
    ensures r.Ok? ==> r.value == store.advices[FindAdvice(store.advices, id).value]
    ensures r.Err? <==> CheckAccess(store, user, id).Err?
    ensures r.Err? ==> r.error == CheckAccess(store, user, id).error
  {
    match CheckAccess(store, user, id)
    case Err(e) => Err(e)
    case Ok(i) => Ok(store.advices[i])
  }

  // ----- mark as read -----

  /** No two advices share an id (the database's primary key). */
  predicate UniqueAdviceIds(advices: seq<Advice>)
  {
    forall i, j | 0 <= i < j < |advices| :: advices[i].id != advices[j].id
  }

  /** The `UPDATE ... SET is_read = true WHERE id = ...` statement. */
  function SetReadWhere(advices: seq<Advice>, id: string): (r: seq<Advice>)
    ensures |r| == |advices|
    ensures forall i | 0 <= i < |r| :: r[i].isRead == (advices[i].isRead || advices[i].id == id)
    ensures forall i | 0 <= i < |r| :: r[i].(isRead := advices[i].isRead) == advices[i]
  {
    seq(|advices|, i requires 0 <= i < |advices| =>
      if advices[i].id == id then advices[i].(isRead := true) else advices[i])
  }

  /** `PUT /advices/{advice_id}/read`: the same 404/403 checks as `get_advice`,
      then the advice is marked read. */
  function MarkAdviceAsRead(store: Store, user: Principal, id: string): (r: Result<Store, ApiError>)
    ensures r.Err? <==> CheckAccess(store, user, id).Err?
    ensures r.Err? ==> r.error == CheckAccess(store, user, id).error
    ensures r.Ok? ==> r.value.users == store.users && r.value.advices == SetReadWhere(store.advices, id)
  {
    match CheckAccess(store, user, id)
    case Err(e) => Err(e)
    case Ok(_) => Ok(Store(store.users, SetReadWhere(store.advices, id)))
  }

  /** Marking read twice is the same as marking read once. */
  lemma {:induction false} MarkAdviceAsReadIdempotent(store: Store, user: Principal, id: string)
    requires MarkAdviceAsRead(store, user, id).Ok?
    ensures var s1 := MarkAdviceAsRead(store, user, id).value;
            MarkAdviceAsRead(s1, user, id) == Ok(s1)
  {
    var s1 := MarkAdviceAsRead(store, user, id).value;
    var i := CheckAccess(store, user, id).value;
    assert s1.advices[i].(isRead := store.advices[i].isRead) == store.advices[i];
    assert CheckAccess(s1, user, id).Ok?;
    assert SetReadWhere(s1.advices, id) == s1.advices;
  }

  // ----- favourite toggle -----

  /** The `UPDATE ... SET is_favorite = value WHERE id = ...` statement. */
  function SetFavoriteWhere(advices: seq<Advice>, id: string, value: bool): (r: seq<Advice>)
    ensures |r| == |advices|
    ensures forall i | 0 <= i < |r| :: r[i].isFavorite == (if advices[i].id == id then value else advices[i].isFavorite)
    ensures forall i | 0 <= i < |r| :: r[i].(isFavorite := advices[i].isFavorite) == advices[i]
  {
    seq(|advices|, i requires 0 <= i < |advices| =>
      if advices[i].id == id then advices[i].(isFavorite := value) else advices[i])
  }

  /** A successful toggle: the new tables and the new favourite state. */
  datatype Toggled = Toggled(store: Store, favorite: bool)

  /** `PUT /advices/{advice_id}/favorite`: 404 when the id is missing, then 403
      unless the caller is a child, then 403 unless the advice is by the
      caller's father; otherwise the favourite flag is negated. */
  function ToggleAdviceFavorite(store: Store, user: Principal, id: string): (r: Result<Toggled, ApiError>)
    ensures r == Err(AdviceNotFound) <==> forall i | 0 <= i < |store.advices| :: store.advices[i].id != id
    ensures ((exists i | 0 <= i < |store.advices| :: store.advices[i].id == id) && user.userType != Child)
            ==> r == Err(OnlyChildrenFavorite)
    ensures r.Err? ==> r.error == AdviceNotFound || r.error == OnlyChildrenFavorite || r.error == AccessDenied
    ensures r == Err(OnlyChildrenFavorite) ==> user.userType != Child
    ensures r.Err? ==> (Status(r.error) == 404 <==> forall i | 0 <= i < |store.advices| :: store.advices[i].id != id)
    ensures r.Err? ==> Status(r.error) == 403 || Status(r.error) == 404
    ensures (&& FindAdvice(store.advices, id).Some?
             && user.userType == Child
             && user.fatherId == Some(store.advices[FindAdvice(store.advices, id).value].authorId))
            ==> r.Ok?
    ensures r.Ok? ==>
              var i := FindAdvice(store.advices, id).value;
              && user.userType == Child
              && user.fatherId == Some(store.advices[i].authorId)
              && r.value.favorite == !store.advices[i].isFavorite
              && r.value.store.users == store.users
              && r.value.store.advices == SetFavoriteWhere(store.advices, id, r.value.favorite)
    ensures r == Err(AccessDenied) <==>
              && FindAdvice(store.advices, id).Some?
              && user.userType == Child
              && user.fatherId != Some(store.advices[FindAdvice(store.advices, id).value].authorId)
  {
    match FindAdvice(store.advices, id)
    case None => Err(AdviceNotFound)
    case Some(i) =>
      if user.userType != Child then Err(OnlyChildrenFavorite)
      else if user.fatherId != Some(store.advices[i].authorId) then Err(AccessDenied)
      else
        var favorite := !store.advices[i].isFavorite;
        Ok(Toggled(Store(store.users, SetFavoriteWhere(store.advices, id, favorite)), favorite))
  }

  /** Lookup by id only sees the ids. */
  lemma {:induction false} FindAdviceSameIds(a: seq<Advice>, b: seq<Advice>, id: string)
    requires |a| == |b|
    requires forall i | 0 <= i < |a| :: a[i].id == b[i].id
    ensures FindAdvice(a, id) == FindAdvice(b, id)
    decreases |a|
  {
    if |a| > 0 {
      FindAdviceSameIds(a[1..], b[1..], id);
    }
  }

  /** Toggling twice restores the store when advice ids are unique (with
      duplicate ids every copy is set from the first one, so it need not). */
  lemma ToggleTwiceRestores(store: Store, user: Principal, id: string)
    requires UniqueAdviceIds(store.advices)
    requires ToggleAdviceFavorite(store, user, id).Ok?
    ensures var s1 := ToggleAdviceFavorite(store, user, id).value.store;
            var r2 := ToggleAdviceFavorite(s1, user, id);
            r2.Ok? && r2.value.store == store
  {
    var t1 := ToggleAdviceFavorite(store, user, id).value;
    var s1 := t1.store;
    var i := FindAdvice(store.advices, id).value;
    assert t1.favorite == !store.advices[i].isFavorite;
    FindAdviceSameIds(s1.advices, store.advices, id);
    assert s1.advices[i].isFavorite == !store.advices[i].isFavorite;
    var r2 := ToggleAdviceFavorite(s1, user, id);
    assert r2.Ok? && r2.value.favorite == store.advices[i].isFavorite;
    var s2 := r2.value.store;
    forall k | 0 <= k < |store.advices|
      ensures s2.advices[k] == store.advices[k]
    {
      if store.advices[k].id == id {
        assert k == i;
      }
    }
  }

  // ----- listing -----

  /** The selection of `GET /advices`: the caller's scope author, then the
      category when it is truthy, then the target age when it is truthy (so 0
      is ignored). */
  function Listed(user: Principal, category: Option<string>, targetAge: Option<int>, a: Advice): (r: bool)
    ensures r ==> CanAccess(user, a)
    ensures (!Truthy(category) && !TruthyInt(targetAge)) ==> (r <==> CanAccess(user, a))
    ensures (r && Truthy(category)) ==> a.category == category.value
    ensures (r && TruthyInt(targetAge)) ==> a.targetAge == targetAge.value
    ensures r <==> && CanAccess(user, a)
                   && (Truthy(category) ==> a.category == category.value)
                   && (TruthyInt(targetAge) ==> a.targetAge == targetAge.value)
  {
    && ScopeAuthor(user) == Some(a.authorId)
    && (Truthy(category) ==> a.category == category.value)
    && (TruthyInt(targetAge) ==> a.targetAge == targetAge.value)
  }

  /** `GET /advices`, in store order (the database's `created_at` ordering is
      not part of the model). */
  function GetAdvices(store: Store, user: Principal, category: Option<string>, targetAge: Option<int>): (r: seq<Advice>)
    ensures IsSubsequence(r, store.advices)
    ensures forall a :: a in r ==> CanAccess(user, a)
    ensures forall a :: a in r <==> a in store.advices && Listed(user, category, targetAge, a)
    ensures forall a :: multiset(r)[a] == (if Listed(user, category, targetAge, a) then multiset(store.advices)[a] else 0)
  {
    var r := Filter(store.advices, (a: Advice) => Listed(user, category, targetAge, a));
    FilterIsSubsequence(store.advices, (a: Advice) => Listed(user, category, targetAge, a));
    r
  }

  /** Without filters the listing is exactly the advices the access rule admits. */
  lemma UnfilteredListingIsAccessible(store: Store, user: Principal, category: Option<string>, targetAge: Option<int>)
    requires !Truthy(category) && !TruthyInt(targetAge)
    ensures forall a :: a in GetAdvices(store, user, category, targetAge) <==> a in store.advices && CanAccess(user, a)
  {
  }

  /** A target age of 0 selects the same advices as no target age at all. */
  lemma ZeroTargetAgeIgnored(store: Store, user: Principal, category: Option<string>)
    ensures GetAdvices(store, user, category, Some(0)) == GetAdvices(store, user, category, None)
  {
    FilterExtensional(store.advices,
      (a: Advice) => Listed(user, category, Some(0), a),
      (a: Advice) => Listed(user, category, None, a));
  }

  // ----- stats -----

  /** The two shapes of the `/stats` response. */
  datatype Stats =
    | FatherStats(total: nat, read: nat, unread: nat)
    | ChildStats(available: nat, future: nat, favorites: nat, currentAge: int)

  /** The advices of the caller's scope author. */
  function ScopedAdvices(store: Store, user: Principal): (r: seq<Advice>)
    ensures forall a :: a in r <==> a in store.advices && CanAccess(user, a)
    ensures forall a :: multiset(r)[a] == (if CanAccess(user, a) then multiset(store.advices)[a] else 0)
  {
    Filter(store.advices, (a: Advice) => ScopeAuthor(user) == Some(a.authorId))
  }

  /** `GET /stats`; the child's current age (fixed at 25 in the source) is a parameter. */
  function GetStats(store: Store, user: Principal, currentAge: int): (r: Stats)
    ensures user.userType == Father <==> r.FatherStats?
    ensures r.FatherStats? ==>
              && r.total == |ScopedAdvices(store, user)|
              && r.read == |Filter(ScopedAdvices(store, user), (a: Advice) => a.isRead)|
              && r.unread == |Filter(ScopedAdvices(store, user), (a: Advice) => !a.isRead)|
              && r.read + r.unread == r.total
    ensures r.ChildStats? ==>
              && r.currentAge == currentAge
              && r.available == |Filter(ScopedAdvices(store, user), (a: Advice) => a.targetAge <= currentAge)|
              && r.future == |Filter(ScopedAdvices(store, user), (a: Advice) => a.targetAge > currentAge)|
              && r.favorites == |Filter(ScopedAdvices(store, user), (a: Advice) => a.isFavorite)|
              && r.available + r.future == |ScopedAdvices(store, user)|
              && r.favorites <= |ScopedAdvices(store, user)|
  {
    var advices := ScopedAdvices(store, user);
    if user.userType == Father then
      FilterPartition(advices, (a: Advice) => a.isRead, (a: Advice) => !a.isRead);
      FatherStats(|advices|, |Filter(advices, (a: Advice) => a.isRead)|, |Filter(advices, (a: Advice) => !a.isRead)|)
    else
      FilterPartition(advices, (a: Advice) => a.targetAge <= currentAge, (a: Advice) => a.targetAge > currentAge);
      ChildStats(
        |Filter(advices, (a: Advice) => a.targetAge <= currentAge)|,
        |Filter(advices, (a: Advice) => a.targetAge > currentAge)|,
        |Filter(advices, (a: Advice) => a.isFavorite)|,
        currentAge)
  }

  /** Favourites are counted over all of the child's advices whatever their
      age: the count is the favourites among the available ones plus the
      favourites among the future ones. */
  lemma ChildFavoritesIgnoreAge(store: Store, user: Principal, currentAge: int)
    requires user.userType != Father
    ensures var advices := ScopedAdvices(store, user);
            GetStats(store, user, currentAge).favorites
            == |Filter(Filter(advices, (a: Advice) => a.targetAge <= currentAge), (a: Advice) => a.isFavorite)|
             + |Filter(Filter(advices, (a: Advice) => a.targetAge > currentAge), (a: Advice) => a.isFavorite)|
  {
    var advices := ScopedAdvices(store, user);
    FilterSplitCount(advices, (a: Advice) => a.targetAge <= currentAge, (a: Advice) => a.targetAge > currentAge, (a: Advice) => a.isFavorite);
  }

  /** The category and target-age conditions of the listing, on their own. */
  predicate MatchesFilters(category: Option<string>, targetAge: Option<int>, a: Advice)
  {
    && (Truthy(category) ==> a.category == category.value)
    && (TruthyInt(targetAge) ==> a.targetAge == targetAge.value)
  }

  /** A filtered listing is the unfiltered listing narrowed by the category
      and target-age conditions, in the same order. */
  lemma FilteredListingNarrowsUnfiltered(store: Store, user: Principal, category: Option<string>, targetAge: Option<int>)
    ensures GetAdvices(store, user, category, targetAge)
            == Filter(GetAdvices(store, user, None, None), (a: Advice) => MatchesFilters(category, targetAge, a))
  {
    var s := store.advices;
    var listed := (a: Advice) => Listed(user, category, targetAge, a);
    var unfiltered := (a: Advice) => Listed(user, None, None, a);
    var matches := (a: Advice) => MatchesFilters(category, targetAge, a);
    forall a | a in s
      ensures listed(a) == (unfiltered(a) && matches(a))
    {
      ListedSplits(user, category, targetAge, a);
    }
    FilterFuse(s, unfiltered, matches, listed);
  }

  /** Being listed with filters is being listed without them and matching them. */
  lemma ListedSplits(user: Principal, category: Option<string>, targetAge: Option<int>, a: Advice)
    ensures Listed(user, category, targetAge, a) <==> Listed(user, None, None, a) && MatchesFilters(category, targetAge, a)
  {
  }

  /** The statistics scope is the unfiltered listing, for every role. */
  lemma ScopeIsUnfilteredListing(store: Store, user: Principal)
    ensures ScopedAdvices(store, user) == GetAdvices(store, user, None, None)
  {
    FilterExtensional(store.advices, (a: Advice) => ScopeAuthor(user) == Some(a.authorId),
                      (a: Advice) => Listed(user, None, None, a));
  }

  /** A father's statistics count exactly the advices his unfiltered listing shows. */
  lemma FatherTotalIsListingSize(store: Store, user: Principal, currentAge: int)
    requires user.userType == Father
    ensures GetStats(store, user, currentAge).total == |GetAdvices(store, user, None, None)|
  {
    ScopeIsUnfilteredListing(store, user);
  }

  /** Creating an advice adds one to the author's total and unread counts and
      leaves the read count alone. */
  lemma CreateCountsAsUnread(store: Store, user: Principal, input: AdviceInput, newId: string, currentAge: int)
    requires user.userType == Father
    ensures var r := CreateAdvice(store, user, input, newId);
            && r.Ok?
            && var before := GetStats(store, user, currentAge);
               var after := GetStats(r.value.store, user, currentAge);
               && after.total == before.total + 1
               && after.read == before.read
               && after.unread == before.unread + 1
  {
    var r := CreateAdvice(store, user, input, newId);
    var a := r.value.advice;
    var prior := ScopedAdvices(store, user);
    ScopedAppend(store, user, a);
    CountsAppendUnread(prior, a);
  }

  lemma ScopedAppend(store: Store, user: Principal, a: Advice)
    requires a.authorId == user.userId && user.userType == Father
    ensures ScopedAdvices(Store(store.users, store.advices + [a]), user) == ScopedAdvices(store, user) + [a]
  {
    var scope := (x: Advice) => ScopeAuthor(user) == Some(x.authorId);
    FilterConcat(store.advices, [a], scope);
    assert [a][1..] == [];
    assert Filter([a], scope) == [a];
  }

  lemma CountsAppendUnread(s: seq<Advice>, a: Advice)
    requires !a.isRead
    ensures |Filter(s + [a], (x: Advice) => x.isRead)| == |Filter(s, (x: Advice) => x.isRead)|
    ensures |Filter(s + [a], (x: Advice) => !x.isRead)| == |Filter(s, (x: Advice) => !x.isRead)| + 1
  {
    FilterConcat(s, [a], (x: Advice) => x.isRead);
    FilterConcat(s, [a], (x: Advice) => !x.isRead);
    assert [a][1..] == [];
  }
}
