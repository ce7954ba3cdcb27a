/**
 * Which borrowings a caller sees: members only their own, staff everyone's;
 * staff may narrow by `user_id`; anyone may narrow by `is_active`. The detail
 * and return endpoints look a row up through the same scope.
 */
module Scoping {
  import opened Wrappers
  import opened Seqs
  import opened Text
  import opened Borrowings

  /**
   * The query parameters of a borrowing request. A missing or empty `user_id`
   * is `None`; `is_active` is the raw string.
   */
  datatype ListParams = ListParams(userId: Option<nat>, isActive: Option<string>)

  const NoParams := ListParams(None, None)

  datatype ActiveFilter = AnyState | OnlyOpen | OnlyClosed

  /** `is_active`, compared case-insensitively with "true" and "false"; any other value filters nothing. */
  function ParseIsActive(isActive: Option<string>): (f: ActiveFilter)
    ensures f == OnlyOpen <==> isActive.Some? && ToLower(isActive.value) == "true"
    ensures f == OnlyClosed <==> isActive.Some? && ToLower(isActive.value) == "false"
  {
    if !Given(isActive) then AnyState
    else if ToLower(isActive.value) == "true" then OnlyOpen
    else if ToLower(isActive.value) == "false" then OnlyClosed
    else AnyState
  }

  /** A member is confined to rows they borrowed; staff are not. */
  predicate OwnerScope(caller: User, b: Borrowing) {
    caller.isStaff || b.user.id == caller.id
  }

  /** `user_id` narrows the rows only when the caller is staff. */
  predicate UserIdScope(caller: User, userId: Option<nat>, b: Borrowing) {
    userId.Some? && caller.isStaff ==> b.user.id == userId.value
  }

  predicate ActiveScope(f: ActiveFilter, b: Borrowing) {
    match f
    case AnyState => true
    case OnlyOpen => IsOpen(b)
    case OnlyClosed => !IsOpen(b)
  }

  /** The conjunction of the filters that apply to this caller and these parameters. */
  predicate Visible(caller: User, params: ListParams, b: Borrowing) {
    && OwnerScope(caller, b)
    && UserIdScope(caller, params.userId, b)
    && ActiveScope(ParseIsActive(params.isActive), b)
  }

  /**
   * The scoped queryset: exactly the entries visible to the caller, in the
   * order of the input, so a newest-first input gives a newest-first result.
   */
  function Scope(es: seq<Entry>, caller: User, params: ListParams): (r: seq<Entry>)
    ensures forall e :: e in r <==> e in es && Visible(caller, params, e.borrowing)
    ensures IsSubsequence(r, es)
    ensures NoDuplicates(es) ==> NoDuplicates(r)
    ensures NewestFirst(es) ==> NewestFirst(r)
  {
    var keep := (e: Entry) => Visible(caller, params, e.borrowing);
    var r := Filter(es, keep);
    assert NewestFirst(es) ==> NewestFirst(r) by {
      if NewestFirst(es) {
        FilterKeepsOrder(es, keep, NewerOrSame);
      }
    }
    r
  }

  /** The borrowing list endpoint: the whole table in listing order, then scoped. */
  function List(bs: seq<Borrowing>, caller: User, params: ListParams): (r: seq<Entry>)
    ensures IsSubsequence(r, AllNewestFirst(bs))
    ensures NoDuplicates(r)
    ensures NewestFirst(r)
    ensures forall e :: e in r <==> e.id < |bs| && e.borrowing == bs[e.id] && Visible(caller, params, e.borrowing)
  {
    Scope(AllNewestFirst(bs), caller, params)
  }

  /** The detail and return lookup: the row `id`, provided the caller's scope includes it. */
  function Lookup(bs: seq<Borrowing>, caller: User, params: ListParams, id: BorrowingId): (r: Option<Borrowing>)
    ensures r.Some? <==> id < |bs| && Entry(id, bs[id]) in List(bs, caller, params)
    ensures r.Some? ==> id < |bs| && r.value == bs[id]
  {
    if id < |bs| && Visible(caller, params, bs[id]) then Some(bs[id]) else None
  }

  /** A member lists nothing but their own borrowings. */
  lemma MemberListsOwnOnly(bs: seq<Borrowing>, caller: User, params: ListParams)
    requires !caller.isStaff
    ensures forall e :: e in List(bs, caller, params) ==> e.borrowing.user.id == caller.id
  {
  }

  /** A member cannot fetch, or return, another user's borrowing: it is not found. */
  lemma MemberCannotReachOthers(bs: seq<Borrowing>, caller: User, params: ListParams, id: BorrowingId)
    requires !caller.isStaff && id < |bs| && bs[id].user.id != caller.id
    ensures Lookup(bs, caller, params, id) == None
  {
  }

  /** `user_id` has no effect on a member's list. */
  lemma UserIdIgnoredForMembers(bs: seq<Borrowing>, caller: User, userId: Option<nat>, isActive: Option<string>)
    requires !caller.isStaff
    ensures List(bs, caller, ListParams(userId, isActive)) == List(bs, caller, ListParams(None, isActive))
  {
    FilterCongruent(AllNewestFirst(bs),
                    (e: Entry) => Visible(caller, ListParams(userId, isActive), e.borrowing),
                    (e: Entry) => Visible(caller, ListParams(None, isActive), e.borrowing));
  }

  /** Staff without parameters list every borrowing there is. */
  lemma StaffListsEverything(bs: seq<Borrowing>, caller: User)
    requires caller.isStaff
    ensures List(bs, caller, NoParams) == AllNewestFirst(bs)
  {
    FilterKeepsAll(AllNewestFirst(bs), (e: Entry) => Visible(caller, NoParams, e.borrowing));
  }

  /** The `is_active` value is matched in any letter case. */
  lemma IsActiveAnyCase()
    ensures ParseIsActive(Some("TRUE")) == OnlyOpen
    ensures ParseIsActive(Some("False")) == OnlyClosed
    ensures ParseIsActive(Some("yes")) == AnyState
    ensures ParseIsActive(Some("")) == AnyState
  {
    assert ToLower("TRUE") == "true";
    assert ToLower("False") == "false";
    assert ToLower("yes") == "yes";
  }
}
