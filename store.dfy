/** The persistent state behind the views and what each view does to it:
    signup, the capped bookmark create of `my_collections`, the owner-scoped
    edit and delete, the contact form, and the cascade that removes a user's
    bookmarks with the user. Each bookmark operation is first stated as a
    function of the old bookmark list (its specification, about which the
    lemmas speak); the `Database` methods then apply it in place. */
module Store {
  import opened Wrappers
  import opened Seqs
  import opened Text
  import opened Collaborators
  import opened Models
  import opened Forms
  import opened Query

  /** The per-user cap `my_collections` checks before saving. */
  const MaxBookmarksPerUser: nat := 5

  datatype StoreError = NotFound | CapExceeded | Invalid(errors: set<FormError>)

  /** The HTTP method of a request to a view with a read step and a write step. */
  datatype Verb = Get | Post

  function BookmarkKey(b: Bookmark): BookmarkId { b.id }
  function TimeKey(b: Bookmark): nat { b.addedTime }
  function UserKey(u: User): UserId { u.id }
  function EmailKey(u: User): string { u.email }

  /** `Bookmark.objects.filter(user=...).count()`. */
  function CountOwned(bs: seq<Bookmark>, user: UserId): nat
  {
    |OwnedBy(bs, user)|
  }

  /** The position `get_object_or_404(Bookmark, id=id, user=user)` finds: one
      predicate on id and owner together, so a bookmark of another user is as
      invisible as a missing one. */
  function FindOwned(bs: seq<Bookmark>, user: UserId, id: BookmarkId): (r: Option<nat>)
    ensures r.Some? ==> r.value < |bs| && bs[r.value].id == id && bs[r.value].owner == user
    ensures r.None? <==> forall i :: 0 <= i < |bs| ==> !(bs[i].id == id && bs[i].owner == user)
  {
    if bs == [] then None
    else if bs[|bs| - 1].id == id && bs[|bs| - 1].owner == user then Some(|bs| - 1)
    else FindOwned(bs[..|bs| - 1], user, id)
  }

  /** The read step of edit and delete: the bookmark, or not-found. */
  function Lookup(bs: seq<Bookmark>, user: UserId, id: BookmarkId): (r: Result<Bookmark, StoreError>)
    ensures r.Success? ==> r.value in bs && r.value.id == id && r.value.owner == user
    ensures r.Failure? ==> r.error == NotFound
    ensures r.Failure? <==> forall i :: 0 <= i < |bs| ==> !(bs[i].id == id && bs[i].owner == user)
  {
    match FindOwned(bs, user, id)
    case None => Failure(NotFound)
    case Some(i) => Success(bs[i])
  }

  lemma OwnedBySingleton(b: Bookmark, v: UserId)
    ensures OwnedBy([b], v) == if b.owner == v then [b] else []
  {
    assert [b][1..] == [];
  }

  lemma OwnedByConcat(a: seq<Bookmark>, b: seq<Bookmark>, v: UserId)
    ensures OwnedBy(a + b, v) == OwnedBy(a, v) + OwnedBy(b, v)
  {
    FilterConcat(a, b, (x: Bookmark) => x.owner == v);
  }

  /** The owned bookmarks around one position, with and without it. */
  lemma OwnedBySplit(pre: seq<Bookmark>, x: Bookmark, post: seq<Bookmark>, v: UserId)
    ensures OwnedBy(pre + [x] + post, v) == OwnedBy(pre, v) + OwnedBy([x], v) + OwnedBy(post, v)
    ensures OwnedBy(pre + post, v) == OwnedBy(pre, v) + OwnedBy(post, v)
  {
    OwnedByConcat(pre + [x], post, v);
    OwnedByConcat(pre, [x], v);
    OwnedByConcat(pre, post, v);
  }

  // ------------------------------------------------------------------ create

  /** `my_collections` on POST: validate the form, refuse at the cap, else
      append a bookmark whose owner is the requester and whose id and time
      the store supplies. */
  function AddSpec(bs: seq<Bookmark>, user: UserId, input: BookmarkInput, id: BookmarkId, now: nat)
    : (r: Result<seq<Bookmark>, StoreError>)
    ensures ValidateBookmark(input).Failure? ==> r == Failure(Invalid(ValidateBookmark(input).error))
    ensures r == Failure(CapExceeded) <==> ValidateBookmark(input).Success? && CountOwned(bs, user) >= MaxBookmarksPerUser
    ensures r.Failure? ==> r.error != NotFound
  {
    match ValidateBookmark(input)
    case Failure(errors) => Failure(Invalid(errors))
    case Success(data) =>
      if CountOwned(bs, user) >= MaxBookmarksPerUser then Failure(CapExceeded)
      else Success(bs + [Bookmark(id, user, data.title, data.url, now)])
  }

  /** At the cap nothing is added. Below it exactly one bookmark is appended,
      owned by the requester and carrying the cleaned title and url, so the
      requester's count grows by one and never passes the cap, and nobody
      else's bookmarks change. */
  lemma AddRespectsCap(bs: seq<Bookmark>, user: UserId, input: BookmarkInput, id: BookmarkId, now: nat)
    ensures var r := AddSpec(bs, user, input, id, now);
            r.Success? <==> ValidateBookmark(input).Success? && CountOwned(bs, user) < MaxBookmarksPerUser
    ensures var r := AddSpec(bs, user, input, id, now);
            r.Success? ==>
              && |r.value| == |bs| + 1 && r.value[..|bs|] == bs
              && r.value[|bs|] == Bookmark(id, user, Strip(input.title), Strip(input.url), now)
              && CountOwned(r.value, user) == CountOwned(bs, user) + 1 <= MaxBookmarksPerUser
              && forall v :: v != user ==> OwnedBy(r.value, v) == OwnedBy(bs, v)
  {
    var r := AddSpec(bs, user, input, id, now);
    if r.Success? {
      var b := r.value[|bs|];
      assert r.value == bs + [b];
      forall v ensures OwnedBy(r.value, v) == OwnedBy(bs, v) + OwnedBy([b], v) {
        OwnedByConcat(bs, [b], v);
      }
      assert OwnedBy([b], user) == [b];
    }
  }

  // -------------------------------------------------------------------- edit

  /** `edit_bookmark` on POST: the owner-scoped lookup, then the form; only
      title and url of the found bookmark are replaced. */
  function EditSpec(bs: seq<Bookmark>, user: UserId, id: BookmarkId, input: BookmarkInput)
    : (r: Result<seq<Bookmark>, StoreError>)
    ensures FindOwned(bs, user, id).Some? && ValidateBookmark(input).Failure? ==>
              r == Failure(Invalid(ValidateBookmark(input).error))
    ensures r.Failure? ==> r.error != CapExceeded
    ensures r.Success? ==>
              && |r.value| == |bs|
              && forall j :: 0 <= j < |bs| ==>
                   r.value[j].id == bs[j].id && r.value[j].owner == bs[j].owner && r.value[j].addedTime == bs[j].addedTime
  {
    match FindOwned(bs, user, id)
    case None => Failure(NotFound)
    case Some(i) =>
      match ValidateBookmark(input)
      case Failure(errors) => Failure(Invalid(errors))
      case Success(data) => Success(bs[i := bs[i].(title := data.title, url := data.url)])
  }

  /** Not-found exactly when no bookmark has that id and that owner, whether
      the id is unused or another user's. On success the list keeps its
      length, every other position is untouched, and the target keeps its id,
      owner and `added_time` while taking the cleaned title and url. */
  lemma EditTouchesOnlyTarget(bs: seq<Bookmark>, user: UserId, id: BookmarkId, input: BookmarkInput)
    ensures EditSpec(bs, user, id, input) == Failure(NotFound) <==>
              forall i :: 0 <= i < |bs| ==> !(bs[i].id == id && bs[i].owner == user)
    ensures var r := EditSpec(bs, user, id, input);
            r.Success? ==>
              && FindOwned(bs, user, id).Some?
              && var k := FindOwned(bs, user, id).value;
              && |r.value| == |bs|
              && (forall j :: 0 <= j < |bs| && j != k ==> r.value[j] == bs[j])
              && r.value[k].id == id && r.value[k].owner == user
              && r.value[k].addedTime == bs[k].addedTime
              && r.value[k].title == Strip(input.title) && r.value[k].url == Strip(input.url)
  {
  }

  /** Replacing one bookmark by another with the same owner changes no
      user's count and no other user's bookmarks. */
  lemma ReplaceKeepsOwnership(bs: seq<Bookmark>, k: nat, x: Bookmark, v: UserId)
    requires k < |bs| && x.owner == bs[k].owner
    ensures CountOwned(bs[k := x], v) == CountOwned(bs, v)
    ensures v != x.owner ==> OwnedBy(bs[k := x], v) == OwnedBy(bs, v)
  {
    var pre, post := bs[..k], bs[k + 1..];
    assert bs == pre + [bs[k]] + post;
    assert bs[k := x] == pre + [x] + post;
    OwnedBySplit(pre, bs[k], post, v);
    OwnedBySplit(pre, x, post, v);
    OwnedBySingleton(bs[k], v);
    OwnedBySingleton(x, v);
  }

  /** An edit changes no user's bookmark count and leaves other users'
      bookmarks exactly as they were. */
  lemma EditKeepsOwnership(bs: seq<Bookmark>, user: UserId, id: BookmarkId, input: BookmarkInput)
    ensures var r := EditSpec(bs, user, id, input);
            r.Success? ==>
              && (forall v :: CountOwned(r.value, v) == CountOwned(bs, v))
              && (forall v :: v != user ==> OwnedBy(r.value, v) == OwnedBy(bs, v))
  {
    var r := EditSpec(bs, user, id, input);
    if r.Success? {
      var k := FindOwned(bs, user, id).value;
      var x := r.value[k];
      assert r.value == bs[k := x];
      forall v
        ensures CountOwned(r.value, v) == CountOwned(bs, v)
        ensures v != user ==> OwnedBy(r.value, v) == OwnedBy(bs, v)
      {
        ReplaceKeepsOwnership(bs, k, x, v);
      }
    }
  }

  // ------------------------------------------------------------------ delete

  /** `delete_bookmark` on POST: the owner-scoped lookup, then removal. */
  function DeleteSpec(bs: seq<Bookmark>, user: UserId, id: BookmarkId): (r: Result<seq<Bookmark>, StoreError>)
    ensures r.Failure? ==> r.error == NotFound
    ensures r.Success? ==> |r.value| + 1 == |bs| && forall b :: b in r.value ==> b in bs
  {
    match FindOwned(bs, user, id)
    case None => Failure(NotFound)
    case Some(i) => Success(bs[..i] + bs[i + 1..])
  }

  /** Removing position `k` removes one bookmark of its owner and nobody
      else's. */
  lemma RemoveAtOwnership(bs: seq<Bookmark>, k: nat, v: UserId)
    requires k < |bs|
    ensures CountOwned(bs[..k] + bs[k + 1..], v) == CountOwned(bs, v) - (if v == bs[k].owner then 1 else 0)
    ensures v != bs[k].owner ==> OwnedBy(bs[..k] + bs[k + 1..], v) == OwnedBy(bs, v)
  {
    var pre, post := bs[..k], bs[k + 1..];
    assert bs == pre + [bs[k]] + post;
    DropOneOwnership(pre, bs[k], post, v);
  }

  /** Dropping `x` from between `pre` and `post` takes one bookmark from its
      owner and nothing from anyone else. */
  lemma DropOneOwnership(pre: seq<Bookmark>, x: Bookmark, post: seq<Bookmark>, v: UserId)
    ensures |OwnedBy(pre + [x] + post, v)| == |OwnedBy(pre + post, v)| + (if v == x.owner then 1 else 0)
    ensures v != x.owner ==> OwnedBy(pre + post, v) == OwnedBy(pre + [x] + post, v)
  {
    OwnedBySplit(pre, x, post, v);
    OwnedBySingleton(x, v);
    var a, b, d := OwnedBy(pre, v), OwnedBy([x], v), OwnedBy(post, v);
    assert |a + b + d| == |a| + |b| + |d|;
  }

  /** Not-found exactly when no bookmark has that id and that owner. On
      success exactly the target leaves: one fewer bookmark for the
      requester, other users' bookmarks unchanged, and, ids being distinct,
      none with that id left. */
  lemma DeleteRemovesTarget(bs: seq<Bookmark>, user: UserId, id: BookmarkId)
    ensures DeleteSpec(bs, user, id) == Failure(NotFound) <==>
              forall i :: 0 <= i < |bs| ==> !(bs[i].id == id && bs[i].owner == user)
    ensures var r := DeleteSpec(bs, user, id);
            r.Success? ==>
              && FindOwned(bs, user, id).Some?
              && var k := FindOwned(bs, user, id).value;
              && multiset(r.value) == multiset(bs) - multiset{bs[k]}
              && CountOwned(r.value, user) == CountOwned(bs, user) - 1
              && (forall v :: v != user ==> OwnedBy(r.value, v) == OwnedBy(bs, v))
              && (Distinct(bs, BookmarkKey) ==>
                    Distinct(r.value, BookmarkKey) && forall b :: b in r.value ==> b.id != id)
  {
    var r := DeleteSpec(bs, user, id);
    if r.Success? {
      var k := FindOwned(bs, user, id).value;
      assert r.value == bs[..k] + bs[k + 1..];
      assert bs == bs[..k] + [bs[k]] + bs[k + 1..];
      assert multiset(bs) == multiset(bs[..k]) + multiset{bs[k]} + multiset(bs[k + 1..]);
      forall v
        ensures CountOwned(r.value, v) == CountOwned(bs, v) - (if v == user then 1 else 0)
        ensures v != user ==> OwnedBy(r.value, v) == OwnedBy(bs, v)
      {
        RemoveAtOwnership(bs, k, v);
      }
      if Distinct(bs, BookmarkKey) {
        DistinctRemoveAt(bs, BookmarkKey, k);
      }
    }
  }

  // ----------------------------------------------------------------- cascade

  /** `on_delete=CASCADE` on `Bookmark.user`: the bookmarks that survive
      removing user `uid`. */
  function Cascade(bs: seq<Bookmark>, uid: UserId): (r: seq<Bookmark>)
    ensures forall b :: b in r <==> b in bs && b.owner != uid
  {
    Filter(bs, (b: Bookmark) => b.owner != uid)
  }

  /** Removing a user removes all of that user's bookmarks and nobody else's. */
  lemma {:induction false} CascadeRemovesOwned(bs: seq<Bookmark>, uid: UserId, v: UserId)
    ensures OwnedBy(Cascade(bs, uid), v) == if v == uid then [] else OwnedBy(bs, v)
  {
    if bs != [] {
      var x, rest := bs[0], bs[1..];
      CascadeRemovesOwned(rest, uid, v);
      assert bs == [x] + rest;
      var head := if x.owner != uid then [x] else [];
      assert Cascade(bs, uid) == head + Cascade(rest, uid);
      OwnedByConcat(head, Cascade(rest, uid), v);
      OwnedByConcat([x], rest, v);
      OwnedBySingleton(x, v);
      assert OwnedBy(head, v) == if x.owner != uid then OwnedBy([x], v) else [];
    }
  }

  // -------------------------------------------------------------- invariants

  function IdsOf(users: seq<User>): set<UserId>
  {
    set u | u in users :: u.id
  }

  function EmailsOf(users: seq<User>): set<string>
  {
    set u | u in users :: u.email
  }

  /** Distinct ids and e-mails, every id below the next one to hand out. */
  ghost predicate UsersWellFormed(users: seq<User>, nextUserId: nat)
  {
    && Distinct(users, UserKey) && Distinct(users, EmailKey)
    && forall u :: u in users ==> u.id < nextUserId
  }

  /** Distinct ids below the next one, distinct timestamps before the clock, every
      owner an existing user, every bookmark within its field bounds. */
  ghost predicate BookmarksWellFormed(bs: seq<Bookmark>, nextBookmarkId: nat, clock: nat, owners: set<UserId>)
  {
    && Distinct(bs, BookmarkKey)
    && Distinct(bs, TimeKey)
    && forall b :: b in bs ==>
         b.id < nextBookmarkId && b.addedTime < clock && b.owner in owners && ValidBookmark(b)
  }

  /** No user owns more than five bookmarks. */
  ghost predicate WithinCap(bs: seq<Bookmark>)
  {
    forall v :: CountOwned(bs, v) <= MaxBookmarksPerUser
  }

  /** Every message stamped before the clock and within its field bounds. */
  ghost predicate MessagesWellFormed(ms: seq<ContactMessage>, clock: nat)
  {
    forall m :: m in ms ==> m.createdAt < clock && ValidContactMessage(m)
  }

  /** Every stored bookmark keeps the column bounds: a non-empty title of at
      most 255 characters and a valid url of at most 200. */
  lemma StoredBookmarksWithinBounds(bs: seq<Bookmark>, nextBookmarkId: nat, clock: nat, owners: set<UserId>)
    requires BookmarksWellFormed(bs, nextBookmarkId, clock, owners)
    ensures forall b :: b in bs ==>
              && 0 < |b.title| <= TitleMaxLength
              && 0 < |b.url| <= UrlMaxLength && IsValidUrl(b.url)
              && b.owner in owners
  {
  }

  /** No two stored bookmarks share an `added_time`, so ordering by it is
      total. */
  lemma StoredTimesDistinct(bs: seq<Bookmark>, nextBookmarkId: nat, clock: nat, owners: set<UserId>)
    requires BookmarksWellFormed(bs, nextBookmarkId, clock, owners)
    ensures forall i, j :: 0 <= i < j < |bs| ==> bs[i].addedTime != bs[j].addedTime
  {
    forall i, j | 0 <= i < j < |bs| ensures bs[i].addedTime != bs[j].addedTime {
      assert TimeKey(bs[i]) != TimeKey(bs[j]);
    }
  }

  /** Every stored message keeps the column bounds. */
  lemma StoredMessagesWithinBounds(ms: seq<ContactMessage>, clock: nat)
    requires MessagesWellFormed(ms, clock)
    ensures forall m :: m in ms ==>
              && 0 < |m.name| <= NameMaxLength
              && 0 < |m.email| <= EmailMaxLength && IsValidEmail(m.email)
              && m.createdAt < clock
  {
  }

  /** A signup appends a user with a fresh id and an unused e-mail. */
  lemma SignupKeepsUsers(users: seq<User>, nextUserId: nat, user: User)
    requires UsersWellFormed(users, nextUserId)
    requires user.id == nextUserId && user.email !in EmailsOf(users)
    ensures UsersWellFormed(users + [user], nextUserId + 1)
    ensures IdsOf(users + [user]) == IdsOf(users) + {user.id}
  {
    assert forall u :: u in users ==> u.email in EmailsOf(users);
    DistinctSnoc(users, user, UserKey);
    DistinctSnoc(users, user, EmailKey);
  }

  /** Advancing the counters and adding users never breaks the bookmark
      invariant. */
  lemma BookmarksWellFormedMono(bs: seq<Bookmark>, nextBookmarkId: nat, clock: nat, owners: set<UserId>,
                                nextBookmarkId': nat, clock': nat, owners': set<UserId>)
    requires BookmarksWellFormed(bs, nextBookmarkId, clock, owners)
    requires nextBookmarkId <= nextBookmarkId' && clock <= clock' && owners <= owners'
    ensures BookmarksWellFormed(bs, nextBookmarkId', clock', owners')
  {
  }

  /** A create appends a valid bookmark with the next id, the current time
      and an existing owner; the cap is kept as `AddRespectsCap` shows. */
  lemma AddKeepsBookmarks(bs: seq<Bookmark>, nextBookmarkId: nat, clock: nat, owners: set<UserId>, b: Bookmark)
    requires BookmarksWellFormed(bs, nextBookmarkId, clock, owners)
    requires b.id == nextBookmarkId && b.addedTime == clock && b.owner in owners && ValidBookmark(b)
    ensures BookmarksWellFormed(bs + [b], nextBookmarkId + 1, clock + 1, owners)
  {
    DistinctSnoc(bs, b, BookmarkKey);
    DistinctSnoc(bs, b, TimeKey);
  }

  /** An edit replaces one bookmark by a valid one with the same id, owner and
      time. */
  lemma ReplaceKeepsBookmarks(bs: seq<Bookmark>, nextBookmarkId: nat, clock: nat, owners: set<UserId>, k: nat, x: Bookmark)
    requires BookmarksWellFormed(bs, nextBookmarkId, clock, owners)
    requires k < |bs| && x.id == bs[k].id && x.owner == bs[k].owner && x.addedTime == bs[k].addedTime
    requires ValidBookmark(x)
    ensures BookmarksWellFormed(bs[k := x], nextBookmarkId, clock, owners)
    ensures WithinCap(bs) ==> WithinCap(bs[k := x])
  {
    var r := bs[k := x];
    forall i, j | 0 <= i < j < |r|
      ensures BookmarkKey(r[i]) != BookmarkKey(r[j]) && TimeKey(r[i]) != TimeKey(r[j])
    {
      assert r[i].id == bs[i].id && r[j].id == bs[j].id;
      assert r[i].addedTime == bs[i].addedTime && r[j].addedTime == bs[j].addedTime;
    }
    forall b | b in r ensures b.id < nextBookmarkId && b.addedTime < clock && b.owner in owners && ValidBookmark(b) {
      var i :| 0 <= i < |r| && r[i] == b;
      if i != k { assert b == bs[i]; }
    }
    if WithinCap(bs) {
      forall v ensures CountOwned(r, v) <= MaxBookmarksPerUser {
        ReplaceKeepsOwnership(bs, k, x, v);
      }
    }
  }

  /** A delete removes one position. */
  lemma RemoveKeepsBookmarks(bs: seq<Bookmark>, nextBookmarkId: nat, clock: nat, owners: set<UserId>, k: nat)
    requires BookmarksWellFormed(bs, nextBookmarkId, clock, owners) && k < |bs|
    ensures BookmarksWellFormed(bs[..k] + bs[k + 1..], nextBookmarkId, clock, owners)
    ensures WithinCap(bs) ==> WithinCap(bs[..k] + bs[k + 1..])
  {
    DistinctRemoveAt(bs, BookmarkKey, k);
    DistinctRemoveAt(bs, TimeKey, k);
    assert forall b :: b in bs[..k] + bs[k + 1..] ==> b in bs;
    var r := bs[..k] + bs[k + 1..];
    if WithinCap(bs) {
      forall v ensures CountOwned(r, v) <= MaxBookmarksPerUser {
        RemoveAtOwnership(bs, k, v);
      }
    }
  }

  /** The users left after removing user `uid`. */
  function RemainingUsers(users: seq<User>, uid: UserId): (r: seq<User>)
    ensures forall u :: u in r <==> u in users && u.id != uid
  {
    Filter(users, (u: User) => u.id != uid)
  }

  /** Removing a user keeps the user table well formed. */
  lemma RemoveKeepsUsers(users: seq<User>, nextUserId: nat, uid: UserId)
    requires UsersWellFormed(users, nextUserId)
    ensures UsersWellFormed(RemainingUsers(users, uid), nextUserId)
    ensures IdsOf(RemainingUsers(users, uid)) == IdsOf(users) - {uid}
  {
    DistinctFilter(users, UserKey, (u: User) => u.id != uid);
    DistinctFilter(users, EmailKey, (u: User) => u.id != uid);
  }

  /** The cascade leaves every remaining bookmark owned by a remaining user. */
  lemma CascadeKeepsBookmarks(bs: seq<Bookmark>, nextBookmarkId: nat, clock: nat, owners: set<UserId>, uid: UserId)
    requires BookmarksWellFormed(bs, nextBookmarkId, clock, owners)
    ensures BookmarksWellFormed(Cascade(bs, uid), nextBookmarkId, clock, owners - {uid})
  {
    DistinctFilter(bs, BookmarkKey, (b: Bookmark) => b.owner != uid);
    DistinctFilter(bs, TimeKey, (b: Bookmark) => b.owner != uid);
  }

  /** The cascade leaves no user above the cap. */
  lemma CascadeKeepsCap(bs: seq<Bookmark>, uid: UserId)
    requires WithinCap(bs)
    ensures WithinCap(Cascade(bs, uid))
  {
    var r := Cascade(bs, uid);
    forall v ensures CountOwned(r, v) <= MaxBookmarksPerUser {
      CascadeRemovesOwned(bs, uid, v);
      assert CountOwned(bs, v) <= MaxBookmarksPerUser;
      assert CountOwned(r, v) <= CountOwned(bs, v);
    }
  }

  /** A contact submission appends a valid message stamped with the clock. */
  lemma AppendKeepsMessages(ms: seq<ContactMessage>, clock: nat, m: ContactMessage)
    requires MessagesWellFormed(ms, clock)
    requires m.createdAt == clock && ValidContactMessage(m)
    ensures MessagesWellFormed(ms + [m], clock + 1)
  {
  }

  /** Appending a bookmark whose owner is below the cap keeps everyone within
      it. */
  lemma AppendKeepsCap(bs: seq<Bookmark>, b: Bookmark)
    requires WithinCap(bs) && CountOwned(bs, b.owner) < MaxBookmarksPerUser
    ensures WithinCap(bs + [b])
  {
    var r := bs + [b];
    forall v ensures CountOwned(r, v) <= MaxBookmarksPerUser {
      OwnedByConcat(bs, [b], v);
      OwnedBySingleton(b, v);
      assert CountOwned(bs, v) <= MaxBookmarksPerUser;
    }
  }

  /** A bookmark form that validates yields a bookmark within the field
      bounds, whatever its id, owner and time. */
  lemma ValidatedBookmarkIsValid(input: BookmarkInput, id: BookmarkId, user: UserId, now: nat)
    requires ValidateBookmark(input).Success?
    ensures ValidBookmark(Bookmark(id, user, Strip(input.title), Strip(input.url), now))
  {
  }

  /** A contact form that validates yields a message within the field bounds,
      whatever its timestamp. */
  lemma ValidatedContactIsValid(input: ContactInput, now: nat)
    requires ValidateContact(input).Success?
    ensures var v := ValidateContact(input).value;
            ValidContactMessage(ContactMessage(v.name, v.email, v.message, now))
  {
  }

  // ---------------------------------------------------------------- database

  /** The rows of the three tables and the counters the database keeps:
      the next primary keys and the clock that stamps `auto_now_add` fields. */
  class Database {
    var users: seq<User>
    var bookmarks: seq<Bookmark>
    var messages: seq<ContactMessage>
    var nextUserId: nat
    var nextBookmarkId: nat
    var clock: nat

    ghost predicate Valid()
      reads this
    {
      && UsersWellFormed(users, nextUserId)
      && BookmarksWellFormed(bookmarks, nextBookmarkId, clock, IdsOf(users))
      && WithinCap(bookmarks)
      && MessagesWellFormed(messages, clock)
    }

    constructor ()
      ensures Valid()
      ensures users == [] && bookmarks == [] && messages == []
      ensures nextUserId == 0 && nextBookmarkId == 0 && clock == 0
    {
      users, bookmarks, messages := [], [], [];
      nextUserId, nextBookmarkId, clock := 0, 0, 0;
    }

    /** `signup_view` on POST: a valid form stores exactly one user whose
        username is the cleaned e-mail and whose password is kept only as its
        hash; an invalid form stores nothing. */
    method SignUp(input: SignupInput, salt: nat) returns (r: Result<UserId, set<FormError>>)
      requires Valid()
      modifies this
      ensures Valid()
      ensures r.Success? <==> SignupAcceptable(input, EmailsOf(old(users)))
      ensures r.Success? ==>
                && r.value == old(nextUserId)
                && var email := Strip(input.email);
                   users == old(users) + [User(r.value, email, email, MakePassword(Strip(input.password), salt))]
      ensures r.Success? ==> CheckPassword(Strip(input.password), users[|users| - 1].password)
      ensures r.Failure? ==> r.error == SignupErrors(input, EmailsOf(old(users))) && users == old(users)
      ensures nextUserId == if r.Success? then old(nextUserId) + 1 else old(nextUserId)
      ensures bookmarks == old(bookmarks) && messages == old(messages)
      ensures nextBookmarkId == old(nextBookmarkId) && clock == old(clock)
    {
      var v := ValidateSignup(input, EmailsOf(users));
      if v.Failure? {
        r := Failure(v.error);
      } else {
        var user := User(nextUserId, v.value.email, v.value.email, MakePassword(v.value.password, salt));
        SaveUser(user);
        r := Success(user.id);
      }
    }

    /** `User.save()` for a new user: append the row under the next id. */
    method SaveUser(user: User)
      requires Valid() && user.id == nextUserId && user.email !in EmailsOf(users)
      modifies this
      ensures Valid()
      ensures users == old(users) + [user] && nextUserId == old(nextUserId) + 1
      ensures bookmarks == old(bookmarks) && messages == old(messages)
      ensures nextBookmarkId == old(nextBookmarkId) && clock == old(clock)
    {
      SignupKeepsUsers(users, nextUserId, user);
      BookmarksWellFormedMono(bookmarks, nextBookmarkId, clock, IdsOf(users),
                              nextBookmarkId, clock, IdsOf(users + [user]));
      users := users + [user];
      nextUserId := nextUserId + 1;
    }

    /** `my_collections` on POST for the requesting user. */
    method AddBookmark(user: UserId, input: BookmarkInput) returns (r: Result<BookmarkId, StoreError>)
      requires Valid() && user in IdsOf(users)
      modifies this
      ensures Valid()
      ensures var spec := AddSpec(old(bookmarks), user, input, old(nextBookmarkId), old(clock));
              && (r.Success? <==> spec.Success?)
              && (spec.Success? ==>
                    && bookmarks == spec.value && r.value == old(nextBookmarkId)
                    && nextBookmarkId == old(nextBookmarkId) + 1 && clock == old(clock) + 1)
              && (spec.Failure? ==>
                    && bookmarks == old(bookmarks) && r.error == spec.error
                    && nextBookmarkId == old(nextBookmarkId) && clock == old(clock))
      ensures users == old(users) && messages == old(messages) && nextUserId == old(nextUserId)
    {
      var spec := AddSpec(bookmarks, user, input, nextBookmarkId, clock);
      AddRespectsCap(bookmarks, user, input, nextBookmarkId, clock);
      if spec.Failure? {
        r := Failure(spec.error);
      } else {
        var b := spec.value[|bookmarks|];
        assert spec.value == bookmarks + [b];
        ValidatedBookmarkIsValid(input, nextBookmarkId, user, clock);
        r := Success(nextBookmarkId);
        SaveBookmark(b);
      }
    }

    /** `Bookmark.save()` for a new bookmark below its owner's cap: append the
        row under the next id, stamped with the clock. */
    method SaveBookmark(b: Bookmark)
      requires Valid() && b.id == nextBookmarkId && b.addedTime == clock && b.owner in IdsOf(users)
      requires ValidBookmark(b) && CountOwned(bookmarks, b.owner) < MaxBookmarksPerUser
      modifies this
      ensures Valid()
      ensures bookmarks == old(bookmarks) + [b]
      ensures nextBookmarkId == old(nextBookmarkId) + 1 && clock == old(clock) + 1
      ensures users == old(users) && messages == old(messages) && nextUserId == old(nextUserId)
    {
      AddKeepsBookmarks(bookmarks, nextBookmarkId, clock, IdsOf(users), b);
      AppendKeepsCap(bookmarks, b);
      assert MessagesWellFormed(messages, clock + 1);
      bookmarks := bookmarks + [b];
      nextBookmarkId := nextBookmarkId + 1;
      clock := clock + 1;
    }

    /** `edit_bookmark`: on GET the owner-scoped lookup alone; on POST the
        edit, which changes nothing when the lookup or the form fails. */
    method EditBookmark(user: UserId, id: BookmarkId, verb: Verb, input: BookmarkInput)
      returns (r: Result<Bookmark, StoreError>)
      requires Valid()
      modifies this
      ensures Valid()
      ensures verb == Get ==> bookmarks == old(bookmarks) && r == Lookup(old(bookmarks), user, id)
      ensures verb == Post ==>
                var spec := EditSpec(old(bookmarks), user, id, input);
                && bookmarks == (if spec.Success? then spec.value else old(bookmarks))
                && (spec.Failure? ==> r == Failure(spec.error))
                && (spec.Success? ==> r == Lookup(bookmarks, user, id))
      ensures users == old(users) && messages == old(messages)
      ensures nextUserId == old(nextUserId) && nextBookmarkId == old(nextBookmarkId) && clock == old(clock)
    {
      if verb == Get {
        r := Lookup(bookmarks, user, id);
      } else {
        var spec := EditSpec(bookmarks, user, id, input);
        if spec.Failure? {
          r := Failure(spec.error);
        } else {
          EditTouchesOnlyTarget(bookmarks, user, id, input);
          var k := FindOwned(bookmarks, user, id).value;
          var x := spec.value[k];
          assert spec.value == bookmarks[k := x];
          ReplaceKeepsBookmarks(bookmarks, nextBookmarkId, clock, IdsOf(users), k, x);
          bookmarks := spec.value;
          r := Lookup(bookmarks, user, id);
        }
      }
    }

    /** `delete_bookmark`: on GET (the confirmation page) the owner-scoped
        lookup alone; on the confirming POST the removal. */
    method DeleteBookmark(user: UserId, id: BookmarkId, verb: Verb) returns (r: Result<Bookmark, StoreError>)
      requires Valid()
      modifies this
      ensures Valid()
      ensures r == Lookup(old(bookmarks), user, id)
      ensures verb == Get ==> bookmarks == old(bookmarks)
      ensures verb == Post ==>
                var spec := DeleteSpec(old(bookmarks), user, id);
                bookmarks == if spec.Success? then spec.value else old(bookmarks)
      ensures users == old(users) && messages == old(messages)
      ensures nextUserId == old(nextUserId) && nextBookmarkId == old(nextBookmarkId) && clock == old(clock)
    {
      r := Lookup(bookmarks, user, id);
      if verb == Post {
        var spec := DeleteSpec(bookmarks, user, id);
        if spec.Success? {
          var k := FindOwned(bookmarks, user, id).value;
          assert spec.value == bookmarks[..k] + bookmarks[k + 1..];
          RemoveKeepsBookmarks(bookmarks, nextBookmarkId, clock, IdsOf(users), k);
          bookmarks := spec.value;
        }
      }
    }

    /** `contact_us` on POST: a valid form stores exactly one message stamped
        with the clock; an invalid one stores nothing. */
    method SubmitContact(input: ContactInput) returns (r: Result<ContactMessage, set<FormError>>)
      requires Valid()
      modifies this
      ensures Valid()
      ensures r.Success? <==> ValidateContact(input).Success?
      ensures r.Success? ==>
                && r.value == ContactMessage(Strip(input.name), Strip(input.email), Strip(input.message), old(clock))
                && messages == old(messages) + [r.value] && clock == old(clock) + 1
      ensures r.Failure? ==> r.error == ContactErrors(input) && messages == old(messages) && clock == old(clock)
      ensures users == old(users) && bookmarks == old(bookmarks)
      ensures nextUserId == old(nextUserId) && nextBookmarkId == old(nextBookmarkId)
    {
      var v := ValidateContact(input);
      if v.Failure? {
        r := Failure(v.error);
      } else {
        var m := ContactMessage(v.value.name, v.value.email, v.value.message, clock);
        ValidatedContactIsValid(input, clock);
        SaveMessage(m);
        r := Success(m);
      }
    }

    /** `ContactMessage.save()`: append the row and advance the clock. */
    method SaveMessage(m: ContactMessage)
      requires Valid() && m.createdAt == clock && ValidContactMessage(m)
      modifies this
      ensures Valid()
      ensures messages == old(messages) + [m] && clock == old(clock) + 1
      ensures users == old(users) && bookmarks == old(bookmarks)
      ensures nextUserId == old(nextUserId) && nextBookmarkId == old(nextBookmarkId)
    {
      AppendKeepsMessages(messages, clock, m);
      BookmarksWellFormedMono(bookmarks, nextBookmarkId, clock, IdsOf(users),
                              nextBookmarkId, clock + 1, IdsOf(users));
      messages := messages + [m];
      clock := clock + 1;
    }

    /** Deleting a user: the user row goes and, by the cascade, every bookmark
        it owned; other users and their bookmarks stay. */
    method RemoveUser(uid: UserId)
      requires Valid()
      modifies this
      ensures Valid()
      ensures users == RemainingUsers(old(users), uid)
      ensures bookmarks == Cascade(old(bookmarks), uid)
      ensures OwnedBy(bookmarks, uid) == []
      ensures forall v :: v != uid ==> OwnedBy(bookmarks, v) == OwnedBy(old(bookmarks), v)
      ensures messages == old(messages)
      ensures nextUserId == old(nextUserId) && nextBookmarkId == old(nextBookmarkId) && clock == old(clock)
    {
      RemoveKeepsUsers(users, nextUserId, uid);
      CascadeKeepsBookmarks(bookmarks, nextBookmarkId, clock, IdsOf(users), uid);
      CascadeKeepsCap(bookmarks, uid);
      forall v ensures OwnedBy(Cascade(bookmarks, uid), v) == if v == uid then [] else OwnedBy(bookmarks, v) {
        CascadeRemovesOwned(bookmarks, uid, v);
      }
      users := RemainingUsers(users, uid);
      bookmarks := Cascade(bookmarks, uid);
    }
  }
}
