# Bookmark site: a verified model of the store, the listing and the forms

This project models the behavioural core of a small Django bookmarking site in
Dafny. The core has three parts:

- **The bookmark store.** A signed-up user keeps at most five bookmarks. Only
  the owner can edit or delete a bookmark, and a bookmark of another user
  looks exactly like a missing one. Deleting a user deletes that user's
  bookmarks.
- **The listing.** The `home` and `bookmark_list` views run the same
  pipeline: the user's bookmarks, newest first, an optional case-insensitive
  search on title or url, then pages of two.
- **The forms.** Signup checks for a duplicate e-mail, a password of at least
  eight characters and a matching confirmation. The effective bookmark and
  contact forms check only the fields they expose, within the column bounds
  of the models.

Layout, one module per file:

| module | file | what it holds |
|---|---|---|
| `Wrappers` | wrappers.dfy | `Option` and `Result` |
| `Seqs` | seqs.dfy | order-preserving `Filter`, `Concat`, distinct keys |
| `Text` | text.dfy | whitespace stripping as Django's `CharField` does it, case folding, substring search |
| `Collaborators` | collaborators.dfy | stand-ins for Django's URL and e-mail validators and for `make_password` |
| `Models` | models.dfy | `User`, `Bookmark`, `ContactMessage` and their field bounds |
| `Forms` | forms.dfy | field cleaning, `SignupForm`, the effective `BookmarkForm` and `ContactForm` |
| `Paginator` | paginator.dfy | `Paginator(list, 2).get_page(n)` |
| `Query` | query.dfy | the listing pipeline of `home` / `bookmark_list` |
| `Store` | store.dfy | the store operations as functions of the old bookmark list, their lemmas, and the `Database` class whose methods apply them in place |

The pure parts (forms, paginator, listing, models) are datatypes, functions
and lemmas. The views that change the database (`signup_view`,
`my_collections`, `edit_bookmark`, `delete_bookmark`, `contact_us`) are
methods of `Store.Database`. That class holds the three tables as `seq`
fields, plus the next primary keys and a logical clock. Each method keeps
`Valid()`, which says:

- user ids and e-mails are distinct;
- bookmark ids are distinct;
- every bookmark is owned by an existing user and is within its field bounds;
- no user owns more than five bookmarks;
- every timestamp lies before the clock.

Each bookmark method is tied by its `ensures` to a function of the old list
(`AddSpec`, `EditSpec`, `DeleteSpec`, `Cascade`), and the promised properties
are proved about those functions.

Details the model takes from the code as written, where a plainer reading
of the site would differ:

- A page number below 1 goes to the **last** page, not the first. Django's
  `get_page` treats any `EmptyPage` that way. Only a non-integer goes to
  page 1.
- The mismatch error is added only when both password fields cleaned to
  non-empty values (forms.py line 27). A password that already failed its
  length check therefore draws no mismatch error.
- The signup e-mail may be blank, because Django's `User.email` is declared
  with `blank=True`. A blank e-mail is then duplicate-checked like any other
  value.
- The comment on views.py line 62 says six per page. The code passes 2, and
  the model uses 2.

## Model

| member | source | states |
|---|---|---|
| Forms.Codes | bookmark_site/user_login/forms.py:9-10 | a cleaned field draws no error exactly when it is accepted: a required field non-empty, within its length bounds, free of U+0000 and syntactically valid; field cleaning never raises the duplicate or mismatch codes |
| Forms.ValidateSignup | bookmark_site/user_login/forms.py:8-28 | the form validates exactly when the e-mail is acceptable and unused, the password is 8 to 128 characters (the form's minimum and the `User.password` column's bound) and the confirmation equals it; on success the cleaned e-mail is unused and the password is within those bounds; a rejection always carries at least one error |
| Forms.PasswordColumnErrors | bookmark_site/user_login/forms.py:12-14 | the model validation after `clean` adds at most the column's 128-character error on the password, and adds it exactly when the password cleaned and is longer than 128 characters |
| Forms.LongPasswordRejected | bookmark_site/user_login/forms.py:12-14 | a stripped password over 128 characters is refused, with the column's length error when it holds no U+0000 |
| Forms.ShortPasswordRejected | bookmark_site/user_login/forms.py:9 | a stripped password of 1 to 7 characters draws the minimum-length error |
| Forms.DuplicateEmailRejected | bookmark_site/user_login/forms.py:16-20 | an e-mail already registered makes the form fail, with the duplicate error whenever the address is otherwise well formed (`clean_email` runs only on a field that cleaned) |
| Forms.EmailErrors | bookmark_site/user_login/forms.py:16-20 | every error is on the e-mail field; there is none exactly when the e-mail cleans and is unregistered; the duplicate error appears exactly when the e-mail cleaned and is registered, so `clean_email` never runs on a value that failed field cleaning |
| Forms.MismatchErrors | bookmark_site/user_login/forms.py:22-28 | at most the one mismatch error on the confirmation field; it appears only when the passwords differ and the password has at least 8 characters, and never when they are equal |
| Forms.MismatchReported | bookmark_site/user_login/forms.py:22-28 | the mismatch error is present if and only if both passwords cleaned, both are non-empty and they differ |
| Forms.ShortPasswordNoMismatch | bookmark_site/user_login/forms.py:24-28 | a password that failed its length check draws no mismatch error, whatever the confirmation |
| Forms.MismatchExample | bookmark_site/user_login/forms.py:27-28 | "longpass1" against "longpass2" is rejected with the mismatch error |
| Forms.ValidateBookmark | bookmark_site/user_login/forms.py:60-63 | the form takes only title and url; it validates exactly when the stripped values meet the bookmark column bounds and carry no U+0000, and then yields the stripped values |
| Forms.ValidateContact | bookmark_site/user_login/forms.py:50-53 | the form takes only name, e-mail and message; it validates exactly when the stripped values meet the contact column bounds and carry no U+0000, and then yields the stripped values |
| Forms.ContactRejectsAtlessEmail | bookmark_site/user_login/models.py:12 | a non-blank contact e-mail without `@` draws the invalid e-mail error and the contact form fails |
| Forms.ContactRejectsMalformedEmail | bookmark_site/user_login/models.py:12 | "not-an-email" draws the invalid e-mail error and the contact form fails |
| Paginator.NumPages | bookmark_site/user_login/views.py:62 | at least one page; the pages of two hold every item, and no page beyond the first is empty |
| Paginator.PageNumber | bookmark_site/user_login/views.py:63-64 | a non-integer request gives page 1, an in-range number itself, a number below 1 or past the end the last page |
| Paginator.GetPage | bookmark_site/user_login/views.py:62-64 | the page served is the one `PageNumber` picks for the request (page 1 for a non-integer, the last page for a number below 1 or past the end), is in range, holds at most two items, and is exactly the slice from (number - 1) * 2 up to the next page's first index (cut at the end of the list), that is, the page of the same number in `AllPages`, the partition `PagesPartition` proves |
| Paginator.PageItems | bookmark_site/user_login/views.py:62-64 | page k holds at most two items, is non-empty when the list is, and is the slice from (k - 1) * 2 up to the next page's first index |
| Paginator.AllPages | bookmark_site/user_login/views.py:62 | there are `NumPages` pages, and for a non-empty list each holds one or two items |
| Paginator.PagesPartition | bookmark_site/user_login/views.py:62 | the pages from first to last, concatenated, give back the whole list |
| Paginator.OutOfRangeExample | bookmark_site/user_login/views.py:63-64 | five items and page 10 give page 3 of 3, holding only the fifth item |
| Query.OrderNewestFirst | bookmark_site/user_login/views.py:55 | the result is sorted by non-increasing `added_time` and is a permutation of the input |
| Query.FilterKeepsOrder | bookmark_site/user_login/views.py:58-59 | filtering a newest-first list leaves it newest first |
| Query.Search | bookmark_site/user_login/views.py:58-59 | an empty query keeps the list unchanged; otherwise a bookmark is kept exactly when its title or url contains the query ignoring case; no bookmark gains occurrences |
| Query.SearchIsUnion | bookmark_site/user_login/views.py:59 | a non-empty search is the union of the title filter and the url filter, each kept bookmark as often as it was stored |
| Query.SearchKeepsMatches | bookmark_site/user_login/views.py:58-59 | a search that every bookmark matches drops nothing |
| Query.Listing | bookmark_site/user_login/views.py:54-59 | the listing never holds more bookmarks than the requester owns, and with an empty query it holds exactly as many |
| Query.ListBookmarks | bookmark_site/user_login/views.py:52-64 | the page has as many pages as the listing needs, its number is the one `PageNumber` picks for the request, and every item on it is in the listing |
| Query.ListingMembers | bookmark_site/user_login/views.py:54-59 | a bookmark is listed exactly when it is stored, owned by the requester and matches the query (or the query is empty) |
| Query.ListingOrdered | bookmark_site/user_login/views.py:55-59 | the listing is newest first |
| Query.PageIsolated | bookmark_site/user_login/views.py:151-161 | every page served is the one `PageNumber` picks for the request among the listing's pages, holds at most two bookmarks, all the requester's, all matching, newest first, and is the page of that number in the partition of the listing |
| Query.ListingPaged | bookmark_site/user_login/views.py:159-161 | the pages of the listing concatenate back to the whole listing |
| Query.SearchExample | bookmark_site/user_login/views.py:156 | "git" finds both a title "GitHub" and a url "https://github.com" |
| Store.FindOwned | bookmark_site/user_login/views.py:75 | the lookup finds a position whose id and owner both match, and finds none exactly when no bookmark has that id and that owner |
| Store.Lookup | bookmark_site/user_login/views.py:91 | the result is not-found exactly when no stored bookmark has that id and the requester as owner; a found bookmark is stored and has that id and owner |
| Store.AddSpec | bookmark_site/user_login/views.py:127-137 | an invalid form fails with the form's own errors, whatever the count; the cap error is returned exactly when the form is valid and the requester already owns five; a create never reports not-found |
| Store.AddRespectsCap | bookmark_site/user_login/views.py:124-137 | the create succeeds exactly when the form validates and the requester owns fewer than five; it then appends exactly one bookmark with the cleaned fields, owned by the requester, whose count rises by one and stays within five; no other user's bookmarks change |
| Store.EditSpec | bookmark_site/user_login/views.py:75-80 | when the bookmark is found and the form is invalid, the form's errors are returned; an edit never reports the cap; on success the list keeps its length and every bookmark its id, owner and `added_time` |
| Store.EditTouchesOnlyTarget | bookmark_site/user_login/views.py:75-80 | not-found exactly when no bookmark has that id and owner; on success only the target changes, keeping its id, owner and `added_time` and taking the cleaned title and url |
| Store.EditKeepsOwnership | bookmark_site/user_login/views.py:78-80 | an edit changes no user's count and no other user's bookmarks |
| Store.DeleteSpec | bookmark_site/user_login/views.py:91-95 | the only failure is not-found; on success exactly one bookmark leaves and no new one appears |
| Store.DeleteRemovesTarget | bookmark_site/user_login/views.py:91-95 | not-found exactly when no bookmark has that id and owner; on success exactly the target leaves, the requester has one fewer, others keep theirs, and no bookmark with that id remains |
| Store.Cascade | bookmark_site/user_login/models.py:5 | a bookmark survives the cascade exactly when it was stored and belongs to another user |
| Store.CascadeRemovesOwned | bookmark_site/user_login/models.py:5 | removing a user removes all that user's bookmarks and leaves every other user's exactly as they were |
| Store.StoredTimesDistinct | bookmark_site/user_login/models.py:8 | no two stored bookmarks share an `added_time` |
| Store.StoredBookmarksWithinBounds | bookmark_site/user_login/models.py:4-8 | every stored bookmark has a title of 1 to 255 characters, a valid url of 1 to 200 characters and an existing owner |
| Store.StoredMessagesWithinBounds | bookmark_site/user_login/models.py:10-14 | every stored message has a name of 1 to 100 characters, a valid e-mail of at most 254 characters and a creation time before the clock |
| Store.SignupKeepsUsers | bookmark_site/user_login/views.py:14-18 | appending a user with the next id and an unused e-mail keeps ids and e-mails distinct |
| Store.AddKeepsBookmarks | bookmark_site/user_login/views.py:133-135 | appending a valid bookmark with the next id, the current time and an existing owner keeps the bookmark table well formed |
| Store.AppendKeepsCap | bookmark_site/user_login/views.py:130-135 | appending a bookmark for an owner below five keeps every user within five |
| Store.ReplaceKeepsBookmarks | bookmark_site/user_login/views.py:78-80 | replacing a bookmark by a valid one with the same id, owner and time keeps the table well formed and within the cap |
| Store.RemoveKeepsBookmarks | bookmark_site/user_login/views.py:93-95 | removing one bookmark keeps the table well formed and within the cap |
| Store.RemainingUsers | bookmark_site/user_login/models.py:5 | the users left are exactly those with another id |
| Store.RemoveKeepsUsers | bookmark_site/user_login/models.py:5 | removing a user keeps ids and e-mails distinct and removes exactly that id |
| Store.CascadeKeepsBookmarks | bookmark_site/user_login/models.py:5 | after the cascade every remaining bookmark is owned by a remaining user |
| Store.CascadeKeepsCap | bookmark_site/user_login/models.py:5 | the cascade leaves every user within five |
| Store.AppendKeepsMessages | bookmark_site/user_login/views.py:114-116 | appending a valid message stamped with the clock keeps the message table well formed |
| Store.ValidatedBookmarkIsValid | bookmark_site/user_login/forms.py:60-63 | a validated bookmark form gives a bookmark within the column bounds |
| Store.ValidatedContactIsValid | bookmark_site/user_login/forms.py:50-53 | a validated contact form gives a message within the column bounds |
| Store.Database.constructor | bookmark_site/user_login/models.py:4-14 | the database starts with no users, bookmarks or messages, both id counters and the clock at zero, and satisfies the invariant |
| Store.Database.SignUp | bookmark_site/user_login/views.py:12-18 | succeeds exactly when the signup form validates against the registered e-mails; then exactly one user is appended under the next id and the id counter advances by one (and stays put on failure), with username and e-mail the cleaned e-mail and a password hash that checks against the cleaned password; otherwise the form's errors are returned and nothing is stored |
| Store.Database.SaveUser | bookmark_site/user_login/views.py:18 | the new user is appended and the invariant kept |
| Store.Database.AddBookmark | bookmark_site/user_login/views.py:124-137 | the bookmark table becomes the result of `AddSpec` on success and is unchanged on failure; ids and clock advance only on success; users and messages untouched |
| Store.Database.SaveBookmark | bookmark_site/user_login/views.py:133-135 | the bookmark is appended under the next id at the current time and the invariant kept |
| Store.Database.EditBookmark | bookmark_site/user_login/views.py:73-86 | GET only looks up; POST applies `EditSpec`, leaving the store unchanged on not-found or an invalid form; the invariant is kept |
| Store.Database.DeleteBookmark | bookmark_site/user_login/views.py:89-99 | both steps report the owner-scoped lookup; only the POST step removes, and only the found bookmark; the invariant is kept |
| Store.Database.SubmitContact | bookmark_site/user_login/views.py:111-121 | a message is stored, stamped with the clock, exactly when the contact form validates; otherwise the form's errors are returned and nothing is stored |
| Store.Database.SaveMessage | bookmark_site/user_login/views.py:116 | the message is appended, the clock advances and the invariant is kept |
| Store.Database.RemoveUser | bookmark_site/user_login/models.py:5 | the user row goes, and with it exactly that user's bookmarks; other users' bookmarks and the messages stay; the invariant is kept |
| Text.StripIdempotent | bookmark_site/user_login/forms.py:9-10 | stripping twice is stripping once |
| Text.StripEmpty | bookmark_site/user_login/forms.py:9-10 | a value strips to empty exactly when it is all whitespace |
| Text.ContainsIff | bookmark_site/user_login/views.py:59 | the substring test holds exactly when the needle occurs at some position |
| Collaborators.MakePassword | bookmark_site/user_login/views.py:16 | the stored hash checks against the raw password it was made from |

## Left out

- Rendering, redirects, templates and the `messages` flash framework are presentation only. The model returns result values instead.
- URL routing (urls.py) is not part of this model.
- Authentication, sessions and `@login_required` are left out. The requesting user is a parameter. `AddBookmark` requires that user to exist, which the login guard ensures in the site.
- `SubmitContact` takes no user: a contact message has no owner. The model treats every submission as coming from a logged-in visitor. The login guard on `contact_us` (views.py line 110) redirects an anonymous POST without storing anything; that refusal is left out with authentication.
- The password hashing algorithm is left out. `MakePassword` is a keyed polynomial digest standing in for `make_password`; the salt is a parameter instead of being drawn at random.
- Django's `URLValidator` and `EmailValidator` are replaced by simpler stand-ins in `Collaborators`. The stand-ins require a scheme and a non-empty rest for urls, and one `@` with a dotted domain for e-mails, with no whitespace in either.
- Forms.ValidateBookmark: the rewrite that `forms.URLField.to_python` applies to a url is left out, and the model yields the url only stripped. Django splits the url and joins it again, which prepends `http://` to a scheme-less url, lower-cases the scheme (so "HTTP://x.com" is stored as "http://x.com") and drops an empty `?` or `#`.
- The database collation's case folding is modelled as ASCII-only lower-casing in `Text.FoldCase`.
- The `int()` parsing of the `page` query string is left out. `Paginator.PageRequest` is the parsed outcome: a number, or not an integer.
- Store.Database.SignUp: of the model validation that `is_valid()` runs on `User`, only the 128-character password column bound is modelled (`Forms.PasswordColumnErrors`). The e-mail normalisation that `User.clean` applies is left out, and the stored e-mail is the stripped raw value.
- Store.Database.SignUp: Django normalises the e-mail (lower-casing its domain) only after `clean_email` (forms.py lines 16-20) has checked the raw value for duplicates. Under a case-sensitive collation, "a@x.com" followed by "a@X.com" therefore stores the same address twice. The model stores the e-mail unnormalised, and `Valid()`'s distinct-e-mail clause is a property of the model only; the site does not keep it. In the other direction, signing up twice with the raw address "a@X.com" stores "a@x.com" the first time, so the second attempt passes `clean_email`; `user.save()` then collides with the unique username "a@X.com" and raises `IntegrityError`. The model answers the second attempt with `DuplicateEmail`. Neither stores a row.
- Store.Database.AddBookmark: the count-then-save race between concurrent requests is not modelled; each method runs atomically.
- Query.OrderNewestFirst: the database's order among bookmarks with equal `added_time` is unspecified; the model places them in one fixed order. In the model the clock makes all stored times distinct (`Store.StoredTimesDistinct`), so the tie order never shows.
- `ContactMessage.__str__` (models.py lines 16-17) is display code and is left out.
- `user_login`, `logout_view` and `about_us` are left out. They change no field this model keeps, except that `authenticate` re-hashes and saves the stored password when the hasher's settings have changed. They do change state outside the model: `login()` saves `User.last_login` and writes a session row, and `logout()` flushes the session.
- The earlier `ContactForm` and `BookmarkForm` definitions (forms.py lines 35-47) are left out, because the later definitions replace them.
