/** The persisted records: Django's `User` (as the signup view fills it in),
    `Bookmark` and `ContactMessage`, with the field bounds their model
    declarations impose. Timestamps are readings of the store's logical clock. */
module Models {
  import opened Collaborators

  type UserId = nat
  type BookmarkId = nat

  /** `CharField(max_length=255)` on `Bookmark.title`. */
  const TitleMaxLength: nat := 255
  /** `URLField(max_length=200)` on `Bookmark.url`. */
  const UrlMaxLength: nat := 200
  /** `CharField(max_length=100)` on `ContactMessage.name`. */
  const NameMaxLength: nat := 100
  /** `CharField(max_length=128)` on Django's `User.password`. */
  const PasswordColumnMaxLength: nat := 128
  /** Django's default length of an `EmailField`. */
  const EmailMaxLength: nat := 254

  datatype User = User(id: UserId, username: string, email: string, password: PasswordHash)

  /** One saved link; `owner` is the `user` foreign key. */
  datatype Bookmark = Bookmark(id: BookmarkId, owner: UserId, title: string, url: string, addedTime: nat)

  datatype ContactMessage = ContactMessage(name: string, email: string, message: string, createdAt: nat)

  /** Title required (not blank) and at most 255 characters; url required,
      at most 200 characters and well-formed. */
  predicate ValidBookmarkFields(title: string, url: string)
  {
    && title != "" && |title| <= TitleMaxLength
    && url != "" && |url| <= UrlMaxLength && IsValidUrl(url)
  }

  predicate ValidBookmark(b: Bookmark)
  {
    ValidBookmarkFields(b.title, b.url)
  }

  /** Name required and at most 100 characters, a well-formed e-mail address
      of at most 254 characters, a non-blank message. */
  predicate ValidContactFields(name: string, email: string, message: string)
  {
    && name != "" && |name| <= NameMaxLength
    && email != "" && |email| <= EmailMaxLength && IsValidEmail(email)
    && message != ""
  }

  predicate ValidContactMessage(m: ContactMessage)
  {
    ValidContactFields(m.name, m.email, m.message)
  }
}
