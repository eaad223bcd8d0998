/** Stand-ins for the Django services the core calls but does not define:
    the URL and e-mail syntax validators and the password hasher. Each is a
    small total definition so that the rest of the model can refer to it;
    none claims to reproduce Django's own algorithm. */
module Collaborators {
  import opened Text

  /** The schemes Django's `URLValidator` accepts by default. */
  const UrlSchemes: seq<string> := ["http://", "https://", "ftp://", "ftps://"]

  /** No character of `s` is whitespace. */
  predicate NoSpace(s: string)
  {
    s == [] || (!IsSpace(s[0]) && NoSpace(s[1..]))
  }

  /** `s` starts with `scheme` (in any letter case) and has more after it. */
  predicate HasScheme(s: string, scheme: string)
  {
    |scheme| < |s| && scheme == FoldCase(s[..|scheme|])
  }

  /** URL syntax: a known scheme followed by a non-empty rest, and no
      whitespace anywhere. */
  predicate IsValidUrl(s: string)
  {
    && (HasScheme(s, UrlSchemes[0]) || HasScheme(s, UrlSchemes[1])
        || HasScheme(s, UrlSchemes[2]) || HasScheme(s, UrlSchemes[3]))
    && NoSpace(s)
  }

  /** The first position of `c` in `s`, or `|s|` when it does not occur. */
  function IndexOf(s: string, c: char): (i: nat)
    ensures i <= |s|
    ensures i < |s| ==> s[i] == c
    ensures forall j :: 0 <= j < i ==> s[j] != c
    ensures c !in s ==> i == |s|
  {
    if s == [] then 0
    else if s[0] == c then 0
    else 1 + IndexOf(s[1..], c)
  }

  /** E-mail syntax: one `@` separating a non-empty local part from a domain
      that contains a dot, and no whitespace anywhere. */
  predicate IsValidEmail(s: string)
  {
    var at := IndexOf(s, '@');
    && 0 < at < |s| - 1
    && '@' !in s[at + 1..] && '.' in s[at + 1..]
    && NoSpace(s)
  }

  /** A string without `@` is not an e-mail address. */
  lemma AtlessEmailInvalid(s: string)
    requires '@' !in s
    ensures !IsValidEmail(s)
  {
  }

  /** A stored password: the salt chosen when it was set and the digest of the
      raw password under that salt. There is no field for the raw password. */
  datatype PasswordHash = PasswordHash(salt: nat, digest: nat)

  const DigestModulus: nat := 0x1_0000_0000_0000_0000

  /** A keyed digest standing in for PBKDF2: the caller only relies on it being
      a function of the salt and the raw password. */
  function Digest(salt: nat, raw: string): nat
  {
    if raw == [] then salt % DigestModulus
    else (Digest(salt, raw[..|raw| - 1]) * 131 + raw[|raw| - 1] as nat) % DigestModulus
  }

  /** Django's `make_password`, with the random salt passed in. */
  function MakePassword(raw: string, salt: nat): (h: PasswordHash)
    ensures CheckPassword(raw, h)
  {
    PasswordHash(salt, Digest(salt, raw))
  }

  /** Django's `check_password`: re-hash with the stored salt and compare. */
  predicate CheckPassword(raw: string, h: PasswordHash)
  {
    Digest(h.salt, raw) == h.digest
  }
}
