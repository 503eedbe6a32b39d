/** The `User` record: a nullable id and nullable name and email, with the validation rules the
    HTTP layer applies before a user reaches the registry. */
module UserModel {
  import opened Wrappers

  /** `id` is `None` before the registry assigns one; `name` and `email` are `None` when a request
      body leaves them out (Java `null`). */
  datatype User = User(id: Option<int>, name: Option<string>, email: Option<string>)

  /** The no-argument constructor, which JSON binding uses before calling the setters. */
  function Unset(): (u: User)
    ensures u.id.None? && u.name.None? && u.email.None?
  {
    User(None, None, None)
  }

  function WithId(u: User, id: Option<int>): User {
    u.(id := id)
  }

  function WithName(u: User, name: Option<string>): User {
    u.(name := name)
  }

  function WithEmail(u: User, email: Option<string>): User {
    u.(email := email)
  }

  /** Each setter changes its own field and no other, and the getter then returns what was set. */
  lemma SettersFrame(u: User, id: Option<int>, name: Option<string>, email: Option<string>)
    ensures WithId(u, id).id == id && WithId(u, id).name == u.name && WithId(u, id).email == u.email
    ensures WithName(u, name).name == name && WithName(u, name).id == u.id && WithName(u, name).email == u.email
    ensures WithEmail(u, email).email == email && WithEmail(u, email).id == u.id && WithEmail(u, email).name == u.name
    ensures WithName(WithEmail(u, email), name) == WithEmail(WithName(u, name), email)
    ensures WithId(WithId(u, id), id) == WithId(u, id)
  {
  }

  /** `@NotBlank`: present, and not empty once the characters up to U+0020 are trimmed from both ends,
      that is, holding some character above U+0020. */
  predicate NotBlank(s: Option<string>) {
    s.Some? && exists i :: 0 <= i < |s.value| && s.value[i] > ' '
  }

  /** `@NotBlank` and `@Size(min = 2, max = 50)` on the name. */
  predicate ValidName(name: Option<string>) {
    NotBlank(name) && 2 <= |name.value| <= 50
  }

  /** `@NotBlank` and `@Email` on the email; the address syntax is the validator library's and is
      taken as the parameter `wellFormed`. */
  predicate ValidEmail(email: Option<string>, wellFormed: string -> bool) {
    NotBlank(email) && wellFormed(email.value)
  }

  /** What the HTTP layer demands of a request body before creating or updating a user. */
  predicate ValidUser(u: User, wellFormed: string -> bool) {
    ValidName(u.name) && ValidEmail(u.email, wellFormed)
  }

  /** No constraint is placed on the id, so assigning one keeps a validated user valid. */
  lemma ValidityIgnoresId(u: User, id: Option<int>, wellFormed: string -> bool)
    ensures ValidUser(WithId(u, id), wellFormed) <==> ValidUser(u, wellFormed)
  {
  }

  /** The name rule at its edges: one character is too short, fifty is enough and fifty-one too many,
      blanks are rejected. */
  lemma NameRuleExamples()
    ensures ValidName(Some("Jo"))
    ensures !ValidName(Some("J"))
    ensures ValidName(Some(seq(50, _ => 'a')))
    ensures !ValidName(Some(seq(51, _ => 'a')))
    ensures !ValidName(Some("   "))
    ensures !ValidName(None)
    ensures ValidName(Some("John Doe"))
  {
    assert "Jo"[0] > ' ';
    assert seq(50, _ => 'a')[0] > ' ';
    assert "John Doe"[0] > ' ';
  }
}
