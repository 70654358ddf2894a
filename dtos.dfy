/** The transfer objects of the application layer
    (src/application/dtos/user_dto.py). They are plain records: none of
    them validates its fields. */
module UserDtos {
  import opened Errors
  import opened EmailValue
  import opened UserEntity

  /** Input of user creation: two unchecked strings. */
  datatype UserCreateDTO = UserCreateDTO(email: string, name: string)

  /** Input of user update: each field is absent unless given. */
  datatype UserUpdateDTO = UserUpdateDTO(name: Option<string> := None, email: Option<string> := None)

  /** Output for one user; `id` is `None` only for a user never saved. */
  datatype UserResponseDTO = UserResponseDTO(id: Option<int>, email: string, name: string, createdAt: int, updatedAt: int)

  /** Output of the paged listing. */
  datatype UserListResponseDTO = UserListResponseDTO(users: seq<UserResponseDTO>, totalCount: int, page: int, perPage: int)

  /** An update that names neither field. */
  lemma UpdateDefaultsAreAbsent()
    ensures UserUpdateDTO().name.None? && UserUpdateDTO().email.None?
    ensures UserUpdateDTO(name := Some("x")).email.None?
  {
  }

  /** `UserResponseDTO.from_domain` (user_dto.py:32-41): copies the entity,
      the email through `str`. */
  function FromDomain(u: UserRecord): (r: UserResponseDTO)
  {
    UserResponseDTO(u.id, ToString(u.email), u.name, u.createdAt, u.updatedAt)
  }

  /** The response reports exactly the email string and the name the
      client sent at creation, for any string `Email` accepts. */
  lemma FromDomainReportsInput(id: Option<int>, email: string, name: string, createdAt: int, updatedAt: int)
    requires Create(email).Ok?
    ensures var r := FromDomain(UserRecord(id, Create(email).value, name, createdAt, updatedAt));
      r.email == email && r.name == name && r.id == id
      && r.createdAt == createdAt && r.updatedAt == updatedAt
  {
  }
}
