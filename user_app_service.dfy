/** The application service (src/application/services/user_app_service.py):
    the operations the HTTP and command-line front ends call. Queries are
    functions of the stored rows; creation, update and deletion are
    methods on the repository's table and the clock. */
module UserApplication {
  import opened Errors
  import opened EmailValue
  import opened UserEntity
  import opened Repository
  import opened UserDomainService
  import opened UserDtos
  import opened Clock
  import opened CreateUser

  /** `[UserResponseDTO.from_domain(u) for u in users]` */
  function Responses(users: seq<UserRecord>): (r: seq<UserResponseDTO>)
    ensures |r| == |users|
    ensures forall k | 0 <= k < |users| :: r[k] == FromDomain(users[k])
  {
    seq(|users|, k requires 0 <= k < |users| => FromDomain(users[k]))
  }

  /** Every user of the list has its response in the converted list. */
  lemma ResponsesCover(users: seq<UserRecord>)
    ensures forall u | u in users :: FromDomain(u) in Responses(users)
  {
    forall u | u in users ensures FromDomain(u) in Responses(users) {
      var k :| 0 <= k < |users| && users[k] == u;
      assert Responses(users)[k] == FromDomain(u);
    }
  }

  /** Python's normalisation of a slice bound against a length n: a
      negative bound counts from the end, and both clamp to [0, n]. */
  function SliceBound(i: int, n: nat): (b: nat)
    ensures b <= n
    ensures 0 <= i <= n ==> b == i
  {
    if i < 0 then (if i + n < 0 then 0 else i + n)
    else if i > n then n
    else i
  }

  /** Python's `s[start:stop]`. */
  function PySlice<T>(s: seq<T>, start: int, stop: int): (r: seq<T>)
    ensures |r| <= |s|
  {
    var a, b := SliceBound(start, |s|), SliceBound(stop, |s|);
    if a < b then s[a..b] else []
  }

  /** For non-negative bounds a Python slice is the elements from start
      up to stop, cut off at the end of the list. */
  lemma PySliceNonNegative<T>(s: seq<T>, start: int, stop: int)
    requires 0 <= start <= stop
    ensures |PySlice(s, start, stop)| == if start < |s| then (if stop < |s| then stop else |s|) - start else 0
    ensures forall k | 0 <= k < |PySlice(s, start, stop)| :: PySlice(s, start, stop)[k] == s[start + k]
  {
  }

  /** The first check of `update_user` that fails, in its order
      (user_app_service.py:53-61), for the stored row `row`. */
  function UpdateError(rows: seq<Row>, row: Row, dto: UserUpdateDTO): Option<Error> {
    if dto.name.Some? && CheckName(dto.name.value).Fail? then Some(CheckName(dto.name.value).error)
    else if dto.email.Some? && Create(dto.email.value).Err? then Some(Create(dto.email.value).error)
    else if dto.email.Some? && dto.email.value != row.email && IndexOfEmail(rows, dto.email.value).Some? then Some(EmailTaken)
    else None
  }

  /** The stored row after an accepted update at time t: the given fields
      replace the stored ones, and `updated_at` moves only when a field
      was given. */
  function Updated(row: Row, dto: UserUpdateDTO, t: int): Row {
    row.(name := if dto.name.Some? then dto.name.value else row.name,
         email := if dto.email.Some? then dto.email.value else row.email,
         updatedAt := if dto.name.Some? || dto.email.Some? then t else row.updatedAt)
  }

  /** An update the service accepts never hits the unique email index:
      saving the edited entity overwrites exactly the user's row, and the
      table keeps its invariant. */
  lemma AcceptedUpdateSaves(rows: seq<Row>, i: nat, dto: UserUpdateDTO, t: int)
    requires TableInvariant(rows) && i < |rows| && UpdateError(rows, rows[i], dto).None?
    ensures SaveRows(rows, ToEntity(Updated(rows[i], dto, t))) == Ok(rows[i := Updated(rows[i], dto, t)])
    ensures TableInvariant(rows[i := Updated(rows[i], dto, t)])
  {
    var row := rows[i];
    var u := ToEntity(Updated(row, dto, t));
    assert Updated(row, dto, t) == Overwrite(row, u);
    UniqueIdIndex(rows, i);
    if u.email.value == row.email {
      UniqueEmailIndex(rows, i);
    }
    SaveKeepsInvariant(rows, u);
  }

  /** Setting a user's address to the one it already has is never refused
      as taken. */
  lemma SameEmailUpdateAccepted(rows: seq<Row>, row: Row)
    requires IsValidEmail(row.email)
    ensures UpdateError(rows, row, UserUpdateDTO(email := Some(row.email))).None?
  {
  }

  /** Writing a row stamped no later than the clock keeps the table
      stamped. */
  lemma StampedOverwrite(rows: seq<Row>, t: int, i: nat, row: Row, t': int)
    requires Stamped(rows, t) && t <= t' && i < |rows|
    requires row.createdAt <= row.updatedAt <= t'
    ensures Stamped(rows[i := row], t')
  {
  }

  class UserAppService {
    const repo: UserRepository
    /** Source of `datetime.now()` for the entity and the use case. */
    const clock: Clock
    const createUseCase: CreateUserUseCase

    ghost predicate Valid()
      reads repo, clock
    {
      && createUseCase.repo == repo && createUseCase.clock == clock
      && repo.Valid() && Stamped(repo.rows, clock.time)
    }

    constructor (repo: UserRepository, clock: Clock)
      requires repo.Valid() && Stamped(repo.rows, clock.time)
      ensures Valid() && this.repo == repo && this.clock == clock
    {
      this.repo := repo;
      this.clock := clock;
      this.createUseCase := new CreateUserUseCase(repo, clock);
    }

    /** `create_user` (user_app_service.py:27-29). */
    method CreateUser(dto: UserCreateDTO) returns (r: Result<UserResponseDTO>)
      requires Valid()
      modifies repo, clock
      ensures Valid()
      ensures CreateError(old(repo.rows), dto).Some? ==>
        r == Err(CreateError(old(repo.rows), dto).value) && repo.rows == old(repo.rows)
      ensures CreateError(old(repo.rows), dto).None? ==>
        && repo.rows == old(repo.rows) + [CreatedRow(old(repo.rows), dto, clock.time)]
        && r == Ok(FromDomain(ToEntity(CreatedRow(old(repo.rows), dto, clock.time))))
    {
      r := createUseCase.Execute(dto);
    }

    /** `get_user_by_id` (user_app_service.py:31-36). */
    function GetUserById(id: int): (r: Option<UserResponseDTO>)
      reads repo
      ensures r.Some? <==> exists i | 0 <= i < |repo.rows| :: repo.rows[i].id == id
      ensures r.Some? ==> r.value.id == Some(id)
    {
      match RecordById(repo.rows, id)
      case None => None
      case Some(u) => Some(FromDomain(u))
    }

    /** `get_user_by_email` (user_app_service.py:38-44): the address is
      validated first, so a malformed one is an error, not a miss. */
    function GetUserByEmail(email: string): (r: Result<Option<UserResponseDTO>>)
      reads repo
      ensures Create(email).Err? ==> r == Err(Create(email).error)
      ensures Create(email).Ok? ==> r.Ok?
      ensures r.Ok? ==> (r.value.Some? <==> exists i | 0 <= i < |repo.rows| :: repo.rows[i].email == email)
      ensures r.Ok? && r.value.Some? ==> r.value.value.email == email
    {
      match Create(email)
      case Err(e) => Err(e)
      case Ok(e) =>
        match RecordByEmail(repo.rows, e.value)
        case None => Ok(None)
        case Some(u) => Ok(Some(FromDomain(u)))
    }

    /** `update_user` (user_app_service.py:46-65): loads the user, applies
      the given name and then the given address, each through the entity,
      and saves once. A failed check leaves the table as it was; an
      accepted update moves `updated_at` strictly forward. */
    method UpdateUser(id: int, dto: UserUpdateDTO) returns (r: Result<Option<UserResponseDTO>>)
      requires Valid()
      modifies repo, clock
      ensures Valid()
      ensures IndexOfId(old(repo.rows), id).None? ==> r == Ok(None) && repo.rows == old(repo.rows)
      ensures IndexOfId(old(repo.rows), id).Some? ==>
        var i := IndexOfId(old(repo.rows), id).value;
        var row := old(repo.rows)[i];
        match UpdateError(old(repo.rows), row, dto)
        case Some(e) => r == Err(e) && repo.rows == old(repo.rows)
        case None =>
          && repo.rows == old(repo.rows)[i := Updated(row, dto, clock.time)]
          && r == Ok(Some(FromDomain(ToEntity(Updated(row, dto, clock.time)))))
          && (dto.name.Some? || dto.email.Some? ==> row.updatedAt < clock.time)
    {
      var user := repo.FindById(id);
      if user == null {
        return Ok(None);
      }
      ghost var rows := repo.rows;
      ghost var i := IndexOfId(rows, id).value;
      ghost var start := clock.time;
      var outcome := ApplyChanges(user, dto, rows, i);
      StampedLater(rows, start, clock.time);
      if outcome.Fail? {
        return Err(outcome.error);
      }
      AcceptedUpdateSaves(rows, i, dto, clock.time);
      var saved := repo.Save(user);
      StampedOverwrite(rows, clock.time, i, Updated(rows[i], dto, clock.time), clock.time);
      r := Ok(Some(FromDomain(saved.value.Record())));
    }

    /** The edits of `update_user` on the loaded entity
      (user_app_service.py:53-61): the name through `change_name`, then the
      address through `Email`, `can_change_email` and `change_email`. The
      first failing check ends the edit; the table is not written here. */
    method ApplyChanges(user: User, dto: UserUpdateDTO, ghost rows: seq<Row>, ghost i: nat) returns (o: Outcome)
      requires rows == repo.rows && i < |rows|
      requires user.Valid() && user.Record() == ToEntity(rows[i])
      modifies user, clock
      ensures o.Fail? <==> UpdateError(rows, rows[i], dto).Some?
      ensures o.Fail? ==> o.error == UpdateError(rows, rows[i], dto).value
      ensures o.Pass? ==> user.Valid() && user.Record() == ToEntity(Updated(rows[i], dto, clock.time))
      ensures old(clock.time) <= clock.time
      ensures o.Pass? && (dto.name.Some? || dto.email.Some?) ==> old(clock.time) < clock.time
    {
      ghost var row := rows[i];
      if dto.name.Some? {
        o := user.ChangeName(dto.name.value, clock);
        if o.Fail? {
          return;
        }
      }
      if dto.email.Some? {
        o := ApplyEmail(user, dto.email.value, row);
        if o.Fail? {
          return;
        }
      }
      o := Pass;
    }

    /** The email half of `update_user` (user_app_service.py:57-61): the
        address must be well formed and, unless it is the user's own, free;
        then the entity takes it. */
    method ApplyEmail(user: User, newEmail: string, ghost row: Row) returns (o: Outcome)
      requires user.Valid() && user.email.value == row.email
      modifies user, clock
      ensures o.Fail? <==> Create(newEmail).Err? || (newEmail != row.email && IndexOfEmail(repo.rows, newEmail).Some?)
      ensures o.Fail? ==> o.error == (if Create(newEmail).Err? then Create(newEmail).error else EmailTaken)
      ensures o.Fail? ==> unchanged(user, clock)
      ensures o.Pass? ==> user.Valid() && user.Record() == old(user.Record()).(email := Email(newEmail), updatedAt := clock.time)
      ensures o.Pass? ==> old(clock.time) < clock.time
    {
      var email := Create(newEmail);
      if email.Err? {
        return Fail(email.error);
      }
      if !CanChangeEmail(repo, user, email.value) {
        return Fail(EmailTaken);
      }
      user.ChangeEmail(email.value, clock);
      o := Pass;
    }

    /** `delete_user` (user_app_service.py:67-69): afterwards no user has
      this id, and the answer says whether one had. */
    method DeleteUser(id: int) returns (deleted: bool)
      requires Valid()
      modifies repo
      ensures Valid()
      ensures deleted <==> old(GetUserById(id)).Some?
      ensures GetUserById(id).None?
      ensures !deleted ==> repo.rows == old(repo.rows)
      ensures deleted ==> repo.rows == RemoveAt(old(repo.rows), IndexOfId(old(repo.rows), id).value)
    {
      deleted := repo.Delete(id);
    }

    /** `get_users` (user_app_service.py:71-89): the slice
      `[(page - 1) * per_page : (page - 1) * per_page + per_page]` of all
      users in scan order, with Python's slice semantics for every page
      and page size, and the total count. */
    function GetUsers(page: int := 1, perPage: int := 10): (r: UserListResponseDTO)
      reads repo
      ensures r.totalCount == |repo.rows| && r.page == page && r.perPage == perPage
      ensures |r.users| <= |repo.rows|
    {
      var all := Records(repo.rows);
      UserListResponseDTO(Responses(Page(all, page, perPage)), |all|, page, perPage)
    }

    /** `get_active_users_count` (user_app_service.py:91-93). */
    function GetActiveUsersCount(): (n: nat)
      reads repo
      ensures n == |repo.rows|
    {
      ActiveCountIsUserCount(repo);
      ActiveUsersCount(repo)
    }

    /** `get_users_by_domain` (user_app_service.py:95-98). */
    function GetUsersByDomain(domain: string): (r: seq<UserResponseDTO>)
      reads repo
      ensures forall k | 0 <= k < |r| :: EndsWith(r[k].email, "@" + domain)
      ensures forall k | 0 <= k < |r| :: exists i | 0 <= i < |repo.rows| :: r[k] == FromDomain(ToEntity(repo.rows[i]))
      ensures forall i | 0 <= i < |repo.rows| && EndsWith(repo.rows[i].email, "@" + domain) ::
        FromDomain(ToEntity(repo.rows[i])) in r
    {
      DomainResponsesMatch(repo.rows, domain);
      DomainResponsesComplete(repo.rows, domain);
      Responses(UsersByDomain(repo, domain))
    }
  }

  /** Each response of `get_users_by_domain` is that of a stored user whose
      address ends with "@" + domain. */
  lemma DomainResponsesMatch(rows: seq<Row>, domain: string)
    ensures var r := Responses(WithDomain(Records(rows), domain));
      && (forall k | 0 <= k < |r| :: EndsWith(r[k].email, "@" + domain))
      && (forall k | 0 <= k < |r| :: exists i | 0 <= i < |rows| :: r[k] == FromDomain(ToEntity(rows[i])))
  {
    var users := WithDomain(Records(rows), domain);
    var r := Responses(users);
    forall k | 0 <= k < |r|
      ensures EndsWith(r[k].email, "@" + domain)
      ensures exists i | 0 <= i < |rows| :: r[k] == FromDomain(ToEntity(rows[i]))
    {
      assert users[k] in users;
      var i :| 0 <= i < |rows| && Records(rows)[i] == users[k];
    }
  }

  /** Every stored user whose address ends with "@" + domain has its
      response in `get_users_by_domain`. */
  lemma DomainResponsesComplete(rows: seq<Row>, domain: string)
    ensures forall i | 0 <= i < |rows| && EndsWith(rows[i].email, "@" + domain) ::
      FromDomain(ToEntity(rows[i])) in Responses(WithDomain(Records(rows), domain))
  {
    var users := WithDomain(Records(rows), domain);
    ResponsesCover(users);
    forall i | 0 <= i < |rows| && EndsWith(rows[i].email, "@" + domain) ensures ToEntity(rows[i]) in users {
      assert Records(rows)[i] in Records(rows);
    }
  }

  /** The slice `get_users` takes for a page. */
  function Page<T>(all: seq<T>, page: int, perPage: int): (r: seq<T>)
    ensures |r| <= |all|
  {
    var start := (page - 1) * perPage;
    PySlice(all, start, start + perPage)
  }

  /** For page >= 1 and per_page >= 1 a page holds the items from position
      (page - 1) * per_page on, at most per_page of them. */
  lemma PageContents<T>(all: seq<T>, page: int, perPage: int)
    requires page >= 1 && perPage >= 1
    ensures var start := (page - 1) * perPage;
      var n := |all|;
      && start >= 0
      && |Page(all, page, perPage)| == (if start < n then (if start + perPage < n then perPage else n - start) else 0)
      && forall k | 0 <= k < |Page(all, page, perPage)| :: Page(all, page, perPage)[k] == all[start + k]
  {
    var start := (page - 1) * perPage;
    ProductNonNegative(page - 1, perPage);
    PySliceNonNegative(all, start, start + perPage);
  }

  lemma ProductNonNegative(a: int, b: int)
    requires a >= 0 && b >= 0
    ensures a * b >= 0
  {
  }

  /** A page of `get_users` for page >= 1 and per_page >= 1. */
  lemma GetUsersPage(service: UserAppService, page: int, perPage: int)
    requires page >= 1 && perPage >= 1
    ensures var start := (page - 1) * perPage;
      var n := |service.repo.rows|;
      var users := service.GetUsers(page, perPage).users;
      && |users| == (if start < n then (if start + perPage < n then perPage else n - start) else 0)
      && forall k | 0 <= k < |users| :: 0 <= start + k < n && users[k] == FromDomain(ToEntity(service.repo.rows[start + k]))
  {
    PageContents(Records(service.repo.rows), page, perPage);
  }

  /** The paging case of the service test: five users in pages of three
      give a full first page and a second page of two. */
  lemma GetUsersTestExample(service: UserAppService)
    requires |service.repo.rows| == 5
    ensures |service.GetUsers(1, 3).users| == 3 && service.GetUsers(1, 3).totalCount == 5
    ensures |service.GetUsers(2, 3).users| == 2
  {
    GetUsersPage(service, 1, 3);
    GetUsersPage(service, 2, 3);
  }

  /** Without the front end's guard, page 0 would be the empty slice
      `[-per_page:0]`. */
  lemma GetUsersPageZeroIsEmpty(service: UserAppService, perPage: int)
    ensures service.GetUsers(0, perPage).users == []
  {
  }
}
