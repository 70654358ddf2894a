/** The create-user use case (src/application/use_cases/create_user.py):
    validate the address, refuse one already stored, stamp the new user
    with the current time, validate the name, save, and report. */
module CreateUser {
  import opened Errors
  import opened EmailValue
  import opened UserEntity
  import opened Repository
  import opened UserDomainService
  import opened UserDtos
  import opened Clock

  /** Every stored row was created no later than its last update, and no
      stored time is later than the clock's latest reading. */
  predicate Stamped(rows: seq<Row>, now: int) {
    forall i | 0 <= i < |rows| :: rows[i].createdAt <= rows[i].updatedAt <= now
  }

  /** A later clock reading keeps every stored time in the past. */
  lemma StampedLater(rows: seq<Row>, t: int, t': int)
    requires Stamped(rows, t) && t <= t'
    ensures Stamped(rows, t')
  {
  }

  /** Appending a row stamped no later than the clock keeps the table
      stamped. */
  lemma StampedAppend(rows: seq<Row>, t: int, row: Row, t': int)
    requires Stamped(rows, t) && t <= t'
    requires row.createdAt <= row.updatedAt <= t'
    ensures Stamped(rows + [row], t')
  {
    var rows' := rows + [row];
    forall k | 0 <= k < |rows| ensures rows'[k] == rows[k] {
    }
  }

  /** The first check of `execute` that fails, in its order
      (create_user.py:23, 26-27, 31-37), or None when all pass. */
  function CreateError(rows: seq<Row>, dto: UserCreateDTO): Option<Error> {
    if Create(dto.email).Err? then Some(Create(dto.email).error)
    else if IndexOfEmail(rows, dto.email).Some? then Some(EmailTaken)
    else if CheckName(dto.name).Fail? then Some(CheckName(dto.name).error)
    else None
  }

  /** A creation goes through exactly when the address is one `Email`
      accepts and no stored user has it, and the name is one `User`
      accepts. */
  lemma CreateSucceedsIff(rows: seq<Row>, dto: UserCreateDTO)
    ensures CreateError(rows, dto).None? <==>
      IsValidEmail(dto.email) && ValidName(dto.name)
      && forall i | 0 <= i < |rows| :: rows[i].email != dto.email
  {
  }

  /** The row a successful creation at time t appends. */
  function CreatedRow(rows: seq<Row>, dto: UserCreateDTO, t: int): Row {
    Row(NextId(rows), dto.email, dto.name, t, t)
  }

  /** The entity a successful creation saves, and the table `save` makes
      of it: the created row appended. */
  lemma CreatedRowIsSaved(rows: seq<Row>, dto: UserCreateDTO, t: int)
    requires CreateError(rows, dto).None?
    ensures var u := UserRecord(None, Create(dto.email).value, dto.name, t, t);
      && u.Valid()
      && SaveRows(rows, u) == Ok(rows + [CreatedRow(rows, dto, t)])
      && ToEntity(CreatedRow(rows, dto, t)) == u.(id := Some(NextId(rows)))
  {
    var u := UserRecord(None, Create(dto.email).value, dto.name, t, t);
    assert NewRow(rows, u) == CreatedRow(rows, dto, t);
  }

  /** After a successful creation the table still keeps its invariant, the
      new user is found under its new id and under its address, and the
      address is no longer available. */
  lemma CreatedUserIsFound(rows: seq<Row>, dto: UserCreateDTO, t: int)
    requires TableInvariant(rows) && CreateError(rows, dto).None?
    ensures var rows' := rows + [CreatedRow(rows, dto, t)];
      && TableInvariant(rows')
      && RecordById(rows', NextId(rows)) == Some(ToEntity(CreatedRow(rows, dto, t)))
      && RecordByEmail(rows', dto.email) == Some(ToEntity(CreatedRow(rows, dto, t)))
  {
    var u := UserRecord(None, Create(dto.email).value, dto.name, t, t);
    var rows' := rows + [CreatedRow(rows, dto, t)];
    CreatedRowIsSaved(rows, dto, t);
    SaveKeepsInvariant(rows, u);
    SaveThenFind(rows, u);
    AppendedEmailIsFound(rows, CreatedRow(rows, dto, t));
  }

  class CreateUserUseCase {
    const repo: UserRepository
    /** Source of `datetime.now()`. */
    const clock: Clock

    constructor (repo: UserRepository, clock: Clock)
      ensures this.repo == repo && this.clock == clock
    {
      this.repo := repo;
      this.clock := clock;
    }

    /** `execute` (create_user.py:20-43). On failure the table is
      untouched; on success one row is appended, stamped with a fresh
      clock reading, and its response is returned. */
    method Execute(dto: UserCreateDTO) returns (r: Result<UserResponseDTO>)
      requires repo.Valid() && Stamped(repo.rows, clock.time)
      modifies repo, clock
      ensures repo.Valid() && Stamped(repo.rows, clock.time)
      ensures CreateError(old(repo.rows), dto).Some? ==>
        r == Err(CreateError(old(repo.rows), dto).value) && repo.rows == old(repo.rows)
      ensures CreateError(old(repo.rows), dto).None? ==>
        && old(clock.time) < clock.time
        && repo.rows == old(repo.rows) + [CreatedRow(old(repo.rows), dto, clock.time)]
        && r == Ok(FromDomain(ToEntity(CreatedRow(old(repo.rows), dto, clock.time))))
    {
      var email := Create(dto.email);
      if email.Err? {
        return Err(email.error);
      }
      if !IsEmailAvailable(repo, email.value) {
        return Err(EmailTaken);
      }
      ghost var before := clock.time;
      var now := clock.Now();
      StampedLater(repo.rows, before, now);
      var made := User.New(None, email.value, dto.name, now, now);
      if made.Err? {
        return Err(made.error);
      }
      CreatedRowIsSaved(repo.rows, dto, now);
      StampedAppend(repo.rows, now, CreatedRow(repo.rows, dto, now), now);
      var saved := repo.Save(made.value);
      r := Ok(FromDomain(saved.value.Record()));
    }
  }
}
