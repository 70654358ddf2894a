/** The domain service (src/domain/services/user_service.py): questions
    about users that need the repository. Each one only reads the table,
    so each is a function of the repository's rows. */
module UserDomainService {
  import opened Errors
  import opened EmailValue
  import opened UserEntity
  import opened Repository

  /** `is_email_available` (user_service.py:17-20): no stored user has
      this address. */
  function IsEmailAvailable(repo: UserRepository, email: Email): (b: bool)
    reads repo
    ensures b <==> forall i | 0 <= i < |repo.rows| :: repo.rows[i].email != email.value
  {
    RecordByEmail(repo.rows, email.value).None?
  }

  /** `can_change_email` (user_service.py:22-29): keeping one's own address
      is always allowed, any other address must be free. */
  function CanChangeEmail(repo: UserRepository, user: User, newEmail: Email): (b: bool)
    reads repo, user
    ensures b <==> user.email == newEmail || forall i | 0 <= i < |repo.rows| :: repo.rows[i].email != newEmail.value
  {
    EqualsIffSameValue(user.email, newEmail);
    if Equals(user.email, EmailObject(newEmail)) then true
    else IsEmailAvailable(repo, newEmail)
  }

  /** For a user whose stored row still holds the user's address, the
      change is allowed exactly when no other row holds the new address,
      which is when `save` cannot hit the unique email index. */
  lemma CanChangeIffNoClash(repo: UserRepository, user: User, newEmail: Email)
    requires IdsIncreasing(repo.rows) && EmailsUnique(repo.rows) && user.id.Some?
    requires IndexOfId(repo.rows, user.id.value).Some?
    requires repo.rows[IndexOfId(repo.rows, user.id.value).value].email == user.email.value
    ensures CanChangeEmail(repo, user, newEmail) <==> !EmailClash(repo.rows, newEmail.value, user.id.value)
    ensures CanChangeEmail(repo, user, newEmail) <==>
      forall i | 0 <= i < |repo.rows| :: repo.rows[i].email == newEmail.value ==> repo.rows[i].id == user.id.value
  {
    var rows := repo.rows;
    var id := user.id.value;
    var k := IndexOfId(rows, id).value;
    match IndexOfEmail(rows, newEmail.value)
    case None =>
    case Some(j) =>
      UniqueEmailIndex(rows, k);
      UniqueIdIndex(rows, j);
      assert rows[j].id == id <==> j == k;
    NoClashIff(rows, newEmail.value, id);
  }

  /** Python's `str.endswith`. */
  predicate EndsWith(s: string, suffix: string) {
    |suffix| <= |s| && s[|s| - |suffix|..] == suffix
  }

  /** Order-keeping subsequence: a is b with some elements dropped. */
  predicate IsSubsequence<T(==)>(a: seq<T>, b: seq<T>)
    decreases |b|
  {
    |a| == 0 || (|b| > 0 && if a[0] == b[0] then IsSubsequence(a[1..], b[1..]) else IsSubsequence(a, b[1..]))
  }

  /** A list comprehension with a condition: `[u for u in users if keep(u)]`.
      It keeps every copy of a kept user, in order. */
  function Filter(users: seq<UserRecord>, keep: UserRecord -> bool): (r: seq<UserRecord>)
    ensures |r| <= |users|
    ensures forall u :: u in r <==> u in users && keep(u)
    ensures IsSubsequence(r, users)
    ensures forall u :: multiset(r)[u] == if keep(u) then multiset(users)[u] else 0
  {
    if |users| == 0 then []
    else
      assert users == [users[0]] + users[1..];
      if keep(users[0]) then [users[0]] + Filter(users[1..], keep)
      else Filter(users[1..], keep)
  }

  /** A condition every element meets filters nothing out. */
  lemma {:induction false} FilterKeepsAll(users: seq<UserRecord>, keep: UserRecord -> bool)
    requires forall u | u in users :: keep(u)
    ensures Filter(users, keep) == users
  {
    if |users| > 0 {
      assert users == [users[0]] + users[1..];
      FilterKeepsAll(users[1..], keep);
    }
  }

  /** The users `is_active` keeps. */
  function ActiveUsers(users: seq<UserRecord>): seq<UserRecord> {
    Filter(users, (u: UserRecord) => u.IsActive())
  }

  /** `get_active_users_count` (user_service.py:31-35). */
  function ActiveUsersCount(repo: UserRepository): (n: nat)
    reads repo
    ensures n <= |repo.rows|
  {
    |ActiveUsers(Records(repo.rows))|
  }

  /** Every user is active, so the count is the number of stored users. */
  lemma ActiveCountIsUserCount(repo: UserRepository)
    ensures ActiveUsersCount(repo) == |repo.rows|
  {
    FilterKeepsAll(Records(repo.rows), (u: UserRecord) => u.IsActive());
  }

  /** `get_users_by_domain` (user_service.py:37-43): the users, in scan
      order, whose address ends with "@" followed by the domain. */
  function UsersByDomain(repo: UserRepository, domain: string): (r: seq<UserRecord>)
    reads repo
    ensures IsSubsequence(r, Records(repo.rows))
  {
    WithDomain(Records(repo.rows), domain)
  }

  /** The comprehension of `get_users_by_domain` over a list of users. */
  function WithDomain(users: seq<UserRecord>, domain: string): seq<UserRecord> {
    Filter(users, (u: UserRecord) => EndsWith(u.email.value, "@" + domain))
  }

  /** The part of an address after its first '@'. */
  function DomainPart(s: string): (r: Option<string>)
    ensures r.Some? ==> |r.value| < |s|
  {
    match FirstIndex(s, '@')
    case None => None
    case Some(at) => Some(s[at + 1..])
  }

  /** On an address `Email` accepts, "ends with '@' + domain" means "the
      part after the '@' is the domain", since the address holds exactly
      one '@'. */
  lemma EndsWithDomainIff(s: string, domain: string)
    requires IsValidEmail(s)
    ensures EndsWith(s, "@" + domain) <==> DomainPart(s) == Some(domain)
  {
    ValidEmailShape(s);
    SuffixAfterOnlyAt(s, FirstIndex(s, '@').value, domain);
  }

  /** In a string whose only '@' is at position at, the string ends with
      '@' + domain exactly when the part after position at is domain. */
  lemma SuffixAfterOnlyAt(s: string, at: nat, domain: string)
    requires at < |s| && s[at] == '@'
    requires forall j | 0 <= j < |s| && s[j] == '@' :: j == at
    ensures EndsWith(s, "@" + domain) <==> s[at + 1..] == domain
  {
    var suffix := "@" + domain;
    if EndsWith(s, suffix) {
      var p := |s| - |suffix|;
      assert s[p] == s[p..][0] == '@';
      assert s[at + 1..] == s[p..][1..] == domain;
    }
    if s[at + 1..] == domain {
      assert s[at..] == [s[at]] + s[at + 1..];
    }
  }

  /** Membership in `get_users_by_domain`, for a valid table: a stored user
      is listed exactly when the part of its address after the '@' is the
      domain. */
  lemma UsersByDomainMembership(repo: UserRepository, domain: string, u: UserRecord)
    requires AllRowsValid(repo.rows)
    ensures u in UsersByDomain(repo, domain) <==>
      u in Records(repo.rows) && DomainPart(u.email.value) == Some(domain)
  {
    if u in Records(repo.rows) {
      var i :| 0 <= i < |repo.rows| && Records(repo.rows)[i] == u;
      EndsWithDomainIff(u.email.value, domain);
    }
  }

  /** The three users of the domain-service test: the two at example.com
      are listed, in order, the one at test.com is not. */
  lemma WithDomainTestExample(users: seq<UserRecord>)
    requires |users| == 3
    requires users[0].email.value == "user1@example.com"
    requires users[1].email.value == "user2@test.com"
    requires users[2].email.value == "user3@example.com"
    ensures WithDomain(users, "example.com") == [users[0], users[2]]
  {
    EndsWithExamples();
    var keep := (u: UserRecord) => EndsWith(u.email.value, "@" + "example.com");
    assert users[1..][1..] == [users[2]];
    calc {
      WithDomain(users, "example.com");
      Filter(users, keep);
      [users[0]] + Filter(users[1..], keep);
      [users[0]] + Filter(users[1..][1..], keep);
      [users[0]] + [users[2]] + Filter(users[1..][1..][1..], keep);
    }
  }

  lemma EndsWithExamples()
    ensures EndsWith("user1@example.com", "@" + "example.com")
    ensures EndsWith("user3@example.com", "@" + "example.com")
    ensures !EndsWith("user2@test.com", "@" + "example.com")
  {
    assert "user1@example.com" == "user1" + ("@" + "example.com");
    assert "user3@example.com" == "user3" + ("@" + "example.com");
    assert "user2@test.com"[2] != '@';
  }
}
