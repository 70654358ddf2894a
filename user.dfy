/** The `User` entity (src/domain/models/user.py): a mutable record whose
    name is checked at construction and by `change_name`, and whose two
    mutators stamp `updated_at` with the current time. */
module UserEntity {
  import opened Errors
  import opened EmailValue
  import opened Clock

  /** Longest accepted name (user.py:25). */
  const MaxNameLength: nat := 100

  /** The characters Python's `str.strip()` removes, those for which
      `str.isspace()` holds. */
  predicate IsPyWhitespace(c: char) {
    || c == ' ' || '\t' <= c <= '\r'
    || '\U{1C}' <= c <= '\U{1F}'
    || c == '\U{85}' || c == '\U{A0}' || c == '\U{1680}'
    || '\U{2000}' <= c <= '\U{200A}'
    || c == '\U{2028}' || c == '\U{2029}' || c == '\U{202F}' || c == '\U{205F}' || c == '\U{3000}'
  }

  /** Every character of s is whitespace (vacuously so for ""). */
  predicate IsBlank(s: string) {
    forall i | 0 <= i < |s| :: IsPyWhitespace(s[i])
  }

  /** `s.lstrip()`: the suffix of s that starts at its first non-whitespace
      character. */
  function LStrip(s: string): (r: string)
    ensures |r| <= |s| && r == s[|s| - |r|..]
    ensures forall i | 0 <= i < |s| - |r| :: IsPyWhitespace(s[i])
    ensures r == [] <==> IsBlank(s)
    ensures r != [] ==> !IsPyWhitespace(r[0])
  {
    if |s| > 0 && IsPyWhitespace(s[0]) then LStrip(s[1..]) else s
  }

  /** `s.rstrip()`: the prefix of s that ends at its last non-whitespace
      character. */
  function RStrip(s: string): (r: string)
    ensures |r| <= |s| && r == s[..|r|]
    ensures forall i | |r| <= i < |s| :: IsPyWhitespace(s[i])
    ensures r == [] <==> IsBlank(s)
    ensures r != [] ==> !IsPyWhitespace(r[|r| - 1])
  {
    if |s| > 0 && IsPyWhitespace(s[|s| - 1]) then RStrip(s[..|s| - 1]) else s
  }

  /** `s.strip()` */
  function Strip(s: string): (r: string)
    ensures exists a, b | 0 <= a <= b <= |s| :: r == s[a..b] && IsBlank(s[..a]) && IsBlank(s[b..])
    ensures |r| == 0 <==> IsBlank(s)
    ensures r != [] ==> !IsPyWhitespace(r[0]) && !IsPyWhitespace(r[|r| - 1])
  {
    var l := LStrip(s);
    var r := RStrip(l);
    TrimmedSlice(s, l, r);
    BlankPrefix(s, |s| - |l|);
    BlankSuffix(l, |r|);
    r
  }

  /** A prefix of whitespace characters is blank. */
  lemma BlankPrefix(s: string, a: nat)
    requires a <= |s|
    requires forall i | 0 <= i < a :: IsPyWhitespace(s[i])
    ensures IsBlank(s[..a])
  {
    forall i | 0 <= i < a ensures IsPyWhitespace(s[..a][i]) {
      assert s[..a][i] == s[i];
    }
  }

  /** A suffix of whitespace characters is blank. */
  lemma BlankSuffix(s: string, b: nat)
    requires b <= |s|
    requires forall i | b <= i < |s| :: IsPyWhitespace(s[i])
    ensures IsBlank(s[b..])
  {
    forall i | 0 <= i < |s| - b ensures IsPyWhitespace(s[b..][i]) {
      assert s[b..][i] == s[b + i];
    }
  }

  /** A prefix r of a suffix l of s is the slice of s that starts where l
      does, and what follows r in l is what follows it in s. */
  lemma TrimmedSlice(s: string, l: string, r: string)
    requires |l| <= |s| && l == s[|s| - |l|..]
    requires |r| <= |l| && r == l[..|r|]
    ensures r == s[|s| - |l|..|s| - |l| + |r|]
    ensures s[|s| - |l| + |r|..] == l[|r|..]
  {
  }

  /** The entity's name invariant: not blank and at most 100 characters,
      counted on the name as given, not on its stripped form. */
  predicate ValidName(name: string) {
    !IsBlank(name) && |name| <= MaxNameLength
  }

  /** The name checks of `__post_init__` and `change_name`, in their order
      (user.py:22-26, 30-34): blank first, then length. */
  function CheckName(name: string): (r: Outcome)
    ensures r == Fail(NameRequired) <==> IsBlank(name)
    ensures r == Fail(NameTooLong) <==> !IsBlank(name) && |name| > MaxNameLength
    ensures r == Pass <==> ValidName(name)
  {
    if name == [] || |Strip(name)| == 0 then Fail(NameRequired)
    else if |name| > MaxNameLength then Fail(NameTooLong)
    else Pass
  }

  /** The two names of the entity tests ("" is required, 101 characters
      are too many), and two whitespace examples of this model's own: a
      name of spaces and tabs is blank, one letter between spaces is not. */
  lemma CheckNameTestExamples()
    ensures CheckName("") == Fail(NameRequired)
    ensures CheckName(Repeat('a', 101)) == Fail(NameTooLong)
    ensures CheckName(" \t ") == Fail(NameRequired)
    ensures CheckName(" a ") == Pass
  {
    assert !IsPyWhitespace(Repeat('a', 101)[0]);
    assert !IsPyWhitespace(" a "[1]);
  }

  /** The state of a User at one moment: what the repository stores, what
      `find_*` copies and what the transfer objects report. */
  datatype UserRecord = UserRecord(id: Option<int>, email: Email, name: string, createdAt: int, updatedAt: int)
  {
    /** The entity invariant, held from construction on. */
    predicate Valid() {
      ValidName(name) && IsValidEmail(email.value)
    }

    /** `is_active` (user.py:44-47). */
    predicate IsActive()
      ensures IsActive()
    {
      true
    }
  }

  class User {
    var id: Option<int>
    var email: Email
    var name: string
    var createdAt: int
    var updatedAt: int

    function Record(): UserRecord
      reads this
    {
      UserRecord(id, email, name, createdAt, updatedAt)
    }

    ghost predicate Valid()
      reads this
    {
      Record().Valid()
    }

    /** Builds an entity whose name already passed `CheckName`. */
    constructor (id: Option<int>, email: Email, name: string, createdAt: int, updatedAt: int)
      requires IsValidEmail(email.value) && CheckName(name) == Pass
      ensures Valid()
      ensures Record() == UserRecord(id, email, name, createdAt, updatedAt)
    {
      this.id := id;
      this.email := email;
      this.name := name;
      this.createdAt := createdAt;
      this.updatedAt := updatedAt;
    }

    /** `User(...)`: the dataclass constructor, which raises when the name
      check fails (user.py:20-26). The email is an `Email` value, valid by
      construction. */
    static method New(id: Option<int>, email: Email, name: string, createdAt: int, updatedAt: int)
      returns (r: Result<User>)
      requires IsValidEmail(email.value)
      ensures CheckName(name).Fail? ==> r == Err(CheckName(name).error)
      ensures CheckName(name).Pass? ==> r.Ok? && fresh(r.value) && r.value.Valid()
      ensures r.Ok? ==> r.value.Record() == UserRecord(id, email, name, createdAt, updatedAt)
    {
      var check := CheckName(name);
      if check.Fail? {
        return Err(check.error);
      }
      var u := new User(id, email, name, createdAt, updatedAt);
      return Ok(u);
    }

    /** `change_name` (user.py:28-37): on a valid name, sets the name as
      given (not stripped) and reads the clock into `updated_at`; on an
      invalid one, raises and changes nothing, the clock included. */
    method ChangeName(newName: string, clock: Clock) returns (r: Outcome)
      requires Valid()
      modifies this, clock
      ensures Valid()
      ensures r == CheckName(newName)
      ensures r.Fail? ==> unchanged(this, clock)
      ensures r.Pass? ==> Record() == old(Record()).(name := newName, updatedAt := clock.time)
      ensures r.Pass? ==> old(clock.time) < clock.time
    {
      r := CheckName(newName);
      if r.Fail? {
        return;
      }
      ghost var before := Record();
      name := newName;
      updatedAt := clock.Now();
      assert Record() == before.(name := newName, updatedAt := clock.time);
    }

    /** `change_email` (user.py:39-42): always succeeds; no uniqueness check
      at this layer. */
    method ChangeEmail(newEmail: Email, clock: Clock)
      requires Valid() && IsValidEmail(newEmail.value)
      modifies this, clock
      ensures Valid()
      ensures Record() == old(Record()).(email := newEmail, updatedAt := clock.time)
      ensures old(clock.time) < clock.time
    {
      email := newEmail;
      updatedAt := clock.Now();
    }
  }
}
