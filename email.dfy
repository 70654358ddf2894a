/** The `Email` value object (src/domain/value_objects/email.py): a string
    validated once, at construction, and compared and hashed by value.

    The address pattern `^[a-zA-Z0-9._%+-]+@[a-zA-Z0-9.-]+\.[a-zA-Z]{2,}$`
    is given twice: `MatchesAddress` says what the regular expression
    accepts (some split of the string into local part, `@`, domain name,
    `.` and top-level label), and `SplitAddress` computes the split the way
    a matcher finds it (the first `@` and the last `.`). The two are proved
    to agree, and the split is proved to be unique. */
module EmailValue {
  import opened Errors

  /** Longest accepted address (email.py:24). */
  const MaxLength: nat := 254

  predicate IsAsciiLetter(c: char) { 'a' <= c <= 'z' || 'A' <= c <= 'Z' }

  predicate IsAsciiDigit(c: char) { '0' <= c <= '9' }

  /** `[a-zA-Z0-9._%+-]` */
  predicate IsLocalChar(c: char) {
    IsAsciiLetter(c) || IsAsciiDigit(c) || c == '.' || c == '_' || c == '%' || c == '+' || c == '-'
  }

  /** `[a-zA-Z0-9.-]` */
  predicate IsDomainChar(c: char) {
    IsAsciiLetter(c) || IsAsciiDigit(c) || c == '.' || c == '-'
  }

  predicate AllLocal(s: string) { forall i | 0 <= i < |s| :: IsLocalChar(s[i]) }

  predicate AllDomain(s: string) { forall i | 0 <= i < |s| :: IsDomainChar(s[i]) }

  predicate AllLetters(s: string) { forall i | 0 <= i < |s| :: IsAsciiLetter(s[i]) }

  /** `s[..at]` is the local part, `s[at]` the `@`, `s[at + 1..dot]` the
      domain name, `s[dot]` the `.` and `s[dot + 1..]` the top-level label
      of at least two letters: one way for the pattern's body to match all of s. */
  predicate IsAddressSplit(s: string, at: int, dot: int) {
    && 0 < at && at + 1 < dot && dot + 2 < |s|
    && s[at] == '@' && s[dot] == '.'
    && AllLocal(s[..at]) && AllDomain(s[at + 1..dot]) && AllLetters(s[dot + 1..])
  }

  /** The pattern's body (without anchors) matches the whole of s. */
  ghost predicate MatchesAddress(s: string) {
    exists at, dot :: IsAddressSplit(s, at, dot)
  }

  /** What `re.match` accepts: the match starts at the beginning, and `$`
      matches at the end of the string or just before a final newline. */
  ghost predicate RegexMatches(s: string) {
    || MatchesAddress(s)
    || (|s| > 0 && s[|s| - 1] == '\n' && MatchesAddress(s[..|s| - 1]))
  }

  /** Index of the first occurrence of c in s. */
  function FirstIndex(s: string, c: char): (r: Option<nat>)
    ensures r.Some? ==> r.value < |s| && s[r.value] == c
    ensures r.Some? ==> forall j | 0 <= j < r.value :: s[j] != c
    ensures r.None? ==> forall j | 0 <= j < |s| :: s[j] != c
  {
    if |s| == 0 then None
    else if s[0] == c then Some(0)
    else
      match FirstIndex(s[1..], c)
      case None => None
      case Some(i) => Some(i + 1)
  }

  /** Index of the last occurrence of c in s. */
  function LastIndex(s: string, c: char): (r: Option<nat>)
    ensures r.Some? ==> r.value < |s| && s[r.value] == c
    ensures r.Some? ==> forall j | r.value < j < |s| :: s[j] != c
    ensures r.None? ==> forall j | 0 <= j < |s| :: s[j] != c
  {
    if |s| == 0 then None
    else
      match LastIndex(s[1..], c)
      case Some(i) => Some(i + 1)
      case None => if s[0] == c then Some(0) else None
  }

  /** Any split of an address sits at the first `@`: the local part holds
      no `@`. */
  lemma SplitIsAtFirstAt(s: string, at: int, dot: int)
    requires IsAddressSplit(s, at, dot)
    ensures FirstIndex(s, '@') == Some(at)
  {
    forall j | 0 <= j < at ensures s[j] != '@' {
      assert s[..at][j] == s[j];
    }
  }

  /** Any split of an address sits at the last `.`: the top-level label
      holds no `.`. */
  lemma SplitIsAtLastDot(s: string, at: int, dot: int)
    requires IsAddressSplit(s, at, dot)
    ensures LastIndex(s, '.') == Some(dot)
  {
    forall j | dot < j < |s| ensures s[j] != '.' {
      assert s[dot + 1..][j - dot - 1] == s[j];
    }
  }

  /** Any split of an address sits at the first `@` and the last `.`. */
  lemma SplitIsFirstAtLastDot(s: string, at: int, dot: int)
    requires IsAddressSplit(s, at, dot)
    ensures FirstIndex(s, '@') == Some(at)
    ensures LastIndex(s, '.') == Some(dot)
  {
    SplitIsAtFirstAt(s, at, dot);
    SplitIsAtLastDot(s, at, dot);
  }

  /** Two splits of the same string are the same split. */
  lemma SplitIsUnique(s: string, at: int, dot: int, at': int, dot': int)
    requires IsAddressSplit(s, at, dot) && IsAddressSplit(s, at', dot')
    ensures at == at' && dot == dot'
  {
    SplitIsFirstAtLastDot(s, at, dot);
    SplitIsFirstAtLastDot(s, at', dot');
  }

  /** The split a matcher finds, if the pattern's body matches all of s. */
  function SplitAddress(s: string): (r: Option<(nat, nat)>)
    ensures r.Some? ==> IsAddressSplit(s, r.value.0, r.value.1)
    ensures r.Some? <==> MatchesAddress(s)
  {
    var f, l := FirstIndex(s, '@'), LastIndex(s, '.');
    if f.Some? && l.Some? && IsAddressSplit(s, f.value, l.value) then
      Some((f.value, l.value))
    else
      assert !MatchesAddress(s) by {
        forall at, dot | IsAddressSplit(s, at, dot) ensures false {
          SplitIsFirstAtLastDot(s, at, dot);
        }
      }
      None
  }

  /** `re.match(pattern, s)` is not None (email.py:20-21). */
  predicate PatternMatches(s: string)
    ensures PatternMatches(s) <==> RegexMatches(s)
  {
    || SplitAddress(s).Some?
    || (|s| > 0 && s[|s| - 1] == '\n' && SplitAddress(s[..|s| - 1]).Some?)
  }

  /** The value object: only `Create` builds one that the rest of the
      model treats as an email. */
  datatype Email = Email(value: string)

  /** `Email(s)`: the three checks of `__post_init__`, in their order
      (email.py:14-25). */
  function Create(s: string): (r: Result<Email>)
    ensures s == [] ==> r == Err(EmailRequired)
    ensures s != [] && !RegexMatches(s) ==> r == Err(EmailInvalidFormat)
    ensures s != [] && RegexMatches(s) && |s| > MaxLength ==> r == Err(EmailTooLong)
    ensures r.Ok? <==> s != [] && RegexMatches(s) && |s| <= MaxLength
    ensures r.Ok? ==> r.value.value == s
  {
    if |s| == 0 then Err(EmailRequired)
    else if !PatternMatches(s) then Err(EmailInvalidFormat)
    else if |s| > MaxLength then Err(EmailTooLong)
    else Ok(Email(s))
  }

  /** s is the value of some Email that `Create` accepts. */
  predicate IsValidEmail(s: string) { Create(s).Ok? }

  /** `str(email)` (email.py:27-28). */
  function ToString(e: Email): string { e.value }

  /** `str(Email(s)) == Email(s).value == s` for every accepted s. */
  lemma StrRoundTrip(s: string)
    requires Create(s).Ok?
    ensures ToString(Create(s).value) == s == Create(s).value.value
  {
  }

  /** The `@` at the split is the only one in the string. */
  lemma SplitHasSingleAt(s: string, at: int, dot: int)
    requires IsAddressSplit(s, at, dot)
    ensures forall j | 0 <= j < |s| && s[j] == '@' :: j == at
  {
    forall j | 0 <= j < at ensures s[j] != '@' {
      assert s[..at][j] == s[j];
    }
    forall j | at < j < dot ensures s[j] != '@' {
      assert s[at + 1..dot][j - at - 1] == s[j];
    }
    forall j | dot < j < |s| ensures s[j] != '@' {
      assert s[dot + 1..][j - dot - 1] == s[j];
    }
  }

  /** The first occurrence of c is at k when s[k] is c and no earlier
      character is. */
  lemma FirstIndexAt(s: string, c: char, k: nat)
    requires k < |s| && s[k] == c
    requires forall j | 0 <= j < k :: s[j] != c
    ensures FirstIndex(s, c) == Some(k)
  {
  }

  /** A final newline after an address adds no `@`. */
  lemma NewlineKeepsSingleAt(s: string, at: int, dot: int)
    requires |s| > 0 && s[|s| - 1] == '\n'
    requires IsAddressSplit(s[..|s| - 1], at, dot)
    ensures s[at] == '@'
    ensures forall j | 0 <= j < |s| && s[j] == '@' :: j == at
  {
    var body := s[..|s| - 1];
    SplitHasSingleAt(body, at, dot);
    forall j | 0 <= j < |s| - 1 ensures s[j] == body[j] {
    }
  }

  /** Every accepted address has between 1 and 254 characters and exactly
      one `@`, which follows a non-empty local part. */
  lemma ValidEmailShape(s: string)
    requires IsValidEmail(s)
    ensures 1 <= |s| <= MaxLength
    ensures FirstIndex(s, '@').Some? && 0 < FirstIndex(s, '@').value
    ensures forall j | 0 <= j < |s| && s[j] == '@' :: j == FirstIndex(s, '@').value
  {
    assert PatternMatches(s);
    var at: nat;
    if SplitAddress(s).Some? {
      var dot;
      at, dot := SplitAddress(s).value.0, SplitAddress(s).value.1;
      SplitHasSingleAt(s, at, dot);
    } else {
      var dot;
      at, dot := SplitAddress(s[..|s| - 1]).value.0, SplitAddress(s[..|s| - 1]).value.1;
      NewlineKeepsSingleAt(s, at, dot);
    }
    FirstIndexAt(s, '@', at);
  }

  /** A Python object that an Email may be compared with. */
  datatype PyObject = EmailObject(email: Email) | StrObject(text: string) | OtherObject

  /** `email == other` (email.py:30-33). */
  function Equals(e: Email, other: PyObject): bool {
    match other
    case EmailObject(o) => e.value == o.value
    case _ => false
  }

  /** Two Emails are equal exactly when their values are equal. */
  lemma EqualsIffSameValue(a: Email, b: Email)
    ensures Equals(a, EmailObject(b)) <==> a.value == b.value
    ensures Equals(a, EmailObject(b)) <==> a == b
  {
  }

  /** An Email never equals something that is not an Email, not even the
      string it holds. */
  lemma NeverEqualsNonEmail(e: Email, other: PyObject)
    requires !other.EmailObject?
    ensures !Equals(e, other)
  {
  }

  /** `hash(email)` is the hash of its string (email.py:35-36). Python
      salts string hashes per process, so the string hash is a parameter. */
  function Hash(e: Email, strHash: string -> int): int { strHash(e.value) }

  /** Equal Emails have equal hashes, whatever the string hash. */
  lemma EqualEmailsHashEqually(a: Email, b: Email, strHash: string -> int)
    requires Equals(a, EmailObject(b))
    ensures Hash(a, strHash) == Hash(b, strHash)
  {
  }

  /** No split exists without an `@` after the first character. */
  lemma NoSplitUnlessAtAfterStart(s: string)
    requires FirstIndex(s, '@').None? || FirstIndex(s, '@') == Some(0)
    ensures !MatchesAddress(s)
  {
    forall at, dot | IsAddressSplit(s, at, dot) ensures false {
      SplitIsAtFirstAt(s, at, dot);
    }
  }

  /** The string `c` repeated n times (Python's `c * n`). */
  function Repeat(c: char, n: nat): (r: string)
    ensures |r| == n && forall i | 0 <= i < n :: r[i] == c
  {
    if n == 0 then [] else [c] + Repeat(c, n - 1)
  }

  /** Any non-empty local part followed by "@example.com" splits at that
      `@` and at the `.` before "com". */
  lemma ExampleComSplit(local: string)
    requires |local| > 0 && AllLocal(local)
    ensures IsAddressSplit(local + "@example.com", |local|, |local| + 8)
  {
    var tail := "@example.com";
    var s := local + tail;
    var n := |local|;
    assert s[..n] == local;
    assert AllDomain(tail[1..8]) && AllLetters(tail[9..]);
    assert s[n + 1..n + 8] == tail[1..8];
    assert s[n + 9..] == tail[9..];
  }

  /** The accepted address of the unit tests. */
  lemma AcceptsTestAddress()
    ensures Create("test@example.com") == Ok(Email("test@example.com"))
  {
    assert AllLocal("test");
    ExampleComSplit("test");
    assert "test" + "@example.com" == "test@example.com";
  }

  /** No split exists in a string without an `@`. */
  lemma NoSplitWithoutAt(s: string)
    requires '@' !in s
    ensures !RegexMatches(s)
  {
  }

  /** No split exists when the string does not end in a letter. */
  lemma NoSplitWithoutFinalLetter(s: string)
    requires |s| > 0 && !IsAsciiLetter(s[|s| - 1]) && s[|s| - 1] != '\n'
    ensures !RegexMatches(s)
  {
  }

  /** The malformed addresses of the unit tests without a local part
      followed by `@` are rejected as malformed. */
  lemma RejectsTestAddressesWithoutLocalPart()
    ensures Create("invalid-email") == Err(EmailInvalidFormat)
    ensures Create("test.example.com") == Err(EmailInvalidFormat)
    ensures Create("@example.com") == Err(EmailInvalidFormat)
  {
    NoSplitWithoutAt("invalid-email");
    NoSplitWithoutAt("test.example.com");
    NoSplitUnlessAtAfterStart("@example.com");
  }

  /** The malformed addresses of the unit tests with an incomplete domain
      are rejected as malformed. */
  lemma RejectsTestAddressesWithIncompleteDomain()
    ensures Create("test@") == Err(EmailInvalidFormat)
    ensures Create("test@example.") == Err(EmailInvalidFormat)
    ensures Create("test@.com") == Err(EmailInvalidFormat)
  {
    NoSplitWithoutFinalLetter("test@");
    NoSplitWithoutFinalLetter("test@example.");
    NoSplitWithDomainNameEmpty("test", "com");
    assert "test" + "@." + "com" == "test@.com";
  }

  /** No split exists when the `@` is directly followed by the only `.`. */
  lemma NoSplitWithDomainNameEmpty(local: string, tld: string)
    requires '@' !in local && '.' !in tld
    requires |tld| > 0 && tld[|tld| - 1] != '\n'
    ensures !RegexMatches(local + "@." + tld)
  {
    var s := local + "@." + tld;
    var n := |local|;
    forall j | 0 <= j < n ensures s[j] != '@' {
      assert s[j] == local[j];
    }
    FirstIndexAt(s, '@', n);
    forall at, dot | IsAddressSplit(s, at, dot) ensures false {
      SplitIsAtFirstAt(s, at, dot);
    }
  }

  /** The well-formed 262-character address of the unit tests is rejected
      as too long: the format check passes, the length check fails. */
  lemma RejectsLongTestAddress()
    ensures Create(Repeat('a', 250) + "@example.com") == Err(EmailTooLong)
  {
    ExampleComSplit(Repeat('a', 250));
  }
}
