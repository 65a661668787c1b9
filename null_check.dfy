/**
 * Three ways to read `user.name.upper()` with "UNKNOWN" as the fallback for
 * a missing user or a missing name. Python's dynamic attribute access is
 * written out: reading `.name` on None and calling `.upper()` on None both
 * raise AttributeError, modelled as a Failure.
 */
module NullCheck {
  import opened Wrappers
  import opened PyStr

  /** A user record whose name may be None. */
  datatype User = User(name: Option<string>)

  const Unknown := "UNKNOWN"

  /** `user.name`; AttributeError when user is None. */
  function NameOf(user: Option<User>): (r: Result<Option<string>>)
    ensures r.Success? <==> user.Some?
    ensures r.Success? ==> r.value == user.value.name
  {
    match user
    case None => Failure(Error(AttributeError, "'NoneType' object has no attribute 'name'"))
    case Some(u) => Success(u.name)
  }

  /** `name.upper()`; AttributeError when name is None. */
  function UpperOf(name: Option<string>): (r: Result<string>)
    ensures r.Success? <==> name.Some?
    ensures r.Success? ==> r.value == Upper(name.value)
  {
    match name
    case None => Failure(Error(AttributeError, "'NoneType' object has no attribute 'upper'"))
    case Some(s) => Success(Upper(s))
  }

  /**
   * The exception-driven version: touch `.name` to provoke AttributeError,
   * then test `user is None` (raising ValueError), then raise and catch a
   * ValueError for a None name, and only then upper-case.
   */
  function GetUppercaseName(user: Option<User>): (r: string)
    ensures user.None? ==> r == Unknown
    ensures user.Some? && user.value.name.None? ==> r == Unknown
    ensures user.Some? && user.value.name.Some? ==> r == Upper(user.value.name.value)
  {
    match NameOf(user)
    case Failure(_) => Unknown
    case Success(_) =>
      if user.None? then
        Unknown
      else if user.value.name.None? then
        Unknown
      else
        Upper(user.value.name.value)
  }

  /**
   * The `if user is None: raise ValueError` test in the first try block
   * only runs after `.name` was read without error, so it never fires.
   */
  lemma NoneCheckIsDead(user: Option<User>)
    ensures NameOf(user).Success? ==> !user.None?
  {
  }

  /** Plain if statements. */
  function GetUppercaseNameCorrect(user: Option<User>): (r: string)
    ensures r == Unknown <==> user.None? || user.value.name.None? || Upper(user.value.name.value) == Unknown
    ensures r != Unknown ==> r == Upper(user.value.name.value)
  {
    if user.None? then Unknown
    else if user.value.name.None? then Unknown
    else Upper(user.value.name.value)
  }

  /** EAFP: try the whole `user.name.upper()` and catch AttributeError. */
  function GetUppercaseNameEafp(user: Option<User>): (r: string)
    ensures r == Unknown <==> user.None? || user.value.name.None? || Upper(user.value.name.value) == Unknown
    ensures r != Unknown ==> r == Upper(user.value.name.value)
  {
    match NameOf(user)
    case Failure(_) => Unknown
    case Success(name) =>
      match UpperOf(name)
      case Failure(_) => Unknown
      case Success(s) => s
  }

  /** The three variants return the same string for every user. */
  lemma VariantsAgree(user: Option<User>)
    ensures GetUppercaseName(user) == GetUppercaseNameCorrect(user)
    ensures GetUppercaseNameEafp(user) == GetUppercaseNameCorrect(user)
  {
  }

  lemma Examples()
    ensures GetUppercaseName(None) == "UNKNOWN"
    ensures GetUppercaseName(Some(User(None))) == "UNKNOWN"
    ensures GetUppercaseName(Some(User(Some("alice")))) == "ALICE"
  {
  }
}
