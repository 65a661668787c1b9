/**
 * Three age validators over the same text: one nesting try blocks, one
 * raising an exception on success and dispatching on its message, and a
 * plain one. Console input and output are replaced by a text parameter and
 * a returned message; Python's int() is the parameter `parse`.
 */
module AgeValidation {
  import opened Wrappers
  import opened PyStr

  /** What a validator returns together with the line it prints, if any. */
  datatype Reply = Reply(age: Option<int>, printed: Option<string>)

  const MaxAge := 150

  /** The text is non-empty, parses, and the number lies in 0..150. */
  predicate Accepts(parse: string -> Option<int>, text: string, a: int) {
    text != "" && parse(text) == Some(a) && 0 <= a <= MaxAge
  }

  /** The nested try/except version. */
  function ReadAge(parse: string -> Option<int>, text: string): (r: Reply)
    ensures forall a :: r.age == Some(a) <==> Accepts(parse, text, a)
    ensures text == "" ==> r == Reply(None, Some("Empty input!"))
    ensures text != "" && parse(text).None? ==> r == Reply(None, Some("Not a number!"))
    ensures r.age.None? <==> r.printed.Some?
  {
    if text == "" then Reply(None, Some("Empty input!"))
    else match parse(text)
      case None => Reply(None, Some("Not a number!"))
      case Some(age) =>
        if age < 0 then Reply(None, Some("Age cannot be negative!"))
        else if age > MaxAge then Reply(None, Some("That's too old!"))
        else Reply(Some(age), None)
  }

  /** Raises ValueError("success") when valid and branches on the message. */
  function ReadAgeEvenWorse(parse: string -> Option<int>, text: string): (r: Reply)
    ensures forall a :: r.age == Some(a) <==> parse(text) == Some(a) && 0 <= a <= MaxAge
    ensures parse(text).None? ==> r == Reply(None, Some("Invalid age!"))
    ensures r.age.None? <==> r.printed.Some?
  {
    match parse(text)
    case None => Reply(None, Some("Invalid age!"))
    case Some(age) =>
      var message := if age >= 0 && age <= MaxAge then "success" else "invalid_range";
      if message == "success" then Reply(Some(age), None)
      else Reply(None, Some("Age must be between 0 and 150!"))
  }

  /** The plain version. */
  function ReadAgeCorrectly(parse: string -> Option<int>, text: string): (r: Reply)
    ensures forall a :: r.age == Some(a) <==> Accepts(parse, text, a)
    ensures r.age.None? <==> r.printed.Some?
  {
    if text == "" then Reply(None, Some("Empty input!"))
    else match parse(text)
      case None => Reply(None, Some("Not a number!"))
      case Some(a) =>
        if a < 0 then Reply(None, Some("Age cannot be negative!"))
        else if a > MaxAge then Reply(None, Some("That's too old!"))
        else Reply(Some(a), None)
  }

  /**
   * The three validators return the same age for the same text, and the
   * first and third also print the same line. The even-worse one skips the
   * empty check, so it agrees only because int("") fails.
   */
  lemma ValidatorsAgree(parse: string -> Option<int>, text: string)
    requires parse("").None?
    ensures ReadAge(parse, text) == ReadAgeCorrectly(parse, text)
    ensures ReadAgeEvenWorse(parse, text).age == ReadAge(parse, text).age
  {
    if text == "" {
      assert ReadAgeEvenWorse(parse, text).age.None?;
    }
  }

  /** Python's int() on decimal text. */
  function PyInt(text: string): (r: Option<int>)
    ensures r.Some? <==> ParseInt(text).Success?
  {
    match ParseInt(text)
    case Success(n) => Some(n)
    case Failure(_) => None
  }

  /** With the real int(), the three validators agree on every text. */
  lemma ValidatorsAgreeOnInt(text: string)
    ensures ReadAge(PyInt, text) == ReadAgeCorrectly(PyInt, text)
    ensures ReadAgeEvenWorse(PyInt, text).age == ReadAge(PyInt, text).age
  {
    ParseIntEmpty();
    ValidatorsAgree(PyInt, text);
  }

  /** Every accepted age is the value of its own decimal text. */
  lemma AcceptsDecimal(a: int)
    requires 0 <= a <= MaxAge
    ensures ReadAge(PyInt, IntToStr(a)).age == Some(a)
  {
    ParseIntToStr(a);
  }
}
