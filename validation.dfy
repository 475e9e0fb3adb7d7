/** The ordered registration checks of `validateRegister`. */
module Validation {
  import opened Common

  /** The `options` argument of `register` (UsernamePasswordInput). */
  datatype UsernamePasswordInput = UsernamePasswordInput(username: string, email: string, password: string)

  const UsernameTooShort := FieldError("username", "length must be greater than 2")
  const UsernameHasAt := FieldError("username", "username cannot include '@'")
  const InvalidEmail := FieldError("email", "invalid email")
  const PasswordTooShort := FieldError("password", "length must be greater than 3")

  /** Input that none of the four checks rejects. */
  predicate Acceptable(options: UsernamePasswordInput)
  {
    && |options.username| > 2
    && '@' !in options.username
    && '@' in options.email
    && |options.password| > 3
  }

  /**
   * The chain of tests: the first failing one returns a one-element error
   * list, and `None` (the source's `null`) means the input may register.
   */
  function ValidateRegister(options: UsernamePasswordInput): (r: Option<seq<FieldError>>)
    ensures r.None? <==> Acceptable(options)
    ensures r.Some? ==> |r.value| == 1
  {
    if |options.username| <= 2 then Some([UsernameTooShort])
    else if '@' in options.username then Some([UsernameHasAt])
    else if '@' !in options.email then Some([InvalidEmail])
    else if |options.password| <= 3 then Some([PasswordTooShort])
    else None
  }

  // An independent reference: the same checks as an ordered rule table,
  // scanned for the first rule the input breaks.

  datatype Rule = UsernameLength | UsernameWithoutAt | EmailWithAt | PasswordLength

  const Rules: seq<Rule> := [UsernameLength, UsernameWithoutAt, EmailWithAt, PasswordLength]

  predicate Passes(rule: Rule, options: UsernamePasswordInput)
  {
    match rule
    case UsernameLength => |options.username| > 2
    case UsernameWithoutAt => '@' !in options.username
    case EmailWithAt => '@' in options.email
    case PasswordLength => |options.password| > 3
  }

  function ErrorFor(rule: Rule): FieldError
  {
    match rule
    case UsernameLength => UsernameTooShort
    case UsernameWithoutAt => UsernameHasAt
    case EmailWithAt => InvalidEmail
    case PasswordLength => PasswordTooShort
  }

  /** The position of the first rule in `rules` that `options` breaks, if any. */
  function FirstFailure(rules: seq<Rule>, options: UsernamePasswordInput): (r: Option<nat>)
    ensures r.None? <==> forall i :: 0 <= i < |rules| ==> Passes(rules[i], options)
    ensures r.Some? ==> r.value < |rules| && !Passes(rules[r.value], options)
    ensures r.Some? ==> forall i :: 0 <= i < r.value ==> Passes(rules[i], options)
  {
    if rules == [] then None
    else if !Passes(rules[0], options) then Some(0)
    else
      match FirstFailure(rules[1..], options)
      case None => None
      case Some(k) => Some(k + 1)
  }

  /**
   * `validateRegister` reports exactly the error of the first broken rule in
   * the order username length, username without '@', email with '@',
   * password length, and `null` when no rule is broken.
   */
  lemma {:induction false} FirstFailureWins(options: UsernamePasswordInput)
    ensures FirstFailure(Rules, options).None? ==> ValidateRegister(options) == None
    ensures FirstFailure(Rules, options).Some? ==>
              ValidateRegister(options) == Some([ErrorFor(Rules[FirstFailure(Rules, options).value])])
  {
    var r := FirstFailure(Rules, options);
    if r.Some? {
      var k := r.value;
      assert k == 0 || Passes(Rules[0], options);
      assert k <= 1 || Passes(Rules[1], options);
      assert k <= 2 || Passes(Rules[2], options);
    } else {
      assert Passes(Rules[0], options) && Passes(Rules[1], options);
      assert Passes(Rules[2], options) && Passes(Rules[3], options);
    }
  }

  /** The four exact error results, each under the checks that precede it. */
  lemma ValidateRegisterCases(options: UsernamePasswordInput)
    ensures |options.username| <= 2 ==> ValidateRegister(options) == Some([FieldError("username", "length must be greater than 2")])
    ensures |options.username| > 2 && '@' in options.username ==>
              ValidateRegister(options) == Some([FieldError("username", "username cannot include '@'")])
    ensures |options.username| > 2 && '@' !in options.username && '@' !in options.email ==>
              ValidateRegister(options) == Some([FieldError("email", "invalid email")])
    ensures |options.username| > 2 && '@' !in options.username && '@' in options.email && |options.password| <= 3 ==>
              ValidateRegister(options) == Some([FieldError("password", "length must be greater than 3")])
  {
  }
}
