/** `handlers.AuthHandler`: registration and login as chains of early
    returns. Their inputs are the decoded body (`None` when the JSON does not
    decode), the validator's verdict on it, and the answers of the user
    service, the password comparison and the token issuer, each given as a
    function. */
module AuthHandlers {
  import opened Errors
  import opened Models
  import opened Helper
  import opened Validation

  const InvalidBody := "Invalid request body"
  const UsernameTaken := "Username is already taken"
  const CreateError := "Error creating user"
  const BadCredentials := "Invalid username or password"
  const TokenError := "Internal server error"

  /** Register. Any lookup answer other than `UserNotFound` (a user that
      exists, but also a failed lookup) is reported as a taken username, and
      nothing is created. */
  function Register(body: Option<User>, check: User -> ValidatorResult,
                    lookup: string -> Outcome<User>, create: User -> Outcome<User>): (r: Response)
    ensures body.None? ==> r == Reply(StatusBadRequest, InvalidBody)
    ensures body.Some? && Messages(check(body.value)) != [] ==>
      r == Response(StatusBadRequest, ErrorList(Messages(check(body.value))))
    ensures body.Some? && Messages(check(body.value)) == [] && !Is(lookup(body.value.username).err, UserNotFound) ==>
      r == Reply(StatusConflict, UsernameTaken)
    ensures r.status == StatusCreated <==>
      body.Some? && Messages(check(body.value)) == [] && Is(lookup(body.value.username).err, UserNotFound)
      && create(body.value).err.None?
    ensures r.status == StatusCreated ==> r.body == UserRecord(create(body.value).value)
    ensures body.Some? && Messages(check(body.value)) == [] && Is(lookup(body.value.username).err, UserNotFound)
            && create(body.value).err.Some? ==>
      r == Reply(StatusInternalServerError, CreateError)
  {
    if body.None? then Reply(StatusBadRequest, InvalidBody)
    else
      var user := body.value;
      var messages := Messages(check(user));
      if messages != [] then Response(StatusBadRequest, ErrorList(messages))
      else if !Is(lookup(user.username).err, UserNotFound) then Reply(StatusConflict, UsernameTaken)
      else
        var created := create(user);
        if created.err.Some? then Reply(StatusInternalServerError, CreateError)
        else Response(StatusCreated, UserRecord(created.value))
  }

  /** Login, as written: the token is issued for the id decoded from the
      request body, not for the id of the user the lookup found. A lookup
      that fails other than with `UserNotFound` is not reported: the password
      is compared against whatever user came back. */
  function Login(body: Option<User>, check: User -> ValidatorResult, lookup: string -> Outcome<User>,
                 compare: (string, string) -> bool, issue: int -> Outcome<string>): (r: Response)
    ensures body.None? ==> r == Reply(StatusBadRequest, InvalidBody)
    ensures body.Some? && Messages(check(body.value)) != [] ==>
      r == Response(StatusBadRequest, ErrorList(Messages(check(body.value))))
    ensures body.Some? && Messages(check(body.value)) == [] ==>
      (r == Reply(StatusBadRequest, BadCredentials) <==>
        Is(lookup(body.value.username).err, UserNotFound)
        || !compare(body.value.password, lookup(body.value.username).value.password))
    ensures r.status == StatusOK <==>
      body.Some? && Messages(check(body.value)) == [] && !Is(lookup(body.value.username).err, UserNotFound)
      && compare(body.value.password, lookup(body.value.username).value.password)
      && issue(body.value.id).err.None?
    ensures r.status == StatusOK ==> r.body == Token(issue(body.value.id).value)
    ensures r.status == StatusInternalServerError <==>
      body.Some? && Messages(check(body.value)) == [] && !Is(lookup(body.value.username).err, UserNotFound)
      && compare(body.value.password, lookup(body.value.username).value.password)
      && issue(body.value.id).err.Some?
    ensures r.status == StatusInternalServerError ==> r == Reply(StatusInternalServerError, TokenError)
  {
    if body.None? then Reply(StatusBadRequest, InvalidBody)
    else
      var user := body.value;
      var messages := Messages(check(user));
      if messages != [] then Response(StatusBadRequest, ErrorList(messages))
      else
        var existing := lookup(user.username);
        if Is(existing.err, UserNotFound) then Reply(StatusBadRequest, BadCredentials)
        else if !compare(user.password, existing.value.password) then Reply(StatusBadRequest, BadCredentials)
        else
          var token := issue(user.id);
          if token.err.Some? then Reply(StatusInternalServerError, TokenError)
          else Response(StatusOK, Token(token.value))
  }

  /** Login with the token issued for the id of the user the lookup found,
      the behaviour a login endpoint is evidently meant to have. Every other
      step is as in `Login`. */
  function LoginAsIntended(body: Option<User>, check: User -> ValidatorResult, lookup: string -> Outcome<User>,
                           compare: (string, string) -> bool, issue: int -> Outcome<string>): (r: Response)
    ensures body.None? ==> r == Reply(StatusBadRequest, InvalidBody)
    ensures body.Some? && Messages(check(body.value)) != [] ==>
      r == Response(StatusBadRequest, ErrorList(Messages(check(body.value))))
    ensures body.Some? && Messages(check(body.value)) == [] ==>
      (r == Reply(StatusBadRequest, BadCredentials) <==>
        Is(lookup(body.value.username).err, UserNotFound)
        || !compare(body.value.password, lookup(body.value.username).value.password))
    ensures r.status == StatusOK <==>
      body.Some? && Messages(check(body.value)) == [] && !Is(lookup(body.value.username).err, UserNotFound)
      && compare(body.value.password, lookup(body.value.username).value.password)
      && issue(lookup(body.value.username).value.id).err.None?
    ensures r.status == StatusOK ==> r.body == Token(issue(lookup(body.value.username).value.id).value)
    ensures r.status == StatusInternalServerError <==>
      body.Some? && Messages(check(body.value)) == [] && !Is(lookup(body.value.username).err, UserNotFound)
      && compare(body.value.password, lookup(body.value.username).value.password)
      && issue(lookup(body.value.username).value.id).err.Some?
    ensures r.status == StatusInternalServerError ==> r == Reply(StatusInternalServerError, TokenError)
  {
    if body.None? then Reply(StatusBadRequest, InvalidBody)
    else
      var user := body.value;
      var messages := Messages(check(user));
      if messages != [] then Response(StatusBadRequest, ErrorList(messages))
      else
        var existing := lookup(user.username);
        if Is(existing.err, UserNotFound) then Reply(StatusBadRequest, BadCredentials)
        else if !compare(user.password, existing.value.password) then Reply(StatusBadRequest, BadCredentials)
        else
          var token := issue(existing.value.id);
          if token.err.Some? then Reply(StatusInternalServerError, TokenError)
          else Response(StatusOK, Token(token.value))
  }

  /** The corrected login differs from the written one only in the subject of
      the token: when the body happens to carry the found user's id, the two
      give the same response. */
  lemma LoginAsIntendedOnlyFixesSubject(body: Option<User>, check: User -> ValidatorResult,
                                        lookup: string -> Outcome<User>, compare: (string, string) -> bool,
                                        issue: int -> Outcome<string>)
    requires body.Some? ==> body.value.id == lookup(body.value.username).value.id
    ensures LoginAsIntended(body, check, lookup, compare, issue) == Login(body, check, lookup, compare, issue)
  {
  }

  /** An unknown username and a wrong password are indistinguishable. */
  lemma SameAnswerForUnknownUserAndWrongPassword(user: User, check: User -> ValidatorResult,
                                                 lookup1: string -> Outcome<User>, lookup2: string -> Outcome<User>,
                                                 compare: (string, string) -> bool, issue: int -> Outcome<string>)
    requires Messages(check(user)) == []
    requires Is(lookup1(user.username).err, UserNotFound)
    requires lookup2(user.username).err.None? && !compare(user.password, lookup2(user.username).value.password)
    ensures Login(Some(user), check, lookup1, compare, issue) == Login(Some(user), check, lookup2, compare, issue)
  {
  }

  /** A token issuer that writes the subject into the token. */
  function SubjectToken(sub: int): Outcome<string> {
    Outcome(if sub == 0 then "sub:0" else if sub == 7 then "sub:7" else "sub:?", None)
  }

  /** A login body naming only username and password decodes with id 0. The
      stored user has id 7, the password matches, and yet the written Login
      answers with a token whose subject is 0, not 7; the corrected one
      issues it for 7. */
  lemma LoginIssuesForBodyId()
    ensures
      var stored := User(7, "alice", "hash-of-secret");
      var body := User(0, "alice", "secret");
      var check := (u: User) => Passed;
      var lookup := (name: string) => Outcome(stored, None);
      var compare := (plain: string, hashed: string) => true;
      && Login(Some(body), check, lookup, compare, SubjectToken) == Response(StatusOK, Token("sub:0"))
      && LoginAsIntended(Some(body), check, lookup, compare, SubjectToken) == Response(StatusOK, Token("sub:7"))
  {
  }
}
