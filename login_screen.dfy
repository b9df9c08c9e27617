/** `handleLogin` of the login screen: one emptiness guard, then the reply to
    `POST /login` mapped to an alert, a sign-in and a navigation. */
module LoginScreen {
  import opened JsValues
  import opened JsText

  /** The body of `POST /login` and of `POST /register`. */
  datatype Credentials = Credentials(username: string, password: string)

  /** Everything one press of the login button does. `signedIn` is the user name
      handed to the authentication context; `toHome` is the navigation to the
      home screen. */
  datatype LoginEffects = LoginEffects(
    request: Option<Credentials>,
    alert: Alert,
    signedIn: Option<string>,
    toHome: bool)

  const EmptyFieldsAlert := Alert("Hata", Str("Kullanıcı adı ve şifre boş olamaz."))
  const LoginConnectionAlert := Alert("Giriş Hatası", Str("Sunucuya bağlanılamadı."))
  const DefaultWelcome := Str("Giriş başarılı.")
  const DefaultRefusal := Str("Kullanıcı adı veya şifre yanlış.")

  /** The guard of `handleLogin`: both fields must be non-empty once trimmed, that
      is, neither may consist of white space only. */
  predicate LoginFilled(username: string, password: string)
    ensures LoginFilled(username, password) <==> !AllWhiteSpace(username) && !AllWhiteSpace(password)
  {
    !IsBlank(username) && !IsBlank(password)
  }

  /** `handleLogin` on the two fields and the reply the request would get. */
  function HandleLogin(username: string, password: string, reply: HttpReply): (e: LoginEffects)
    // a request is made exactly when neither field is all white space, and it carries the fields as typed
    ensures e.request.Some? <==> LoginFilled(username, password)
    ensures e.request.Some? ==> e.request.value == Credentials(username, password)
    ensures e.request.None? ==> e == LoginEffects(None, EmptyFieldsAlert, None, false)
    ensures e.request.Some? ==> e == LoginReply(username, password, reply)
  {
    if LoginFilled(username, password) then LoginReply(username, password, reply)
    else LoginEffects(None, EmptyFieldsAlert, None, false)
  }

  /** What `handleLogin` does once the request is sent. The body is parsed first,
      so a body that is not JSON, like a network failure, shows the connection
      message and signs nobody in. */
  function LoginReply(username: string, password: string, reply: HttpReply): (e: LoginEffects)
    ensures e.request == Some(Credentials(username, password))
    // the user is signed in, and only then taken home, exactly when the reply is a 2xx with a JSON body that is not null
    ensures e.signedIn.Some? <==>
      reply.Reply? && IsOk(reply.status) && reply.body.Some? && !IsNullish(reply.body.value)
    ensures e.signedIn.Some? ==> e.signedIn.value == username
    ensures e.toHome <==> e.signedIn.Some?
    ensures e.signedIn.Some? ==>
      e.alert == Alert("Başarılı", Or(Member(reply.body.value, "message").value, DefaultWelcome))
    // a refusal shows the server's error or the default text; any throw shows the connection message
    ensures reply.Reply? && !IsOk(reply.status) && reply.body.Some? && !IsNullish(reply.body.value) ==>
      e.alert == Alert("Giriş Hatası", Or(Member(reply.body.value, "error").value, DefaultRefusal))
    ensures ParsedBody(reply).None? || IsNullish(ParsedBody(reply).value) ==> e.alert == LoginConnectionAlert
  {
    var request := Some(Credentials(username, password));
    match ParsedBody(reply)
    case None => LoginEffects(request, LoginConnectionAlert, None, false)
    case Some(data) =>
      if IsOk(reply.status) then
        match Member(data, "message")
        case None => LoginEffects(request, LoginConnectionAlert, None, false)
        case Some(message) =>
          LoginEffects(request, Alert("Başarılı", Or(message, DefaultWelcome)), Some(username), true)
      else
        match Member(data, "error")
        case None => LoginEffects(request, LoginConnectionAlert, None, false)
        case Some(error) => LoginEffects(request, Alert("Giriş Hatası", Or(error, DefaultRefusal)), None, false)
  }

  /** Fields are sent untrimmed: " ali " logs in as " ali ", and a field made only
      of spaces never reaches the server. */
  lemma LoginKeepsSpaces()
    ensures HandleLogin(" ali ", "x", Unreachable).request == Some(Credentials(" ali ", "x"))
    ensures HandleLogin("ali", "   ", Unreachable) == LoginEffects(None, EmptyFieldsAlert, None, false)
  {
    assert !AllWhiteSpace(" ali ") by {
      assert !IsWhiteSpace(" ali "[1]);
    }
    assert !AllWhiteSpace("x") by {
      assert !IsWhiteSpace("x"[0]);
    }
    assert AllWhiteSpace("   ");
  }

  /** A refusal whose body has no `error` shows the default text, and a success
      whose body has no `message` shows the default welcome. */
  lemma LoginDefaults(username: string, password: string)
    requires !AllWhiteSpace(username) && !AllWhiteSpace(password)
    ensures HandleLogin(username, password, Reply(401, Some(Obj(map[])))).alert == Alert("Giriş Hatası", DefaultRefusal)
    ensures HandleLogin(username, password, Reply(200, Some(Obj(map[])))) ==
      LoginEffects(Some(Credentials(username, password)), Alert("Başarılı", DefaultWelcome), Some(username), true)
  {
    var empty := Obj(map[]);
    assert Member(empty, "error") == Some(Undefined) && Member(empty, "message") == Some(Undefined);
    assert LoginFilled(username, password);
  }
}
