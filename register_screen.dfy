/** `handleRegister` of the registration screen: three guards checked in order, then
    the status of the reply to `POST /register` mapped to an alert and a navigation. */
module RegisterScreen {
  import opened JsValues
  import opened JsText
  import opened LoginScreen

  /** Everything one press of the register button does; `toLogin` is the navigation
      back to the login screen. */
  datatype RegisterEffects = RegisterEffects(request: Option<Credentials>, alert: Alert, toLogin: bool)

  /** The first guard that fails. */
  datatype FormError = EmptyField | ShortPassword | PasswordMismatch

  const MinPasswordLength := 6

  const RegisteredAlert := Alert("Başarılı", Str("Kayıt başarılı, artık giriş yapabilirsiniz."))
  const UnknownErrorAlert := Alert("Kayıt Hatası", Str("Bilinmeyen bir hata oluştu."))
  const TakenAlert := Alert("Kayıt Hatası", Str("Kullanıcı adı veya şifre zaten alınmış."))
  const RegisterConnectionAlert := Alert("Kayıt Hatası", Str("Sunucuya bağlanılamadı."))

  /** The alert for a failed guard: titled "Hata", with a message of its own. */
  function FormErrorAlert(error: FormError): (a: Alert)
    ensures a.title == "Hata" && a.message.Str?
  {
    match error
    case EmptyField => Alert("Hata", Str("Tüm alanlar doldurulmalıdır."))
    case ShortPassword => Alert("Hata", Str("Şifre en az 6 karakter olmalıdır."))
    case PasswordMismatch => Alert("Hata", Str("Şifreler uyuşmuyor."))
  }

  /** The guards of `handleRegister`, in their order: a field that is white space
      only, then a password shorter than six UTF-16 code units, then a confirmation
      that differs from the password. The length and the comparison use the
      password as typed, untrimmed. */
  function FormCheck(username: string, password: string, confirmation: string): (r: Option<FormError>)
    ensures r == Some(EmptyField) <==>
      AllWhiteSpace(username) || AllWhiteSpace(password) || AllWhiteSpace(confirmation)
    ensures r == Some(ShortPassword) <==>
      !AllWhiteSpace(username) && !AllWhiteSpace(password) && !AllWhiteSpace(confirmation)
      && CodeUnitLength(password) < MinPasswordLength
    ensures r == Some(PasswordMismatch) <==>
      !AllWhiteSpace(username) && !AllWhiteSpace(password) && !AllWhiteSpace(confirmation)
      && CodeUnitLength(password) >= MinPasswordLength && password != confirmation
  {
    if IsBlank(username) || IsBlank(password) || IsBlank(confirmation) then Some(EmptyField)
    else if CodeUnitLength(password) < MinPasswordLength then Some(ShortPassword)
    else if password != confirmation then Some(PasswordMismatch)
    else None
  }

  /** What `handleRegister` does once the request is sent. Only the status is read:
      a 2xx reports success and goes to the login screen, 400 says the name or
      password is taken, and every other status, 409 included, reports an unknown
      error. A failed request reports the connection problem. */
  function RegisterReply(username: string, password: string, reply: HttpReply): (e: RegisterEffects)
    ensures e.request == Some(Credentials(username, password))
    ensures e.toLogin <==> reply.Reply? && IsOk(reply.status)
    ensures e.toLogin ==> e.alert == RegisteredAlert
    ensures reply.Reply? && reply.status == 400 ==> e.alert == TakenAlert
    ensures reply.Reply? && !IsOk(reply.status) && reply.status != 400 ==> e.alert == UnknownErrorAlert
    ensures reply.Unreachable? ==> e.alert == RegisterConnectionAlert
  {
    var request := Some(Credentials(username, password));
    match reply
    case Unreachable => RegisterEffects(request, RegisterConnectionAlert, false)
    case Reply(status, _) =>
      if IsOk(status) then RegisterEffects(request, RegisteredAlert, true)
      else if status == 409 then RegisterEffects(request, UnknownErrorAlert, false)
      else if status == 400 then RegisterEffects(request, TakenAlert, false)
      else RegisterEffects(request, UnknownErrorAlert, false)
  }

  /** `handleRegister` on the three fields and the reply the request would get: only
      the first failing guard is reported, and the request, carrying the user name
      and password as typed, is made exactly when every guard passes. */
  function HandleRegister(username: string, password: string, confirmation: string, reply: HttpReply)
    : (e: RegisterEffects)
    ensures e.request.Some? <==> FormCheck(username, password, confirmation).None?
    ensures e.request.Some? ==> e == RegisterReply(username, password, reply)
    ensures e.request.None? ==>
      e == RegisterEffects(None, FormErrorAlert(FormCheck(username, password, confirmation).value), false)
  {
    match FormCheck(username, password, confirmation)
    case Some(error) => RegisterEffects(None, FormErrorAlert(error), false)
    case None => RegisterReply(username, password, reply)
  }

  /** Each failed guard has its own message, so the alert tells which one failed. */
  lemma FormErrorsDiffer(e1: FormError, e2: FormError)
    ensures FormErrorAlert(e1) == FormErrorAlert(e2) <==> e1 == e2
  {
  }

  /** A conflict (409) is reported exactly like a server failure (500). */
  lemma ConflictLooksUnknown(username: string, password: string, body: Option<Json>)
    ensures RegisterReply(username, password, Reply(409, body)).alert ==
            RegisterReply(username, password, Reply(500, body)).alert == UnknownErrorAlert
  {
  }

  /** The length guard counts UTF-16 code units of the untrimmed password: spaces
      around one letter count, and an emoji counts twice. */
  lemma LengthCountsSpaces()
    ensures FormCheck("ali", "  a   ", "  a   ").None?
  {
    var p := "  a   ";
    assert !IsWhiteSpace("ali"[0]);
    assert !IsWhiteSpace(p[2]);
    assert forall i | 0 <= i < |p| :: p[i] as int < 0x1_0000;
  }

  lemma LengthCountsSurrogatePairs()
    ensures FormCheck("ali", "\U{1F600}\U{1F600}\U{1F600}", "\U{1F600}\U{1F600}\U{1F600}").None?
  {
    var p := "\U{1F600}\U{1F600}\U{1F600}";
    assert !IsWhiteSpace("ali"[0]);
    assert !IsWhiteSpace(p[0]);
    assert forall i | 0 <= i < |p| :: p[i] as int >= 0x1_0000;
  }

  lemma FiveCharactersAreTooShort()
    ensures FormCheck("ali", "abcde", "abcde") == Some(ShortPassword)
  {
    var p := "abcde";
    assert !IsWhiteSpace("ali"[0]);
    assert !IsWhiteSpace(p[0]);
    assert forall i | 0 <= i < |p| :: p[i] as int < 0x1_0000;
  }

  /** An empty user name is reported before a short or mismatched password. */
  lemma EmptyFieldComesFirst(reply: HttpReply)
    ensures HandleRegister("", "abc", "xyz", reply) == RegisterEffects(None, FormErrorAlert(EmptyField), false)
  {
  }
}
