# blueguardin_mobil: the decision logic of the mobile client, in Dafny

The mobile client logs a user in, registers new users, sends servo angles to a
Raspberry Pi, raises an alert when the Pi reports a detection ("hayalet ağ"), and
shares positions between a "hotspot" phone and the phones that measure their
distance to it. Almost all of it is screens and `fetch` calls. This project models
the decisions those screens take:

- **Servo command** (`setServo`). The angle text is read with ECMAScript `parseInt`
  (section 19.2.5 of ECMA-262): leading white space, an optional sign, a `0x`/`0X`
  prefix that switches to radix 16, then the longest run of digits. It is accepted
  only when the number is from 0 to 180, and the request then carries that number.
  The reply's `status` decides which alert is shown.
- **Detection alert latch**. A two-state latch over `alertShown` notifies once when
  detection turns on and re-arms when it turns off. A poll that throws changes
  nothing.
- **Location and hotspot role**. A location is stored only after a granted
  permission and a successful read. The device publishes its position only when it
  is the hotspot and a location is known. A consumer polls the hotspot record; an
  accepted record replaces the cache, and the distance is recomputed only when a
  location is known.
- **Login and registration forms**. Guards are checked in order on the strings as
  typed, and the reply is mapped to an alert, a sign-in and a navigation.

Files:

- `js_values.dfy` (module `JsValues`): JSON values, truthiness, property access that
  throws on `null`, `||`, and one HTTP exchange (`HttpReply`).
- `js_text.dfy` (module `JsText`): `trim`, `length` in UTF-16 code units, `parseInt`
  without a radix, and the decimal rendering of integers, with their lemmas.
- `raspberry_pi_control.dfy` (module `RaspberryPiControl`): the servo, latch, location,
  publish and poll decisions as functions, and the class `ControlPanel`. The class
  holds the screen's state (`alertShown`, `isHotspot`, `deviceLocation`, `hotspotInfo`,
  `distance`) and has one method per event.
- `login_screen.dfy` (module `LoginScreen`) and `register_screen.dfy` (module
  `RegisterScreen`): the two form handlers as functions from inputs to an effects
  record.

The I/O is turned into values. A request that would be sent, an alert, a sign-in
and a navigation are fields of the returned record. The reply a request would get
is a parameter (`HttpReply`: unreachable, or a status and a body that may not be
JSON). The location permission status and the position read are parameters of
`RefreshLocation`. The Haversine distance is the function value `measure`, given
to the `ControlPanel` constructor.

`ControlPanel` keeps four ghost fields:

- `readings` holds every detection status received so far.
- `alertsRaised` counts the alerts shown.
- `positions` holds every position the device has read successfully.
- `measuredAt` is the device position the shown distance was computed from.

Its invariant `Valid()` says:

- an alert is shown exactly when the latest reading was a detection;
- one alert was raised per rising edge of the readings;
- the stored location is one of `positions`;
- a shown distance is `measure` applied to one of `positions` and the cached hotspot
  record.

Facts about the code that the model follows:

- The detection flag read by the poll is `hayalet_detected`.
- The success status of the device's replies is `"başarılı"`.
- A publish request that throws, or whose body is not JSON or is `null`, is only
  logged (`PublishReplyAlert` returns no alert). Only a reply whose `status` is not
  `"başarılı"` is shown to the user.
- A 409 from `/register` shows the "unknown error" message, the same as any other
  non-2xx status except 400.

## Model

| member | source | states |
|---|---|---|
| `JsText.TrimStart` | components/RaspberryPiControl.js:22 | `parseInt` first drops the leading white space: the result is the suffix after a run of white space, and it does not start with white space |
| `JsText.TrimEnd` | components/LoginScreen.js:16 | the trailing half of `trim`: the result is a prefix, and only white space was removed |
| `JsText.Trim` | components/RegisterScreen.js:16 | `s.trim()` is empty exactly when every character of `s` is white space; otherwise it starts and ends with a non-space |
| `JsText.IsBlank` | components/LoginScreen.js:16 | `s.trim() === ''` holds exactly when every character of `s` is white space |
| `JsText.CodeUnitLength` | components/RegisterScreen.js:21 | `password.length` counts UTF-16 code units: equal to the number of characters for text in the BMP, twice it for text made only of astral characters, always between the two |
| `JsText.TrimStartSkipsWhiteSpace` | components/RaspberryPiControl.js:22 | leading white space never changes what `parseInt` sees after trimming |
| `JsText.DigitValue` | components/RaspberryPiControl.js:22 | a character's digit value is below 10 exactly for `0`-`9` and never above 36 |
| `JsText.DigitRun` | components/RaspberryPiControl.js:22 | `parseInt` reads the longest run of digits of the radix: all characters before the end are digits and the next one is not |
| `JsText.ParseInt` | components/RaspberryPiControl.js:22 | definition of `parseInt` with no radix: trim the leading white space, then `ParseTrimmed`; its properties are the lemma rows below |
| `JsText.ParseTrimmed` | components/RaspberryPiControl.js:22 | definition: an optional `+`/`-` sign, then `ParseMagnitude`, negated after `-`; its properties are the lemma rows below |
| `JsText.ParseMagnitude` | components/RaspberryPiControl.js:22 | definition: a `0x`/`0X` prefix selects radix 16, otherwise 10, then the longest digit run, NaN when it is empty; its properties are the lemma rows below |
| `JsText.NatString` | components/RaspberryPiControl.js:38 | the rendering of a non-negative integer is all decimal digits, starts with `0` only for 0, and denotes the integer |
| `JsText.DecimalString` | components/RaspberryPiControl.js:38 | the rendering of an integer starts with `-` exactly when it is negative |
| `JsText.DigitRunIs` | components/RaspberryPiControl.js:22 | the digit run has length `k` whenever every character before `k` is a digit and the one at `k`, if any, is not |
| `JsText.DigitRunStops` | components/RaspberryPiControl.js:22 | a run of radix digits followed by a character that is not such a digit stops exactly at its end |
| `JsText.MagnitudeOfDigits` | components/RaspberryPiControl.js:22 | without a `0x` prefix, the unsigned part is the decimal value of the digits, leading zeros included |
| `JsText.ParseIntOfDigits` | components/RaspberryPiControl.js:22 | `parseInt` on decimal digits followed by a non-digit gives their decimal value, leading zeros included |
| `JsText.ParseIntOfMagnitude` | components/RaspberryPiControl.js:22 | text starting with a digit is read by the unsigned part alone |
| `JsText.ParseIntOfSign` | components/RaspberryPiControl.js:22 | a `+` keeps the value of the unsigned part that follows it, and a `-` negates it |
| `JsText.ParseIntOfHex` | components/RaspberryPiControl.js:22 | `0x` or `0X`, then hexadecimal digits, then a non-hex character gives the hexadecimal value of the digits |
| `JsText.HexMagnitude` | components/RaspberryPiControl.js:22 | after `0x` or `0X`, the unsigned part is the hexadecimal value of the hex digits up to the first character that is not one |
| `JsText.ParseIntOfDecimal` | components/RaspberryPiControl.js:22 | `parseInt` reads back the decimal numeral of every integer whatever non-digit text follows, except a leading `0` followed by `x`/`X` |
| `JsText.ParseIntOfNumeral` | components/RaspberryPiControl.js:22 | the round trip for non-negative integers |
| `JsText.ParseIntOfNegative` | components/RaspberryPiControl.js:22 | the round trip for negative integers, whose numeral is a `-` sign followed by the magnitude's numeral |
| `JsText.NegativeMagnitude` | components/RaspberryPiControl.js:22 | the numeral of a negative integer starts with `-`, and what follows it reads as the magnitude |
| `JsText.MagnitudeOfNumeral` | components/RaspberryPiControl.js:22 | without a `0x` prefix, the unsigned part of a numeral is read in radix 10 and gives its value |
| `JsText.ParseIntSkipsWhiteSpace` | components/RaspberryPiControl.js:22 | `parseInt(w + s) == parseInt(s)` for white space `w` |
| `JsText.ParseIntIgnoresTrailingText` | components/RaspberryPiControl.js:22 | `parseInt("90abc")` is 90 |
| `JsText.ParseIntReadsPlusSign` | components/RaspberryPiControl.js:22 | `parseInt("+90")` is 90 |
| `JsText.ParseIntReadsLeadingZeros` | components/RaspberryPiControl.js:22 | `parseInt("007")` is 7 |
| `JsText.ParseIntReadsHexPrefix` | components/RaspberryPiControl.js:22 | `parseInt("0x10")` is 16 |
| `JsText.ParseIntOfBarePrefix` | components/RaspberryPiControl.js:22-23 | `"0x"` gives NaN |
| `JsText.ParseIntOfBareSign` | components/RaspberryPiControl.js:22-23 | `"-"` gives NaN |
| `JsText.ParseIntOfEmpty` | components/RaspberryPiControl.js:22-23 | `""` gives NaN |
| `JsText.MagnitudeWithoutDigits` | components/RaspberryPiControl.js:22-23 | the unsigned part is NaN exactly when there is no digit where it begins: empty text, a non-digit first, or `0x`/`0X` with no hexadecimal digit after it |
| `JsText.SignedWithoutDigits` | components/RaspberryPiControl.js:22-23 | a `+` or `-` followed by no digit to read gives NaN, for all such text |
| `JsText.UnsignedWithoutDigits` | components/RaspberryPiControl.js:22-23 | text that starts with no white space, sign or digit, or is a bare `0x` prefix, gives NaN, for all such text |
| `JsText.ParseIntWithoutDigits` | components/RaspberryPiControl.js:22-23 | any leading white space followed by text with no number at its start gives NaN |
| `JsText.ParseIntIsNaN` | components/RaspberryPiControl.js:22-23 | `parseInt` is NaN if and only if no number follows the leading white space, so with the round-trip rows it is characterised on both sides |
| `JsValues.Or` | components/LoginScreen.js:33 | the logical OR of `a` and `b` is one of the two, truthy exactly when either is, and `a` whenever `a` is truthy |
| `RaspberryPiControl.ServoSetAlert` | components/RaspberryPiControl.js:38 | the confirmation is a one-argument alert whose title starts with `Servo `; it has no message and differs from the range and connection alerts |
| `RaspberryPiControl.ServoRequest` | components/RaspberryPiControl.js:22-27 | an angle is accepted exactly when `parseInt` gives a number from 0 to 180, and the command carries that number and the servo |
| `RaspberryPiControl.ServoReplyAlert` | components/RaspberryPiControl.js:36-46 | the confirmation is shown exactly when `status` is `"başarılı"`; the connection message exactly when the request, the JSON read or the property read throws; otherwise the reply's `error` |
| `RaspberryPiControl.SetServo` | components/RaspberryPiControl.js:20-48 | no request is built for a refused angle, which shows the range message; otherwise the request is the accepted command and the alert is the reply's |
| `RaspberryPiControl.ServoAcceptsExactlyTheRange` | components/RaspberryPiControl.js:22-33 | a decimal numeral, with any non-digit text after it, is sent exactly when it is from 0 to 180, as that number ("90abc" sends 90), whatever the reply |
| `RaspberryPiControl.ServoReadsHex` | components/RaspberryPiControl.js:22-27 | `"0x10"` sends 16, whatever the reply |
| `RaspberryPiControl.ServoRefusesBarePrefix` | components/RaspberryPiControl.js:22-27 | `"0x"` builds no request and shows the range message, whatever the reply |
| `RaspberryPiControl.ServoRefusesTextWithoutNumber` | components/RaspberryPiControl.js:22-27 | any angle text with no number after its leading white space sends nothing and shows the range message, whatever the reply would be |
| `RaspberryPiControl.DetectionReading` | components/RaspberryPiControl.js:56-58 | a tick learns nothing exactly when the fetch, the JSON read or the property read throws, and otherwise learns the truthiness of `hayalet_detected` |
| `RaspberryPiControl.NextLatch` | components/RaspberryPiControl.js:58-70 | after a tick the latch holds the latest reading (unchanged after a failed tick), and it notifies exactly when it switches from off to on |
| `RaspberryPiControl.RisesAppend` | components/RaspberryPiControl.js:58-66 | one more reading adds one alert exactly when it is a detection after a non-detection |
| `RaspberryPiControl.PersistentDetectionIsSilent` | components/RaspberryPiControl.js:58-62 | while detection persists after an alert, no further alert is raised |
| `RaspberryPiControl.TwoEpisodesTwoAlerts` | components/RaspberryPiControl.js:58-66 | readings false, true, true, false, true raise exactly two alerts |
| `RaspberryPiControl.LocationAttempt` | components/RaspberryPiControl.js:75-91 | the location changes exactly after a granted permission and a successful read, to the coordinates read; the refusal alert is shown exactly when the permission status is not `granted` |
| `RaspberryPiControl.PublishGate` | components/RaspberryPiControl.js:117-126 | the position is published exactly when the device is the hotspot and a location is known, and the published coordinates are the device's |
| `RaspberryPiControl.PublishReplyAlert` | components/RaspberryPiControl.js:127-135 | a publish alert, carrying the reply's `error`, is shown exactly when a JSON reply's `status` is not `"başarılı"`; failures that throw only log |
| `RaspberryPiControl.HotspotAnswer` | components/RaspberryPiControl.js:148-150 | a poll tick accepts the body exactly when it is JSON, not `null`, and its `error` is falsy |
| `RaspberryPiControl.ControlPanel.constructor` | components/RaspberryPiControl.js:12-16 | the initial state: no alert, consumer role, no location, no hotspot record, no distance |
| `RaspberryPiControl.ControlPanel.OnDetectionPoll` | components/RaspberryPiControl.js:52-73 | one tick follows `NextLatch`, counts one alert per rising edge of the readings, and changes nothing else |
| `RaspberryPiControl.ControlPanel.RefreshLocation` | components/RaspberryPiControl.js:75-91 | the location follows `LocationAttempt` and a new one joins the positions read; a new location re-runs the publish gate; nothing else changes |
| `RaspberryPiControl.ControlPanel.SetHotspot` | components/RaspberryPiControl.js:115-137 | toggling the role re-runs the publish gate only on a real change; the location and the cache are untouched |
| `RaspberryPiControl.ControlPanel.PollsHotspot` | components/RaspberryPiControl.js:142 | definition: the hotspot poll runs only while the device is not the hotspot; it is `OnHotspotPoll`'s precondition |
| `RaspberryPiControl.ControlPanel.OnHotspotPoll` | components/RaspberryPiControl.js:139-169 | runs only for a consumer; an accepted record replaces the cache and, when a location is known, the distance becomes `measure(location, record)`; any failure leaves record and distance unchanged |
| `RaspberryPiControl.DetectionScenario` | components/RaspberryPiControl.js:52-73 | polls answering false, true, true, false, true show the alert on the second and fifth tick only |
| `LoginScreen.LoginFilled` | components/LoginScreen.js:16-20 | the guard passes exactly when neither field is white space only |
| `LoginScreen.HandleLogin` | components/LoginScreen.js:14-44 | a request is made exactly when the guard passes, carrying the untrimmed fields; otherwise only the empty-fields alert |
| `LoginScreen.LoginReply` | components/LoginScreen.js:21-43 | signed in as the typed user name, and taken home, exactly for a 2xx reply with a JSON body that is not `null`, with `data.message` or the default text; a refusal shows `data.error` or the default text; anything that throws shows the connection message |
| `LoginScreen.LoginKeepsSpaces` | components/LoginScreen.js:16-28 | `" ali "` is sent as typed; a password of spaces never reaches the server |
| `LoginScreen.LoginDefaults` | components/LoginScreen.js:31-39 | a body without `message` or `error` shows the default success or refusal text |
| `RegisterScreen.FormErrorAlert` | components/RegisterScreen.js:16-30 | each failed guard shows an alert titled `Hata` with a text message |
| `RegisterScreen.FormErrorsDiffer` | components/RegisterScreen.js:16-30 | two failed guards give the same alert only when they are the same guard, so the alert tells which guard failed |
| `RegisterScreen.FormCheck` | components/RegisterScreen.js:16-30 | the first failing guard, in order: a field of white space only, then a password under six UTF-16 code units, then a confirmation not equal to the password |
| `RegisterScreen.RegisterReply` | components/RegisterScreen.js:32-63 | goes to the login screen exactly on a 2xx; 400 says taken; every other failure status says unknown error; an unreachable server says connection failed |
| `RegisterScreen.HandleRegister` | components/RegisterScreen.js:14-64 | a request carrying the untrimmed user name and password is made exactly when every guard passes; otherwise only the first failing guard's alert |
| `RegisterScreen.ConflictLooksUnknown` | components/RegisterScreen.js:49-58 | a 409 is reported exactly like a 500 |
| `RegisterScreen.LengthCountsSpaces` | components/RegisterScreen.js:21 | surrounding spaces count towards the password length |
| `RegisterScreen.LengthCountsSurrogatePairs` | components/RegisterScreen.js:21 | three emoji make a password of length six |
| `RegisterScreen.FiveCharactersAreTooShort` | components/RegisterScreen.js:21-25 | a five-character password is refused as too short |
| `RegisterScreen.EmptyFieldComesFirst` | components/RegisterScreen.js:16-20 | an empty user name is reported before the password checks |

## Left out

- The Haversine formula (components/RaspberryPiControl.js:99-112) is not modelled. It is floating-point trigonometry, so the distance is the function value `measure`. Its properties (zero on equal points, symmetry, known distances) are not stated.
- The distance is a `real`. A hotspot record whose `latitude` or `longitude` is not a number would give NaN in the source, and that value is not represented.
- `fetch`, `Alert.alert`, `console.error`, navigation, `signIn` and the `expo-location` calls are I/O or foreign libraries. They are inputs (`HttpReply`, the permission status, the position) or fields of the returned effects.
- `setInterval`/`clearInterval`, effect re-subscription and async interleaving are not modelled. One poll tick is one method call. A tick that overlaps another, or one that reads a stale captured `alertShown` or `deviceLocation`, is not modelled.
- Role-switch timer cancellation is reduced to the precondition of `OnHotspotPoll` (only a consumer polls). A callback already in flight when the role changes is not modelled.
- The two angle text fields (`angle1`, `angle2`) are not modelled. Their text is the `angleText` parameter.
- The JSX trees, styles, password-visibility toggles and `handleLogout`, which only resets navigation, are UI. App.js only wires the screens together. AuthContext is not part of this model.
- ParseInt returns the exact integer. The source rounds it to a double above 2^53, which cannot change whether it lies in 0..180. A parsed -0 is the integer 0, which compares and serialises the same way.
- JsValues.Member: reads own properties only. The keys the screens read (`status`, `error`, `message`, `hayalet_detected`) are not inherited by any JSON value.
- Strings are sequences of Unicode scalar values. A string holding a lone UTF-16 surrogate cannot be represented.
