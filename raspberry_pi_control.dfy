/** The decision logic of the Raspberry Pi control screen: validating a servo angle
    and reporting the reply, the detection-alert latch, reading the device location,
    publishing it when the device is the hotspot, and caching the hotspot record and
    the distance to it when it is not. Every `fetch`, `Alert.alert` and location call
    is an input (an `HttpReply`, a permission status, a position) or an output value. */
module RaspberryPiControl {
  import opened JsValues
  import opened JsText

  /** The status string the device sends for a command it carried out. */
  const Succeeded := "başarılı"

  // ------------------------------------------------------------- servo

  /** The body of `POST /set_servo`. */
  datatype ServoCommand = ServoCommand(servo: int, angle: int)

  /** What one press of a servo's "set" button does: the request it sends, if any,
      and the alert it shows. */
  datatype ServoEffects = ServoEffects(request: Option<ServoCommand>, alert: Alert)

  const InvalidAngleAlert := Alert("Hata", Str("Lütfen 0-180 arası geçerli bir açı giriniz."))
  const ServoConnectionAlert := Alert("Bağlantı Hatası", Str("Sunucuya ulaşılamadı."))

  /** The one-argument confirmation `Alert.alert(...)`: a title naming the servo and
      the angle, no message, and so never mistaken for an error alert. */
  function ServoSetAlert(cmd: ServoCommand): (a: Alert)
    ensures a.message == Undefined
    ensures |a.title| >= 6 && a.title[..6] == "Servo " && a.title != "Hata"
    ensures a != InvalidAngleAlert && a != ServoConnectionAlert
  {
    Alert("Servo " + DecimalString(cmd.servo) + " açısı " + DecimalString(cmd.angle) + "° olarak ayarlandı.", Undefined)
  }

  /** The guard of `setServo`: the text is read with `parseInt` and accepted only when
      that is a number from 0 to 180; the command then carries the parsed number. */
  function ServoRequest(servo: int, angleText: string): (r: Option<ServoCommand>)
    ensures r.Some? <==> ParseInt(angleText).Some? && 0 <= ParseInt(angleText).value <= 180
    ensures r.Some? ==> r.value.servo == servo && r.value.angle == ParseInt(angleText).value
  {
    var parsed := ParseInt(angleText);
    if parsed.None? || parsed.value < 0 || parsed.value > 180 then None
    else Some(ServoCommand(servo, parsed.value))
  }

  /** The alert for the device's reply to a command: the confirmation exactly when the
      reply's `status` is the success string, the reply's `error` for any other status,
      and the connection message when the request or the reading of the reply throws. */
  function ServoReplyAlert(cmd: ServoCommand, reply: HttpReply): (a: Alert)
    ensures a == ServoSetAlert(cmd) <==>
      ParsedBody(reply).Some? && Member(ParsedBody(reply).value, "status") == Some(Str(Succeeded))
    ensures a == ServoConnectionAlert <==> ParsedBody(reply).None? || Member(ParsedBody(reply).value, "status").None?
    ensures ParsedBody(reply).Some? && Member(ParsedBody(reply).value, "status").Some?
            && Member(ParsedBody(reply).value, "status").value != Str(Succeeded) ==>
      a == Alert("Hata", Member(ParsedBody(reply).value, "error").value)
    ensures a.title == "Hata" ==>
      a.message == Member(ParsedBody(reply).value, "error").value
  {
    match ParsedBody(reply)
    case None => ServoConnectionAlert
    case Some(data) =>
      match Member(data, "status")
      case None => ServoConnectionAlert
      case Some(status) =>
        if status == Str(Succeeded) then ServoSetAlert(cmd)
        else Alert("Hata", Member(data, "error").value)
  }

  /** `setServo(servo, angle)` from the press to the alert. */
  function SetServo(servo: int, angleText: string, reply: HttpReply): (e: ServoEffects)
    ensures e.request == ServoRequest(servo, angleText)
    ensures e.request.None? ==> e.alert == InvalidAngleAlert
    ensures e.request.Some? ==> e.alert == ServoReplyAlert(e.request.value, reply)
  {
    match ServoRequest(servo, angleText)
    case None => ServoEffects(None, InvalidAngleAlert)
    case Some(cmd) => ServoEffects(Some(cmd), ServoReplyAlert(cmd, reply))
  }

  /** An angle typed as a decimal numeral, with or without trailing text, is sent
      exactly when it is between 0 and 180, and the command carries that number,
      not the text: "90abc" sends 90. */
  lemma ServoAcceptsExactlyTheRange(servo: int, n: int, rest: string, reply: HttpReply)
    requires rest == [] || !IsDecimalDigit(rest[0])
    requires n == 0 && rest != [] ==> rest[0] != 'x' && rest[0] != 'X'
    ensures SetServo(servo, DecimalString(n) + rest, reply).request ==
      (if 0 <= n <= 180 then Some(ServoCommand(servo, n)) else None)
  {
    ParseIntOfDecimal(n, rest);
  }

  /** A hexadecimal angle is sent as its value. */
  lemma ServoReadsHex(servo: int, reply: HttpReply)
    ensures SetServo(servo, "0x10", reply).request == Some(ServoCommand(servo, 16))
  {
    ParseIntReadsHexPrefix();
  }

  /** An angle without digits is refused with the range message. */
  lemma ServoRefusesBarePrefix(servo: int, reply: HttpReply)
    ensures SetServo(servo, "0x", reply) == ServoEffects(None, InvalidAngleAlert)
  {
    ParseIntOfBarePrefix();
  }

  /** Any angle text with no number after its leading white space ("", "abc", "-",
      "  +x", "0xg") sends nothing and shows the range message, whatever the device
      would have replied. */
  lemma ServoRefusesTextWithoutNumber(servo: int, w: string, s: string, reply: HttpReply)
    requires AllWhiteSpace(w)
    requires s == [] || !IsWhiteSpace(s[0])
    requires NoNumberAhead(s)
    ensures SetServo(servo, w + s, reply) == ServoEffects(None, InvalidAngleAlert)
  {
    ParseIntWithoutDigits(w, s);
  }

  // ------------------------------------------------- detection alert latch

  /** What one tick of the detection poll learns: None when the callback throws
      (no response, a body that is not JSON, or a null body), otherwise the
      truthiness of `hayalet_detected`. */
  function DetectionReading(reply: HttpReply): (r: Option<bool>)
    ensures r.None? <==> ParsedBody(reply).None? || Member(ParsedBody(reply).value, "hayalet_detected").None?
    ensures r.Some? ==> r.value == Truthy(Member(ParsedBody(reply).value, "hayalet_detected").value)
  {
    match ParsedBody(reply)
    case None => None
    case Some(data) =>
      match Member(data, "hayalet_detected")
      case None => None
      case Some(flag) => Some(Truthy(flag))
  }

  datatype LatchStep = LatchStep(shown: bool, notify: bool)

  /** One tick of the latch: notify when detection is seen while no alert is shown,
      re-arm when it is gone. The latch then holds the latest reading, a failed
      tick leaves it alone, and only a reading that switches it on notifies. */
  function NextLatch(shown: bool, reading: Option<bool>): (r: LatchStep)
    ensures r.shown == (if reading.Some? then reading.value else shown)
    ensures r.notify <==> !shown && r.shown
  {
    match reading
    case None => LatchStep(shown, false)
    case Some(detected) =>
      if detected && !shown then LatchStep(true, true)
      else if !detected && shown then LatchStep(false, false)
      else LatchStep(shown, false)
  }

  /** The last element of `ds`, or `prev` when it is empty. */
  function LastOr(prev: bool, ds: seq<bool>): bool
  {
    if ds == [] then prev else ds[|ds| - 1]
  }

  /** The number of rising edges of `ds` when the value before it is `prev`: the
      positions holding true whose predecessor is false. */
  function RisesFrom(prev: bool, ds: seq<bool>): nat
    decreases |ds|
  {
    if ds == [] then 0
    else (if ds[0] && !prev then 1 else 0) + RisesFrom(ds[0], ds[1..])
  }

  /** Appending one reading adds a rising edge exactly when it is true and the
      reading before it is false. */
  lemma {:induction false} RisesAppend(prev: bool, ds: seq<bool>, d: bool)
    ensures RisesFrom(prev, ds + [d]) == RisesFrom(prev, ds) + (if d && !LastOr(prev, ds) then 1 else 0)
    decreases |ds|
  {
    if ds == [] {
      assert [] + [d] == [d];
    } else {
      assert (ds + [d])[1..] == ds[1..] + [d];
      RisesAppend(ds[0], ds[1..], d);
      assert LastOr(ds[0], ds[1..]) == LastOr(prev, ds);
    }
  }

  /** While detection persists, however many ticks fail in between, a shown alert is
      never raised again. */
  lemma {:induction false} PersistentDetectionIsSilent(ds: seq<bool>)
    requires forall i | 0 <= i < |ds| :: ds[i]
    ensures RisesFrom(true, ds) == 0
  {
    if ds != [] {
      PersistentDetectionIsSilent(ds[1..]);
    }
  }

  /** Readings false, true, true, false, true raise exactly two alerts. */
  lemma TwoEpisodesTwoAlerts()
    ensures RisesFrom(false, [false, true, true, false, true]) == 2
  {
    var ds := [false, true, true, false, true];
    assert ds[1..] == [true, true, false, true];
    assert ds[2..] == [true, false, true];
    assert ds[3..] == [false, true];
    assert ds[4..] == [true];
  }

  // ------------------------------------------------------------ location

  datatype Coordinate = Coordinate(latitude: real, longitude: real)

  /** What `getDeviceLocation` decides. */
  datatype LocationEffects = LocationEffects(update: Option<Coordinate>, alert: Option<Alert>)

  const PermissionAlert := Alert("İzin Yok", Str("Konum izni reddedildi"))

  /** `getDeviceLocation`: `permission` is the status the permission request returns
      (None when it throws) and `position` the coordinates the position read returns
      (None when it throws). Only a granted permission followed by a successful read
      changes the location; only a refused permission is shown to the user. */
  function LocationAttempt(permission: Option<string>, position: Option<Coordinate>): (r: LocationEffects)
    ensures r.update.Some? <==> permission == Some("granted") && position.Some?
    ensures r.update.Some? ==> r.update == position
    ensures r.alert.Some? <==> permission.Some? && permission.value != "granted"
    ensures r.alert.Some? ==> r.alert.value == PermissionAlert
  {
    match permission
    case None => LocationEffects(None, None)
    case Some(status) =>
      if status != "granted" then LocationEffects(None, Some(PermissionAlert))
      else LocationEffects(position, None)
  }

  // -------------------------------------------------------- hotspot role

  /** The coordinates `POST /update_hotspot` carries, if it is sent: only a hotspot
      device with a known location publishes, so a consumer never does. */
  function PublishGate(isHotspot: bool, location: Option<Coordinate>): (r: Option<Coordinate>)
    ensures r.Some? <==> isHotspot && location.Some?
    ensures r.Some? ==> r == location
  {
    if isHotspot && location.Some? then location else None
  }

  /** The alert for the reply to a publish: the reply's `error` when its `status` is
      not the success string. A failed request, a body that is not JSON and a null
      body are only logged. */
  function PublishReplyAlert(reply: HttpReply): (r: Option<Alert>)
    ensures r.Some? <==> ParsedBody(reply).Some? && Member(ParsedBody(reply).value, "status").Some?
                         && Member(ParsedBody(reply).value, "status").value != Str(Succeeded)
    ensures r.Some? ==> r.value == Alert("Hotspot Güncelleme Hatası", Member(ParsedBody(reply).value, "error").value)
  {
    match ParsedBody(reply)
    case None => None
    case Some(data) =>
      match Member(data, "status")
      case None => None
      case Some(status) =>
        if status != Str(Succeeded) then Some(Alert("Hotspot Güncelleme Hatası", Member(data, "error").value))
        else None
  }

  /** The hotspot record one tick of the consumer's poll accepts: the parsed body,
      unless the callback throws or the body carries a truthy `error`. */
  function HotspotAnswer(reply: HttpReply): (r: Option<Json>)
    ensures r.Some? <==> ParsedBody(reply).Some? && Member(ParsedBody(reply).value, "error").Some?
                         && !Truthy(Member(ParsedBody(reply).value, "error").value)
    ensures r.Some? ==> r == ParsedBody(reply)
  {
    match ParsedBody(reply)
    case None => None
    case Some(data) =>
      match Member(data, "error")
      case None => None
      case Some(error) => if Truthy(error) then None else Some(data)
  }

  // ----------------------------------------------------------- the screen

  /** The screen's state. `measure` is the distance calculator (the Haversine formula
      on the device's coordinates and the hotspot record's `latitude` and `longitude`),
      taken as given. The ghost fields record what the latch has seen and where the
      shown distance was measured from. */
  class ControlPanel {
    var alertShown: bool
    var isHotspot: bool
    var deviceLocation: Option<Coordinate>
    var hotspotInfo: Option<Json>
    var distance: Option<real>
    const measure: (Coordinate, Json) -> real

    ghost var readings: seq<bool>
    ghost var alertsRaised: nat
    ghost var measuredAt: Coordinate
    ghost var positions: set<Coordinate>

    /** The latch shows an alert exactly when the latest reading was a detection, one
        alert was raised per rising edge of the readings, the stored location is a
        position the device read, and a shown distance is the distance from such a
        position to the cached hotspot record. */
    ghost predicate Valid()
      reads this
    {
      && alertShown == LastOr(false, readings)
      && alertsRaised == RisesFrom(false, readings)
      && (deviceLocation.Some? ==> deviceLocation.value in positions)
      && (distance.Some? ==>
            && deviceLocation.Some? && hotspotInfo.Some?
            && measuredAt in positions
            && distance.value == measure(measuredAt, hotspotInfo.value))
    }

    constructor (measure: (Coordinate, Json) -> real)
      ensures Valid() && this.measure == measure
      ensures !alertShown && !isHotspot
      ensures deviceLocation.None? && hotspotInfo.None? && distance.None?
      ensures readings == [] && alertsRaised == 0 && positions == {}
    {
      alertShown := false;
      isHotspot := false;
      deviceLocation := None;
      hotspotInfo := None;
      distance := None;
      this.measure := measure;
      readings := [];
      alertsRaised := 0;
      measuredAt := Coordinate(0.0, 0.0);
      positions := {};
    }

    /** One tick of the detection poll. */
    method OnDetectionPoll(reply: HttpReply) returns (notify: bool)
      requires Valid()
      modifies this
      ensures Valid()
      ensures LatchStep(alertShown, notify) == NextLatch(old(alertShown), DetectionReading(reply))
      ensures readings == old(readings) + (match DetectionReading(reply) case Some(d) => [d] case None => [])
      ensures alertsRaised == old(alertsRaised) + (if notify then 1 else 0)
      ensures isHotspot == old(isHotspot) && deviceLocation == old(deviceLocation)
      ensures hotspotInfo == old(hotspotInfo) && distance == old(distance) && positions == old(positions)
    {
      notify := false;
      var reading := DetectionReading(reply);
      if reading.Some? {
        var detected := reading.value;
        var shown := alertShown;
        RisesAppend(false, readings, detected);
        readings := readings + [detected];
        if detected && !shown {
          notify := true;
          alertShown := true;
          alertsRaised := alertsRaised + 1;
        }
        if !detected && shown {
          alertShown := false;
        }
      }
    }

    /** `getDeviceLocation`. A new location also re-runs the publish effect, so the
        publish request, if any, is returned. */
    method RefreshLocation(permission: Option<string>, position: Option<Coordinate>)
      returns (alert: Option<Alert>, publish: Option<Coordinate>)
      requires Valid()
      modifies this
      ensures Valid()
      ensures alert == LocationAttempt(permission, position).alert
      ensures deviceLocation ==
        (if LocationAttempt(permission, position).update.Some? then LocationAttempt(permission, position).update
         else old(deviceLocation))
      ensures positions == old(positions) +
        (if LocationAttempt(permission, position).update.Some? then {LocationAttempt(permission, position).update.value} else {})
      ensures publish == (if LocationAttempt(permission, position).update.Some? then PublishGate(isHotspot, deviceLocation) else None)
      ensures alertShown == old(alertShown) && isHotspot == old(isHotspot)
      ensures hotspotInfo == old(hotspotInfo) && distance == old(distance)
      ensures readings == old(readings) && alertsRaised == old(alertsRaised)
    {
      var attempt := LocationAttempt(permission, position);
      alert := attempt.alert;
      publish := None;
      if attempt.update.Some? {
        deviceLocation := attempt.update;
        positions := positions + {attempt.update.value};
        publish := PublishGate(isHotspot, deviceLocation);
      }
    }

    /** The "is this device the hotspot?" switch. Setting the value it already has
        changes nothing; a real change re-runs the publish effect. */
    method SetHotspot(on: bool) returns (publish: Option<Coordinate>)
      requires Valid()
      modifies this
      ensures Valid()
      ensures isHotspot == on
      ensures publish == (if on != old(isHotspot) then PublishGate(on, deviceLocation) else None)
      ensures alertShown == old(alertShown) && deviceLocation == old(deviceLocation)
      ensures hotspotInfo == old(hotspotInfo) && distance == old(distance)
      ensures readings == old(readings) && alertsRaised == old(alertsRaised) && positions == old(positions)
    {
      publish := None;
      if on != isHotspot {
        isHotspot := on;
        publish := PublishGate(isHotspot, deviceLocation);
      }
    }

    /** Whether the hotspot poll timer is running: only on a consumer. */
    predicate PollsHotspot()
      reads this
    {
      !isHotspot
    }

    /** One tick of the consumer's hotspot poll. An accepted record replaces the cache,
        and the distance is recomputed when the device location is known; any other
        outcome leaves everything as it was. */
    method OnHotspotPoll(reply: HttpReply)
      requires Valid() && PollsHotspot()
      modifies this
      ensures Valid()
      ensures HotspotAnswer(reply).None? ==> hotspotInfo == old(hotspotInfo) && distance == old(distance)
      ensures HotspotAnswer(reply).Some? ==> hotspotInfo == HotspotAnswer(reply)
      ensures HotspotAnswer(reply).Some? && deviceLocation.Some? ==>
        distance == Some(measure(deviceLocation.value, hotspotInfo.value))
      ensures deviceLocation.None? ==> distance == old(distance)
      ensures alertShown == old(alertShown) && isHotspot == old(isHotspot) && deviceLocation == old(deviceLocation)
      ensures readings == old(readings) && alertsRaised == old(alertsRaised) && positions == old(positions)
    {
      var answer := HotspotAnswer(reply);
      if answer.Some? {
        var data := answer.value;
        hotspotInfo := Some(data);
        if deviceLocation.Some? {
          distance := Some(measure(deviceLocation.value, data));
          measuredAt := deviceLocation.value;
        }
      }
    }
  }

  /** The detection poll answering false, true, true, false, true: the alert is shown
      on the second and the fifth tick only. */
  method DetectionScenario(measure: (Coordinate, Json) -> real) returns (notified: seq<bool>)
    ensures notified == [false, true, false, false, true]
  {
    var panel := new ControlPanel(measure);
    var clear := Reply(200, Some(Obj(map["hayalet_detected" := Bool(false)])));
    var detected := Reply(200, Some(Obj(map["hayalet_detected" := Bool(true)])));
    var n1 := panel.OnDetectionPoll(clear);
    var n2 := panel.OnDetectionPoll(detected);
    var n3 := panel.OnDetectionPoll(detected);
    var n4 := panel.OnDetectionPoll(clear);
    var n5 := panel.OnDetectionPoll(detected);
    notified := [n1, n2, n3, n4, n5];
  }
}
