/** The meeting-room kiosk: read the device's reply, pull the fingerprint id out
    of it, ask the access route and show the result. */
module Sala {
  import opened Wrappers
  import opened Text
  import opened Js
  import opened Http
  import Directory
  import AccessRoute

  /** The area this kiosk guards. */
  const AreaName: string := "Sala de reuniones 1"

  const Marker: string := "ID: "

  /** `/ID: (\d+)/` can match starting at position `i`. */
  predicate MatchesAt(s: string, i: nat) {
    i + |Marker| < |s| && s[i..i + |Marker|] == Marker && IsDigit(s[i + |Marker|])
  }

  /** `k` is the leftmost position at or after `from` where the expression matches. */
  predicate FirstMatchFrom(s: string, from: nat, k: nat) {
    from <= k < |s| && MatchesAt(s, k) && forall j: nat :: from <= j < k ==> !MatchesAt(s, j)
  }

  /** The leftmost match at or after `from`, and its capture. */
  function MatchFrom(s: string, from: nat): (r: Option<string>)
    ensures r.None? <==> forall j: nat :: from <= j < |s| ==> !MatchesAt(s, j)
    ensures r.Some? ==> exists k: nat :: FirstMatchFrom(s, from, k) && r.value == DigitPrefix(s[k + |Marker|..])
    decreases |s| - from
  {
    if from >= |s| then None
    else if MatchesAt(s, from) then
      assert FirstMatchFrom(s, from, from);
      Some(DigitPrefix(s[from + |Marker|..]))
    else
      var r := MatchFrom(s, from + 1);
      if r.Some? then
        var k: nat :| FirstMatchFrom(s, from + 1, k) && r.value == DigitPrefix(s[k + |Marker|..]);
        assert FirstMatchFrom(s, from, k);
        r
      else
        r
  }

  /** The regular expression's capture: the greedy digit run after the leftmost
      `ID: ` that is followed by a digit, or `None` when there is no such place. */
  function IdMatch(s: string): (r: Option<string>)
    ensures r.None? <==> forall j: nat :: j < |s| ==> !MatchesAt(s, j)
    ensures r.Some? ==> exists k: nat :: FirstMatchFrom(s, 0, k) && r.value == DigitPrefix(s[k + |Marker|..])
    ensures r.Some? ==> r.value != [] && AllDigits(r.value)
  {
    var r := MatchFrom(s, 0);
    if r.Some? then
      var k: nat :| FirstMatchFrom(s, 0, k) && r.value == DigitPrefix(s[k + |Marker|..]);
      assert s[k + |Marker|..][0] == s[k + |Marker|];
      r
    else
      r
  }

  /** What the kiosk does after the device answered: show a message, or ask the
      access route about a fingerprint id. */
  datatype Step = Show(message: string) | Ask(huellaID: nat, area: string)

  /** The device step: a failed response, a reply without an id, or an id to ask about. */
  function AfterDevice(ok: bool, texto: string): (r: Step)
    ensures !ok ==> r == Show("❌ Error al comunicarse con el ESP")
    ensures ok && IdMatch(texto).None? ==> r == Show("❌ No se pudo leer huella: " + Trim(texto))
    ensures ok && IdMatch(texto).Some? ==>
      r.Ask? && r.area == AreaName && r.huellaID == DigitsValue(IdMatch(texto).value)
  {
    if !ok then Show("❌ Error al comunicarse con el ESP")
    else match IdMatch(texto)
      case None => Show("❌ No se pudo leer huella: " + Trim(texto))
      case Some(ds) => Ask(DigitsValue(ds), AreaName)
  }

  /** The JSON body the kiosk posts. */
  function Request(huellaID: nat, area: string): (body: JsObject)
    ensures Prop(body, "huellaID") == Num(huellaID) && Prop(body, "area") == Str(area)
  {
    map["huellaID" := Num(huellaID), "area" := Str(area)]
  }

  function Get(body: map<Field, JsValue>, f: Field): JsValue {
    if f in body then body[f] else Undefined
  }

  const Denied: string := "⛔ Acceso denegado"

  /** The message for the route's answer: a truthy `acceso` shows the name and
      enrolment number, anything else is a denial. */
  function AfterBackend(datos: map<Field, JsValue>): (m: string)
    ensures !Truthy(Get(datos, Acceso)) <==> m == Denied
    ensures Truthy(Get(datos, Acceso)) ==>
      m == "✅ Acceso permitido: " + ToJsString(Get(datos, Nombre)) + " (" + ToJsString(Get(datos, Matricula)) + ")"
  {
    if Truthy(Get(datos, Acceso)) then
      "✅ Acceso permitido: " + ToJsString(Get(datos, Nombre)) + " (" + ToJsString(Get(datos, Matricula)) + ")"
    else Denied
  }

  /** A reply carrying `ID: ` and the numeral of `n`, with nothing matching
      before it, is read as id `n`. */
  lemma {:induction false} ReadsWrittenId(prefix: string, n: nat, rest: string)
    requires forall i: nat :: i < |prefix| ==> !MatchesAt(prefix + Marker + NatDigits(n) + rest, i)
    requires rest == [] || !IsDigit(rest[0])
    ensures AfterDevice(true, prefix + Marker + NatDigits(n) + rest) == Ask(n, AreaName)
  {
    var s := prefix + Marker + NatDigits(n) + rest;
    var ds := NatDigits(n);
    var p := |prefix|;
    assert s[p..p + |Marker|] == Marker;
    assert s[p + |Marker|..] == ds + rest;
    assert s[p + |Marker|] == ds[0];
    assert MatchesAt(s, p);
    assert IdMatch(s).Some?;
    var k: nat :| FirstMatchFrom(s, 0, k) && IdMatch(s).value == DigitPrefix(s[k + |Marker|..]);
    if k < p {
      assert !MatchesAt(s, k);
    }
    DigitPrefixOfDigits(ds, rest);
    NatDigitsRoundTrip(n);
  }

  /** Any answer that denies is shown as a denial. */
  lemma DenialShownAsDenial(r: Response)
    requires Denies(r)
    ensures AfterBackend(r.body) == Denied
  {
  }

  /** The route reads the kiosk's request back as the same fingerprint id. */
  lemma RouteReadsKioskId(n: nat)
    ensures AccessRoute.HuellaNum(Request(n, AreaName)) == Num(n)
    ensures AccessRoute.Valid(Request(n, AreaName)) <==> n != 0
  {
  }

  /** A finger enrolled as id 0 is never let in by this kiosk: `0` is falsy, so
      the route refuses the request as incomplete. */
  lemma ZeroIdDenied(usuarios: seq<Directory.UserDoc>, permisos: map<string, JsObject>,
                     timestamp: string, faults: Faults)
    ensures AfterBackend(AccessRoute.PostSpec(usuarios, permisos, Request(0, AreaName), timestamp,
                                              faults).response.body) == Denied
  {
    AccessRoute.PostRefusesIncomplete(usuarios, permisos, Request(0, AreaName), timestamp, faults);
  }
}
