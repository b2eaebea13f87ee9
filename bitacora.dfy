/** The access-log page: each stored log document becomes a table row with
    defaults for missing fields, and each cell has its own display rule. */
module Bitacora {
  import opened Wrappers
  import opened Text
  import opened Js
  import opened Http
  import Directory
  import AccessRoute

  /** A row of the log table. */
  datatype Row = Row(id: string, timestamp: JsValue, nombre: JsValue, matricula: JsValue,
                     area: JsValue, huellaID: JsValue, acceso: bool)

  /** A log document mapped to a row: falsy fields take their defaults, and
      `acceso` holds only for a stored boolean `true`. */
  function LoadRow(id: string, data: JsObject): (r: Row)
    ensures r.id == id
    ensures Truthy(r.timestamp) || r.timestamp == Str("")
    ensures Truthy(r.nombre) && Truthy(r.matricula) && Truthy(r.area) && r.huellaID != Undefined
    ensures !Truthy(Prop(data, "timestamp")) ==> r.timestamp == Str("")
    ensures !Truthy(Prop(data, "nombre")) ==> r.nombre == Str("Usuario Desconocido")
    ensures !Truthy(Prop(data, "matricula")) ==> r.matricula == Str("N/A")
    ensures !Truthy(Prop(data, "area")) ==> r.area == Str("N/A")
    ensures !Truthy(Prop(data, "huellaID")) ==> r.huellaID == Num(0)
    ensures Truthy(Prop(data, "timestamp")) ==> r.timestamp == data["timestamp"]
    ensures Truthy(Prop(data, "nombre")) ==> r.nombre == data["nombre"]
    ensures Truthy(Prop(data, "matricula")) ==> r.matricula == data["matricula"]
    ensures Truthy(Prop(data, "area")) ==> r.area == data["area"]
    ensures Truthy(Prop(data, "huellaID")) ==> r.huellaID == data["huellaID"]
    ensures r.acceso <==> Prop(data, "acceso") == Bool(true)
  {
    Row(id,
        Or(Prop(data, "timestamp"), Str("")),
        Or(Prop(data, "nombre"), Str("Usuario Desconocido")),
        Or(Prop(data, "matricula"), Str("N/A")),
        Or(Prop(data, "area"), Str("N/A")),
        Or(Prop(data, "huellaID"), Num(0)),
        StrictEq(Prop(data, "acceso"), Bool(true)))
  }

  /** The result column. */
  function ResultLabel(acceso: bool): (s: string)
    ensures s == "CONCEDIDO" <==> acceso
    ensures s == "DENEGADO" <==> !acceso
  {
    if acceso then "CONCEDIDO" else "DENEGADO"
  }

  /** The date column; `formatted` is what the browser's locale formatting
      makes of the timestamp. */
  function TimestampCell(timestamp: JsValue, formatted: string): (s: string)
    ensures !Truthy(timestamp) ==> s == "Fecha no registrada"
    ensures Truthy(timestamp) ==> s == formatted
  {
    if !Truthy(timestamp) then "Fecha no registrada" else formatted
  }

  /** The area column, upper-cased; `None` where the value has no
      `toUpperCase` and rendering would throw. */
  function AreaCell(area: JsValue): (r: Option<string>)
    ensures r.Some? <==> area.Str?
    ensures r.Some? ==> |r.value| == |area.s| && forall i :: 0 <= i < |area.s| ==> r.value[i] == UpperChar(area.s[i])
  {
    if area.Str? then Some(ToUpper(area.s)) else None
  }

  /** The fingerprint column: `0` shows as `N/A`, any other id as itself. */
  function HuellaCell(id: JsValue): (r: JsValue)
    ensures id == Num(0) ==> r == Str("N/A")
    ensures id != Num(0) ==> r == id
  {
    if StrictEq(id, Num(0)) then Str("N/A") else id
  }

  /** A loaded row shows `N/A` for the fingerprint exactly when the stored id
      was missing or falsy. */
  lemma HuellaNAIffStoredFalsy(id: string, data: JsObject)
    ensures HuellaCell(LoadRow(id, data).huellaID) == Str("N/A") <==>
      !Truthy(Prop(data, "huellaID")) || Prop(data, "huellaID") == Str("N/A")
  {
  }

  /** Rows loaded from what the access route logs show what the route decided:
      the same result, time, area key and name. */
  lemma LogEntryRoundTrip(id: string, e: AccessRoute.LogEntry)
    ensures var r := LoadRow(id, e.AsDocument());
      && r.acceso == e.acceso
      && r.timestamp == Str(e.timestamp)
      && (e.area != "" ==> r.area == Str(e.area))
      && (Truthy(e.nombre) ==> r.nombre == e.nombre)
  {
  }

  /** The log page labels each request that the route answered with 200 the
      way the route answered it. */
  lemma PageShowsRouteDecision(usuarios: seq<Directory.UserDoc>, permisos: map<string, JsObject>,
                               body: JsObject, timestamp: string, faults: Faults, id: string)
    requires AccessRoute.PostSpec(usuarios, permisos, body, timestamp, faults).response.status == 200
    ensures var o := AccessRoute.PostSpec(usuarios, permisos, body, timestamp, faults);
      && |o.appended| == 1
      && Acceso in o.response.body
      && (var shown := ResultLabel(LoadRow(id, o.appended[0].AsDocument()).acceso);
          shown == "CONCEDIDO" <==> o.response.body[Acceso] == Bool(true))
  {
    AccessRoute.PostLogsItsAnswer(usuarios, permisos, body, timestamp, faults);
    var o := AccessRoute.PostSpec(usuarios, permisos, body, timestamp, faults);
    LogEntryRoundTrip(id, o.appended[0]);
  }
}
