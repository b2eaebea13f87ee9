/** The access check the fingerprint reader calls (`POST /api/verificarAcceso`):
    validate the request, identify the user by fingerprint, look up the permission
    under `userID_areaKey`, append one log entry, and answer. */
module AccessRoute {
  import opened Wrappers
  import opened Js
  import opened Http
  import opened Directory
  import opened AreaKey

  /** One document of the access log. */
  datatype LogEntry = LogEntry(
    timestamp: string,
    userID: JsValue,
    nombre: JsValue,
    matricula: JsValue,
    area: string,
    huellaID: JsValue,
    acceso: bool)
  {
    /** The fields as the log collection stores them. */
    function AsDocument(): (doc: JsObject)
      ensures doc.Keys == {"timestamp", "userID", "nombre", "matricula", "area", "huellaID", "acceso"}
      ensures doc["acceso"] == Bool(acceso) && doc["area"] == Str(area) && doc["huellaID"] == huellaID
      ensures doc["nombre"] == nombre && doc["matricula"] == matricula && doc["timestamp"] == Str(timestamp)
      ensures doc["userID"] == userID
    {
      map["timestamp" := Str(timestamp), "userID" := userID, "nombre" := nombre,
          "matricula" := matricula, "area" := Str(area), "huellaID" := huellaID,
          "acceso" := Bool(acceso)]
    }
  }

  /** The stored collections the handler works on. */
  class AccessDb {
    /** The user collection, in the order a listing returns it. */
    var usuarios: seq<UserDoc>
    /** The permission collection, by document id `userID_areaKey`. */
    var permisos: map<string, JsObject>
    /** The access log, append-only. */
    var logs: seq<LogEntry>

    constructor (usuarios: seq<UserDoc>, permisos: map<string, JsObject>, logs: seq<LogEntry>)
      ensures this.usuarios == usuarios && this.permisos == permisos && this.logs == logs
    {
      this.usuarios := usuarios;
      this.permisos := permisos;
      this.logs := logs;
    }
  }

  const UnknownUser: JsValue := Str("Usuario Desconocido")

  function MissingData(): Response {
    Response(400, map[Acceso := Bool(false), Error := Str("Faltan datos")])
  }

  function ServerError(): Response {
    Response(500, map[Acceso := Bool(false), Error := Str("Error de servidor")])
  }

  /** The permission record exists and its `habilitado` is exactly `true`. */
  predicate Enabled(permisos: map<string, JsObject>, key: string) {
    key in permisos && StrictEq(Prop(permisos[key], "habilitado"), Bool(true))
  }

  /** The parsed fingerprint id of a request (`NaN` when it does not parse). */
  function HuellaNum(body: JsObject): JsValue {
    NumberValue(ParseIntValue(Prop(body, "huellaID")))
  }

  /** The canonical key of the requested area. */
  function AreaNorm(body: JsObject): string {
    Normalize(ToJsString(Prop(body, "area")))
  }

  predicate Valid(body: JsObject) {
    Truthy(Prop(body, "huellaID")) && Truthy(Prop(body, "area"))
  }

  /** What one request does: its response and the log entries it appends. */
  datatype Outcome = Outcome(response: Response, appended: seq<LogEntry>)

  /** The last step: append the entry and answer 200, unless the append throws. */
  function Finish(faults: Faults, entry: LogEntry): (o: Outcome)
    ensures faults.writeFails ==> o == Outcome(ServerError(), [])
    ensures !faults.writeFails ==> o.appended == [entry] && o.response.status == 200
    ensures !faults.writeFails ==> o.response.body == map[Acceso := Bool(entry.acceso),
      Nombre := entry.nombre, Matricula := entry.matricula]
  {
    if faults.writeFails then Outcome(ServerError(), [])
    else Outcome(Response(200, map[Acceso := Bool(entry.acceso), Nombre := entry.nombre,
                                   Matricula := entry.matricula]), [entry])
  }

  /** The behaviour of `POST` as a function of the stored data, the request, the
      time and the storage failures. */
  function PostSpec(usuarios: seq<UserDoc>, permisos: map<string, JsObject>, body: JsObject,
                    timestamp: string, faults: Faults): Outcome
  {
    if !Valid(body) then Outcome(MissingData(), [])
    else if faults.listFails then Outcome(ServerError(), [])
    else
      var huellaNum := HuellaNum(body);
      var areaNorm := AreaNorm(body);
      match FirstHolder(usuarios, huellaNum, Strict)
      case None =>
        Finish(faults, LogEntry(timestamp, Or(Null, Str("N/A")), UnknownUser, Str(""), areaNorm, huellaNum, false))
      case Some(k) =>
        var u := usuarios[k];
        var permisoId := u.id + "_" + areaNorm;
        if permisoId in faults.docFails then Outcome(ServerError(), [])
        else
          Finish(faults, LogEntry(timestamp, Or(Str(u.id), Str("N/A")), Prop(u.data, "nombre"),
                                  Or(Prop(u.data, "matricula"), Str("")), areaNorm, huellaNum,
                                  Enabled(permisos, permisoId)))
  }

  /** A request missing either field is refused with 400, and nothing is logged. */
  lemma PostRefusesIncomplete(usuarios: seq<UserDoc>, permisos: map<string, JsObject>, body: JsObject,
                              timestamp: string, faults: Faults)
    requires !Valid(body)
    ensures var o := PostSpec(usuarios, permisos, body, timestamp, faults);
      o.response.status == 400 && Denies(o.response) && o.appended == []
  {
  }

  /** Errors fail closed: every answer is 200, 400 or 500, and any answer other
      than 200 carries `acceso: false` and logs nothing. */
  lemma PostFailsClosed(usuarios: seq<UserDoc>, permisos: map<string, JsObject>, body: JsObject,
                        timestamp: string, faults: Faults)
    ensures var o := PostSpec(usuarios, permisos, body, timestamp, faults);
      && o.response.status in {200, 400, 500}
      && (o.response.status != 200 ==> Denies(o.response) && o.appended == [])
  {
  }

  /** Every storage error of a complete request gives 500 with nothing logged:
      a failed user listing, a failed read of the first holder's permission
      record, and a failed log write. */
  lemma PostStorageErrorsGive500(usuarios: seq<UserDoc>, permisos: map<string, JsObject>, body: JsObject,
                                 timestamp: string, faults: Faults)
    ensures Valid(body) && faults.listFails ==> PostSpec(usuarios, permisos, body, timestamp, faults) == Outcome(ServerError(), [])
    ensures (&& Valid(body) && !faults.listFails && FirstHolder(usuarios, HuellaNum(body), Strict).Some?
             && usuarios[FirstHolder(usuarios, HuellaNum(body), Strict).value].id + "_" + AreaNorm(body) in faults.docFails)
            ==> PostSpec(usuarios, permisos, body, timestamp, faults) == Outcome(ServerError(), [])
    ensures Valid(body) && faults.writeFails ==> PostSpec(usuarios, permisos, body, timestamp, faults) == Outcome(ServerError(), [])
  {
  }

  /** On the non-error path exactly one entry is logged, and it records the
      answer: the same decision, name and matricula, the request time, the
      canonical area key and the parsed fingerprint id. */
  lemma PostLogsItsAnswer(usuarios: seq<UserDoc>, permisos: map<string, JsObject>, body: JsObject,
                          timestamp: string, faults: Faults)
    ensures var o := PostSpec(usuarios, permisos, body, timestamp, faults);
      o.response.status == 200 ==>
        && |o.appended| == 1
        && o.response.body.Keys == {Acceso, Nombre, Matricula}
        && o.response.body[Acceso] == Bool(o.appended[0].acceso)
        && o.response.body[Nombre] == o.appended[0].nombre
        && o.response.body[Matricula] == o.appended[0].matricula
        && o.appended[0].timestamp == timestamp
        && o.appended[0].area == AreaNorm(body)
        && o.appended[0].huellaID == HuellaNum(body)
  {
  }

  /** Access is granted exactly when a user holds the fingerprint and the record
      under the first holder's `userID_areaKey` exists with `habilitado` exactly
      `true`; the entry names that user, or `N/A` and the placeholders when no
      one holds it. */
  lemma PostDecision(usuarios: seq<UserDoc>, permisos: map<string, JsObject>, body: JsObject,
                     timestamp: string, faults: Faults)
    ensures var o := PostSpec(usuarios, permisos, body, timestamp, faults);
      var holder := FirstHolder(usuarios, HuellaNum(body), Strict);
      o.response.status == 200 ==>
        && (o.appended[0].acceso <==>
              holder.Some? && Enabled(permisos, usuarios[holder.value].id + "_" + AreaNorm(body)))
        && (holder.None? ==>
              o.appended[0] == LogEntry(timestamp, Str("N/A"), UnknownUser, Str(""), AreaNorm(body),
                                        HuellaNum(body), false))
        && (holder.Some? ==>
              var u := usuarios[holder.value];
              && o.appended[0].userID == Or(Str(u.id), Str("N/A"))
              && o.appended[0].nombre == Prop(u.data, "nombre")
              && o.appended[0].matricula == Or(Prop(u.data, "matricula"), Str("")))
  {
  }

  /** Without storage failures a valid request is always answered with 200 and logged. */
  lemma PostAnswersWithoutFaults(usuarios: seq<UserDoc>, permisos: map<string, JsObject>, body: JsObject,
                                 timestamp: string)
    requires Valid(body)
    ensures var o := PostSpec(usuarios, permisos, body, timestamp, Faults(false, {}, false));
      o.response.status == 200 && |o.appended| == 1
  {
  }

  /** Once the first holder is known and its permission read succeeded, the
      outcome is that of the final append. */
  lemma PostSpecResolved(usuarios: seq<UserDoc>, permisos: map<string, JsObject>, body: JsObject,
                         timestamp: string, faults: Faults, k: nat)
    requires Valid(body) && !faults.listFails
    requires FirstHolder(usuarios, HuellaNum(body), Strict) == Some(k)
    requires usuarios[k].id + "_" + AreaNorm(body) !in faults.docFails
    ensures var u := usuarios[k];
      PostSpec(usuarios, permisos, body, timestamp, faults)
      == Finish(faults, LogEntry(timestamp, Or(Str(u.id), Str("N/A")), Prop(u.data, "nombre"),
                                 Or(Prop(u.data, "matricula"), Str("")), AreaNorm(body), HuellaNum(body),
                                 Enabled(permisos, u.id + "_" + AreaNorm(body))))
  {
  }

  /** `POST`: scans the users with a loop that stops at the first holder, reads
      that user's permission, then appends exactly one entry to the log. Users and
      permissions are only read: the log is the one thing it may change. */
  method Post(db: AccessDb, body: JsObject, timestamp: string, faults: Faults) returns (resp: Response)
    modifies db`logs
    ensures resp == PostSpec(db.usuarios, db.permisos, body, timestamp, faults).response
    ensures db.logs == old(db.logs) + PostSpec(db.usuarios, db.permisos, body, timestamp, faults).appended
  {
    var huellaID := Prop(body, "huellaID");
    var area := Prop(body, "area");
    if !Truthy(huellaID) || !Truthy(area) {
      return MissingData();
    }
    var huellaNum := NumberValue(ParseIntValue(huellaID));
    var areaNorm := Normalize(ToJsString(area));

    var userID := Null;
    var userName := UnknownUser;
    var userMatricula := Str("");
    var tieneAcceso := false;

    if faults.listFails {
      return ServerError();
    }
    var usersSnap := db.usuarios;
    var i := 0;
    while i < |usersSnap|
      invariant 0 <= i <= |usersSnap|
      invariant forall j :: 0 <= j < i ==> !Holds(usersSnap[j].data, huellaNum, Strict)
      invariant userID == Null && userName == UnknownUser && userMatricula == Str("") && !tieneAcceso
    {
      var data := usersSnap[i].data;
      if Holds(data, huellaNum, Strict) {
        userID := Str(usersSnap[i].id);
        userName := Prop(data, "nombre");
        userMatricula := Or(Prop(data, "matricula"), Str(""));
        var permisoId := usersSnap[i].id + "_" + areaNorm;
        FirstHolderAt(usersSnap, huellaNum, Strict, i);
        if permisoId in faults.docFails {
          return ServerError();
        }
        tieneAcceso := permisoId in db.permisos && StrictEq(Prop(db.permisos[permisoId], "habilitado"), Bool(true));
        PostSpecResolved(usersSnap, db.permisos, body, timestamp, faults, i);
        break;
      }
      i := i + 1;
    }

    if faults.writeFails {
      return ServerError();
    }
    db.logs := db.logs + [LogEntry(timestamp, Or(userID, Str("N/A")), userName, userMatricula,
                                   areaNorm, huellaNum, tieneAcceso)];
    resp := Response(200, map[Acceso := Bool(tieneAcceso), Nombre := userName,
                              Matricula := userMatricula]);
  }
}
