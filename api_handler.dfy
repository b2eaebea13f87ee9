/** The earlier pages-style access handler: the same validation, identification
    and canonical permission key as the route, but it answers without logging,
    and an unknown fingerprint gets a message instead of placeholders. */
module ApiHandler {
  import opened Wrappers
  import opened Js
  import opened Http
  import opened Directory
  import opened AccessRoute

  function MethodNotAllowed(): Response {
    Response(405, map[Error := Str("Método no permitido")])
  }

  function ServerFailure(): Response {
    Response(500, map[Error := Str("Error en el servidor")])
  }

  /** `handler`: 405 for anything but POST, 400 for a missing field, then the
      first strict holder of the parsed id decides, with the permission read
      under `userID_areaKey`. Storage is only read. */
  function Handler(verb: string, body: JsObject, usuarios: seq<UserDoc>,
                   permisos: map<string, JsObject>, faults: Faults): (r: Response)
    ensures verb != "POST" ==> r == MethodNotAllowed()
    ensures verb == "POST" && !Valid(body) ==> r.status == 400 && Acceso !in r.body
    ensures r.status == 500 ==> r == ServerFailure()
    ensures verb == "POST" && Valid(body) && faults.listFails ==> r == ServerFailure()
    ensures (&& verb == "POST" && Valid(body) && !faults.listFails
             && FirstHolder(usuarios, HuellaNum(body), Strict).Some?
             && usuarios[FirstHolder(usuarios, HuellaNum(body), Strict).value].id + "_" + AreaNorm(body) in faults.docFails)
            ==> r == ServerFailure()
    ensures (&& verb == "POST" && Valid(body) && !faults.listFails
             && (FirstHolder(usuarios, HuellaNum(body), Strict).Some? ==>
                   usuarios[FirstHolder(usuarios, HuellaNum(body), Strict).value].id + "_" + AreaNorm(body) !in faults.docFails))
            ==> r.status == 200
    ensures r.status in {200, 400, 405, 500}
    ensures r.status == 200 ==>
      && Acceso in r.body
      && (r.body[Acceso] == Bool(true) <==>
           var holder := FirstHolder(usuarios, HuellaNum(body), Strict);
           holder.Some? && Enabled(permisos, usuarios[holder.value].id + "_" + AreaNorm(body)))
    ensures r.status == 200 && FirstHolder(usuarios, HuellaNum(body), Strict).None? ==>
      r.body == map[Acceso := Bool(false), Mensaje := Str("Huella no registrada")]
    ensures r.status == 200 && FirstHolder(usuarios, HuellaNum(body), Strict).Some? ==>
      var u := usuarios[FirstHolder(usuarios, HuellaNum(body), Strict).value];
      && r.body.Keys == {Acceso, Nombre, Matricula, HuellaID, UserID}
      && r.body[Nombre] == Or(Prop(u.data, "nombre"), Str("Sin nombre"))
      && r.body[Matricula] == Or(Prop(u.data, "matricula"), Str(""))
      && r.body[HuellaID] == HuellaNum(body)
      && r.body[UserID] == Str(u.id)
  {
    if verb != "POST" then MethodNotAllowed()
    else if !Valid(body) then Response(400, map[Error := Str("Faltan datos (huellaID o área)")])
    else if faults.listFails then ServerFailure()
    else
      var huellaNum := HuellaNum(body);
      match FirstHolder(usuarios, huellaNum, Strict)
      case None => Response(200, map[Acceso := Bool(false), Mensaje := Str("Huella no registrada")])
      case Some(k) =>
        var u := usuarios[k];
        var permisoID := u.id + "_" + AreaNorm(body);
        if permisoID in faults.docFails then ServerFailure()
        else
          Response(200, map[Acceso := Bool(Enabled(permisos, permisoID)),
                            Nombre := Or(Prop(u.data, "nombre"), Str("Sin nombre")),
                            Matricula := Or(Prop(u.data, "matricula"), Str("")),
                            HuellaID := huellaNum,
                            UserID := Str(u.id)])
  }

  /** On a POST that both answer with 200, this handler and the route reach the
      same decision; they differ in that only the route logs the attempt. */
  lemma SameDecisionAsRoute(body: JsObject, usuarios: seq<UserDoc>, permisos: map<string, JsObject>,
                            timestamp: string, faults: Faults)
    requires Handler("POST", body, usuarios, permisos, faults).status == 200
    requires PostSpec(usuarios, permisos, body, timestamp, faults).response.status == 200
    ensures Handler("POST", body, usuarios, permisos, faults).body[Acceso]
         == PostSpec(usuarios, permisos, body, timestamp, faults).response.body[Acceso]
  {
    PostLogsItsAnswer(usuarios, permisos, body, timestamp, faults);
    PostDecision(usuarios, permisos, body, timestamp, faults);
  }
}
