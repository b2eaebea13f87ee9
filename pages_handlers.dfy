/** The oldest access route: the fingerprint id is compared with loose `==`
    exactly as sent, and the permission key uses the area exactly as sent. */
module PagesRoute {
  import opened Wrappers
  import opened Js
  import opened Http
  import opened Directory
  import AccessRoute

  function ServerFailure(): Response {
    Response(500, map[Error := Str("Error en el servidor")])
  }

  /** The permission key: user id, `_`, and the area as sent (no canonical form). */
  function RawKey(userID: string, body: JsObject): string {
    userID + "_" + ToJsString(Prop(body, "area"))
  }

  /** `POST`: 400 for a missing field, else the first loose holder of the raw id
      decides, with the permission read under the raw key. Storage is only read. */
  function Post(body: JsObject, usuarios: seq<UserDoc>, permisos: map<string, JsObject>,
                faults: Faults): (r: Response)
    ensures !AccessRoute.Valid(body) ==> r.status == 400 && Acceso !in r.body
    ensures r.status == 500 ==> r == ServerFailure()
    ensures r.status in {200, 400, 500}
    ensures r.status == 200 ==>
      && Acceso in r.body
      && (r.body[Acceso] == Bool(true) <==>
           var holder := FirstHolder(usuarios, Prop(body, "huellaID"), Loose);
           holder.Some? && AccessRoute.Enabled(permisos, RawKey(usuarios[holder.value].id, body)))
    ensures r.status == 200 && FirstHolder(usuarios, Prop(body, "huellaID"), Loose).None? ==>
      r.body == map[Acceso := Bool(false), Mensaje := Str("Huella no registrada")]
    ensures r.status == 200 && FirstHolder(usuarios, Prop(body, "huellaID"), Loose).Some? ==>
      var u := usuarios[FirstHolder(usuarios, Prop(body, "huellaID"), Loose).value];
      && r.body.Keys == {Acceso, Nombre, Matricula}
      && r.body[Nombre] == Or(Prop(u.data, "nombre"), Str("Sin nombre"))
      && r.body[Matricula] == Or(Prop(u.data, "matricula"), Str(""))
    ensures AccessRoute.Valid(body) && faults.listFails ==> r == ServerFailure()
    ensures (&& AccessRoute.Valid(body) && !faults.listFails
             && FirstHolder(usuarios, Prop(body, "huellaID"), Loose).Some?
             && RawKey(usuarios[FirstHolder(usuarios, Prop(body, "huellaID"), Loose).value].id, body) in faults.docFails)
            ==> r == ServerFailure()
    ensures (&& AccessRoute.Valid(body) && !faults.listFails
             && (FirstHolder(usuarios, Prop(body, "huellaID"), Loose).Some? ==>
                   RawKey(usuarios[FirstHolder(usuarios, Prop(body, "huellaID"), Loose).value].id, body) !in faults.docFails))
            ==> r.status == 200
  {
    if !AccessRoute.Valid(body) then Response(400, map[Error := Str("Faltan datos (huellaID o área)")])
    else if faults.listFails then ServerFailure()
    else
      match FirstHolder(usuarios, Prop(body, "huellaID"), Loose)
      case None => Response(200, map[Acceso := Bool(false), Mensaje := Str("Huella no registrada")])
      case Some(k) =>
        var u := usuarios[k];
        var permisoID := RawKey(u.id, body);
        if permisoID in faults.docFails then ServerFailure()
        else
          Response(200, map[Acceso := Bool(AccessRoute.Enabled(permisos, permisoID)),
                            Nombre := Or(Prop(u.data, "nombre"), Str("Sin nombre")),
                            Matricula := Or(Prop(u.data, "matricula"), Str(""))])
  }

  /** Loose matching lets a numeric slot match the same number sent as text,
      which strict matching against the raw value would not. */
  lemma NumeralMatchesNumericSlot(data: JsObject, n: int)
    requires Prop(data, "huella1") == Num(n)
    ensures Holds(data, Str(DecimalString(n)), Loose)
    ensures !StrictEq(Prop(data, "huella1"), Str(DecimalString(n)))
  {
    LooseMatchesNumeral(n);
  }

  /** The raw key keeps the area exactly as sent: two requests whose areas read
      differently ("Lab Quimica", "labquimica") look up different records, where
      the route's canonical key would make them one. */
  lemma RawKeysDiffer(userID: string, body1: JsObject, body2: JsObject)
    requires ToJsString(Prop(body1, "area")) != ToJsString(Prop(body2, "area"))
    ensures RawKey(userID, body1) != RawKey(userID, body2)
  {
    var prefix := userID + "_";
    assert RawKey(userID, body1)[|prefix|..] == ToJsString(Prop(body1, "area"));
    assert RawKey(userID, body2)[|prefix|..] == ToJsString(Prop(body2, "area"));
  }
}

/** The pages-style copy of the oldest route: the same decision behind a check
    that the request is a POST. */
module PagesApi {
  import opened Js
  import opened Http
  import opened Directory
  import PagesRoute

  /** `handler`: 405 for anything but POST; otherwise exactly the route's answer. */
  function Handler(verb: string, body: JsObject, usuarios: seq<UserDoc>,
                   permisos: map<string, JsObject>, faults: Faults): (r: Response)
    ensures verb != "POST" ==> r.status == 405 && r.body == map[Error := Str("Método no permitido")]
    ensures verb == "POST" ==> r == PagesRoute.Post(body, usuarios, permisos, faults)
    ensures r.status in {200, 400, 405, 500}
  {
    if verb != "POST" then Response(405, map[Error := Str("Método no permitido")])
    else PagesRoute.Post(body, usuarios, permisos, faults)
  }
}
