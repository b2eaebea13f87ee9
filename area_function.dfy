/** The HTTP cloud function `verificarAcceso`: the query names a fingerprint id
    and an area; the area document lists the ids allowed in. */
module AreaFunction {
  import opened Wrappers
  import opened Js
  import opened Http

  predicate StartsWith(s: string, p: string) {
    |p| <= |s| && s[..|p|] == p
  }

  /** `String.prototype.includes`: `sub` occurs somewhere in `s`. */
  predicate StringIncludes(s: string, sub: string) {
    exists i :: 0 <= i <= |s| && StartsWith(s[i..], sub)
  }

  /** `parseInt(idHuella)` as a JavaScript number (NaN when it does not parse). */
  function ParsedId(query: JsObject): JsValue {
    NumberValue(ParseIntValue(Prop(query, "idHuella")))
  }

  /** `usuarios.includes(parseInt(idHuella))` for the value stored under
      `usuarios` (an empty list when absent or falsy). Only arrays and strings
      have an `includes`; anything else throws, which is `None` here. */
  function Admits(usuarios: JsValue, id: JsValue): (r: Option<bool>)
    ensures r.Some? <==> Or(usuarios, Arr([])).Arr? || Or(usuarios, Arr([])).Str?
    ensures Or(usuarios, Arr([])).Arr? ==> r == Some(Includes(Or(usuarios, Arr([])).items, id))
    ensures !Truthy(usuarios) ==> r == Some(false)
  {
    match Or(usuarios, Arr([]))
    case Arr(items) => Some(Includes(items, id))
    case Str(s) => Some(StringIncludes(s, ToJsString(id)))
    case _ => None
  }

  function InternalError(): Response {
    Response(500, map[Error := Str("Error interno")])
  }

  /** The function's answer. `areas` maps area document ids to their data; a
      read of an id in `faults.docFails` throws. */
  function Verify(query: JsObject, areas: map<string, JsObject>, faults: Faults): (r: Response)
    ensures !Truthy(Prop(query, "idHuella")) || !Truthy(Prop(query, "area")) <==> r.status == 400
    ensures r.status in {200, 400, 404, 500}
    ensures r.status == 404 ==>
      Prop(query, "area").Str? && Prop(query, "area").s !in areas
      && r.body == map[Acceso := Bool(false), Motivo := Str("Área no encontrada")]
    ensures r.status == 200 ==>
      && Prop(query, "area").Str? && Prop(query, "area").s in areas
      && Acceso in r.body
      && (r.body[Acceso] == Bool(true) <==>
            Admits(Prop(areas[Prop(query, "area").s], "usuarios"), ParsedId(query)) == Some(true))
    ensures r.status == 200 && r.body[Acceso] == Bool(false) ==> Motivo in r.body && r.body[Motivo] == Str("Sin permiso")
    ensures r.status == 500 ==> r == InternalError()
    ensures (&& Truthy(Prop(query, "idHuella")) && Truthy(Prop(query, "area"))
             && (!Prop(query, "area").Str? || Prop(query, "area").s in faults.docFails))
            ==> r == InternalError()
    ensures (&& Truthy(Prop(query, "idHuella")) && Truthy(Prop(query, "area")) && Prop(query, "area").Str?
             && Prop(query, "area").s !in faults.docFails && Prop(query, "area").s in areas
             && Admits(Prop(areas[Prop(query, "area").s], "usuarios"), ParsedId(query)) == None)
            ==> r == InternalError()
    ensures (&& Truthy(Prop(query, "idHuella")) && Prop(query, "area").Str? && Prop(query, "area").s != ""
             && Prop(query, "area").s !in faults.docFails && Prop(query, "area").s !in areas)
            ==> r == Response(404, map[Acceso := Bool(false), Motivo := Str("Área no encontrada")])
    ensures (&& Truthy(Prop(query, "idHuella")) && Truthy(Prop(query, "area")) && Prop(query, "area").Str?
             && faults.docFails == {} && Prop(query, "area").s in areas
             && Or(Prop(areas[Prop(query, "area").s], "usuarios"), Arr([])).Arr?)
            ==> r.status == 200
  {
    var idHuella := Prop(query, "idHuella");
    var area := Prop(query, "area");
    if !Truthy(idHuella) || !Truthy(area) then Response(400, map[Error := Str("Faltan parámetros")])
    else if !area.Str? || area.s in faults.docFails then InternalError()
    else if area.s !in areas then Response(404, map[Acceso := Bool(false), Motivo := Str("Área no encontrada")])
    else
      match Admits(Prop(areas[area.s], "usuarios"), ParsedId(query))
      case None => InternalError()
      case Some(true) => Response(200, map[Acceso := Bool(true)])
      case Some(false) => Response(200, map[Acceso := Bool(false), Motivo := Str("Sin permiso")])
  }

  /** A query carrying the decimal numeral of `n` is admitted exactly when the
      number `n` is in the area's list. */
  lemma NumeralAdmittedIffListed(n: int, items: seq<JsValue>)
    ensures Admits(Arr(items), NumberValue(ParseIntValue(Str(ToJsString(Num(n)))))) == Some(Includes(items, Num(n)))
  {
    ParseIntOfNumber(n);
  }

  /** Ids stored as strings in the list never admit anyone: `includes` compares
      with SameValueZero, and `parseInt` always yields a number or NaN. */
  lemma StringEntriesNeverAdmit(items: seq<JsValue>, query: JsObject)
    requires forall j :: 0 <= j < |items| ==> items[j].Str?
    ensures Admits(Arr(items), ParsedId(query)) == Some(false)
  {
  }

  /** An id that does not parse (NaN) is admitted by a list only when the list
      itself holds NaN: `includes` (unlike `===`) treats NaN as equal to NaN. */
  lemma UnparsableIdAdmittedOnlyByNaN(items: seq<JsValue>)
    ensures Admits(Arr(items), NaN) == Some(NaN in items)
  {
    if NaN in items {
      var j :| 0 <= j < |items| && items[j] == NaN;
      assert SameValueZero(items[j], NaN);
    }
  }

  /** A query whose `idHuella` is the numeral of `n`, for an area whose
      `usuarios` array holds the number `n`, is granted. */
  lemma ListedIdGranted(query: JsObject, areas: map<string, JsObject>, name: string, n: int)
    requires Prop(query, "idHuella") == Str(ToJsString(Num(n))) && Prop(query, "area") == Str(name) && name != []
    requires name in areas && Prop(areas[name], "usuarios").Arr?
    requires Includes(Prop(areas[name], "usuarios").items, Num(n))
    ensures Verify(query, areas, Faults(false, {}, false)) == Response(200, map[Acceso := Bool(true)])
  {
    NumeralAdmittedIffListed(n, Prop(areas[name], "usuarios").items);
  }

  /** The same query against an array that does not hold the number `n` is
      refused with "Sin permiso". */
  lemma UnlistedIdRefused(query: JsObject, areas: map<string, JsObject>, name: string, n: int)
    requires Prop(query, "idHuella") == Str(ToJsString(Num(n))) && Prop(query, "area") == Str(name) && name != []
    requires name in areas && Prop(areas[name], "usuarios").Arr?
    requires !Includes(Prop(areas[name], "usuarios").items, Num(n))
    ensures Verify(query, areas, Faults(false, {}, false))
            == Response(200, map[Acceso := Bool(false), Motivo := Str("Sin permiso")])
  {
    NumeralAdmittedIffListed(n, Prop(areas[name], "usuarios").items);
  }
}
